/**
 * What the board keeps about one visitor between requests: the
 * `last_post_time` and `board_style` entries of the PHP session and the
 * `board_style` cookie.
 */
module Session {
  import opened Base
  import opened AntiSpam
  import opened Styles

  class Visitor {
    /** $_SESSION['last_post_time']; initAntiSpam() makes an unset entry 0. */
    var lastPostTime: int
    /** $_SESSION['board_style']. */
    var sessionStyle: Option<string>
    /** The board_style cookie the browser sends back. */
    var cookieStyle: Option<string>

    /** A fresh session with no cookie. */
    constructor ()
      ensures lastPostTime == 0 && sessionStyle == None && cookieStyle == None
    {
      lastPostTime := 0;
      sessionStyle := None;
      cookieStyle := None;
    }

    /** registerAntiSpam(): remember the time of this successful post. */
    method RegisterAntiSpam(now: int)
      modifies this
      ensures lastPostTime == now
      ensures sessionStyle == old(sessionStyle) && cookieStyle == old(cookieStyle)
    {
      lastPostTime := now;
    }

    /**
     * The `?style=` switch (b/index.php and b/catalogo.php): an available
     * style is stored in the cookie and the session and the page redirects;
     * any other request changes nothing and the page renders as usual.
     */
    method SwitchStyle(requested: string, styles: seq<string>) returns (redirected: bool)
      modifies this
      ensures redirected <==> requested in styles
      ensures redirected ==> cookieStyle == Some(requested) && sessionStyle == Some(requested)
      ensures !redirected ==> cookieStyle == old(cookieStyle) && sessionStyle == old(sessionStyle)
      ensures lastPostTime == old(lastPostTime)
    {
      if requested in styles {
        cookieStyle := Some(requested);
        sessionStyle := Some(requested);
        return true;
      }
      return false;
    }
  }

  /** After a successful switch to `requested`, both pages render with that style. */
  lemma SwitchedStyleIsCurrent(requested: string, styles: seq<string>)
    requires requested in styles
    ensures IndexCurrentStyle(Some(requested), Some(requested), styles) == requested
    ensures CatalogCurrentStyle(Some(requested), Some(requested), styles) == requested
  {
  }
}
