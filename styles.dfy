/**
 * Stylesheet selection: getCurrentStyle() in b/index.php and in
 * b/catalogo.php. `styles` is what getAvailableStyles() finds, the names of
 * the stylesheets in their directory order.
 */
module Styles {
  import opened Base

  const DEFAULT_STYLE: string := "yotsuba"

  /** The stored preference, when there is one and it names an available style. */
  predicate Usable(pref: Option<string>, styles: seq<string>) {
    pref.Some? && pref.value in styles
  }

  /**
   * b/index.php's choice: the cookie, then the session, then 'yotsuba' if
   * available, then the first available style, then 'yotsuba'.
   */
  function IndexCurrentStyle(cookie: Option<string>, session: Option<string>, styles: seq<string>): (r: string)
    ensures r in styles || (styles == [] && r == DEFAULT_STYLE)
    ensures Usable(cookie, styles) ==> r == cookie.value
    ensures !Usable(cookie, styles) && Usable(session, styles) ==> r == session.value
    ensures !Usable(cookie, styles) && !Usable(session, styles)
            ==> r == (if DEFAULT_STYLE in styles || styles == [] then DEFAULT_STYLE else styles[0])
  {
    if Usable(cookie, styles) then cookie.value
    else if Usable(session, styles) then session.value
    else if DEFAULT_STYLE in styles then DEFAULT_STYLE
    else if styles != [] then styles[0]
    else DEFAULT_STYLE
  }

  /** b/catalogo.php's choice: as in b/index.php, but 'miku' is tried before the first available style. */
  function CatalogCurrentStyle(cookie: Option<string>, session: Option<string>, styles: seq<string>): (r: string)
    ensures r in styles || (styles == [] && r == DEFAULT_STYLE)
    ensures Usable(cookie, styles) ==> r == cookie.value
    ensures !Usable(cookie, styles) && Usable(session, styles) ==> r == session.value
    ensures !Usable(cookie, styles) && !Usable(session, styles)
            ==> r == (if DEFAULT_STYLE in styles || styles == [] then DEFAULT_STYLE
                      else if "miku" in styles then "miku" else styles[0])
  {
    if Usable(cookie, styles) then cookie.value
    else if Usable(session, styles) then session.value
    else if DEFAULT_STYLE in styles then DEFAULT_STYLE
    else if "miku" in styles then "miku"
    else if styles != [] then styles[0]
    else DEFAULT_STYLE
  }

  /** The two pages agree except when only the fallback differs: 'miku' is available and 'yotsuba' is not. */
  lemma CurrentStylesAgree(cookie: Option<string>, session: Option<string>, styles: seq<string>)
    ensures IndexCurrentStyle(cookie, session, styles) != CatalogCurrentStyle(cookie, session, styles)
            <==> !Usable(cookie, styles) && !Usable(session, styles)
                 && DEFAULT_STYLE !in styles && "miku" in styles && styles[0] != "miku"
  {
  }
}
