/**
 * The per-session posting cooldown of b/index.php: checkAntiSpam(),
 * getAntiSpamRemainingTime() and the timestamp registerAntiSpam() leaves in
 * the session. A session that never posted holds 0.
 */
module AntiSpam {
  import opened Base
  import opened Php

  /** ANTI_SPAM_TIME: seconds a session must wait between two posts. */
  const ANTI_SPAM_TIME: int := 1

  /**
   * checkAntiSpam(): nothing when the session may post, otherwise the number
   * of seconds still to wait.
   */
  function CheckAntiSpam(lastPost: int, now: int): (wait: Option<int>)
    ensures wait.None? <==> lastPost <= 0 || now - lastPost >= ANTI_SPAM_TIME
    ensures wait.Some? ==> 0 < wait.value && now + wait.value == lastPost + ANTI_SPAM_TIME
  {
    if lastPost > 0 && now - lastPost < ANTI_SPAM_TIME then Some(ANTI_SPAM_TIME - (now - lastPost))
    else None
  }

  /** getAntiSpamRemainingTime(): the wait, or 0 when the session may post. */
  function RemainingTime(lastPost: int, now: int): (r: int)
    ensures r >= 0
  {
    if lastPost > 0 then
      var diff := now - lastPost;
      if diff < ANTI_SPAM_TIME then ANTI_SPAM_TIME - diff else 0
    else 0
  }

  /** The two functions agree: the remaining time is the wait checkAntiSpam reports, or 0. */
  lemma RemainingTimeAgrees(lastPost: int, now: int)
    ensures RemainingTime(lastPost, now) == 0 <==> CheckAntiSpam(lastPost, now).None?
    ensures CheckAntiSpam(lastPost, now).Some?
            ==> RemainingTime(lastPost, now) == CheckAntiSpam(lastPost, now).value
  {
  }

  /** The message shown to a session that posts too soon. */
  function WaitMessage(wait: int): (m: string)
    requires wait > 0
    ensures Contains(m, NatToString(wait))
  {
    var n := NatToString(wait);
    var m := "Aguarde mais " + n + " segundos antes de fazer um novo post.";
    assert m[13..13 + |n|] == n;
    assert OccursAt(m, n, 13);
    m
  }

  /**
   * Right after a post at time `t > 0` the session is held back for exactly
   * ANTI_SPAM_TIME seconds: a post at `t` is refused and one at
   * `t + ANTI_SPAM_TIME` or later passes.
   */
  lemma CooldownWindow(t: int, later: int)
    requires t > 0
    ensures CheckAntiSpam(t, t) == Some(ANTI_SPAM_TIME)
    ensures later >= t + ANTI_SPAM_TIME ==> CheckAntiSpam(t, later).None?
  {
  }
}
