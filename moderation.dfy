/**
 * The moderator panel b/mod.php: its input sanitizers, the settings form,
 * the moderator's own posting form, the message editor and the moderation
 * actions. Every handler runs only for a signed-in moderator; anyone else
 * gets the login page and nothing changes.
 */
module Moderation {
  import opened Base
  import opened Php
  import opened Board
  import opened Public
  import Listing

  // ------------------------------------------------------------ sanitizers

  /**
   * sanitizeInt(): the value when FILTER_VALIDATE_INT accepts it inside
   * [lo, hi], otherwise `lo`.
   */
  function SanitizeInt(v: Option<string>, lo: int, hi: int): (r: int)
    ensures lo <= hi ==> lo <= r <= hi
    ensures ValidateInt(v, lo, hi).Some? ==> r == ValidateInt(v, lo, hi).value
    ensures ValidateInt(v, lo, hi).None? ==> r == lo
  {
    var x := ValidateInt(v, lo, hi);
    if x.Some? then x.value else lo
  }

  /** `sanitizeInt($_GET['id'] ?? 0)`: a missing parameter reads as 0. */
  function RequestId(v: Option<string>): (r: int)
    ensures 1 <= r <= PHP_INT_MAX
  {
    SanitizeInt(if v.None? then Some("0") else v, 1, PHP_INT_MAX)
  }

  /** An id written in decimal, as the panel's own links write it, reads back as itself. */
  lemma RequestIdRoundTrip(n: int)
    requires 1 <= n <= PHP_INT_MAX
    ensures RequestId(Some(NatToString(n))) == n
  {
    var s := NatToString(n);
    assert s[0] != '0';
    assert FilterTrimLeft(s) == s;
    assert FilterTrimRight(s) == s;
    assert CanonicalDigits(s);
    assert ValidateInt(Some(s), 1, PHP_INT_MAX) == Some(n);
  }

  /** A missing id, "0" and an id with a leading zero all fall back to 1. */
  lemma RequestIdFallsBack(v: Option<string>)
    requires v.Some? ==> |v.value| >= 1 && v.value[0] == '0' && AllDigits(v.value)
    ensures RequestId(v) == 1
  {
    var t := if v.None? then "0" else v.value;
    assert |t| >= 1 && t[0] == '0' && AllDigits(t);
    assert FilterTrimLeft(t) == t;
    assert FilterTrimRight(t) == t;
    if CanonicalDigits(t) {
      assert t == "0";
      assert DigitsValue(t) == DigitsValue([]) * 10 + 0;
    }
  }

  /**
   * sanitizeString(): trim, keep at most `maxLen` characters, and escape
   * HTML when asked.
   */
  function SanitizeString(value: string, maxLen: nat, escapeHtml: bool): (r: string)
    ensures escapeHtml ==> '<' !in r && '>' !in r && '"' !in r && '\'' !in r
    ensures escapeHtml ==> var d := HtmlDecode(r);
                           |d| == Min(maxLen, |Trim(value)|) && d == Trim(value)[..|d|]
    ensures !escapeHtml ==> |r| == Min(maxLen, |Trim(value)|) && r == Trim(value)[..|r|]
  {
    var v := Prefix(Trim(value), maxLen);
    if escapeHtml then HtmlSpecialChars(v) else v
  }

  /**
   * The message of a moderator post or edit: `sanitizeString(trim($body),
   * 5000, false)`, which is the trimmed text cut to 5000 characters since
   * trimming twice is trimming once.
   */
  function ModBody(body: Option<string>): (r: string)
    ensures |r| <= 5000
    ensures r == "" <==> Trim(OrEmpty(body)) == ""
  {
    Prefix(Trim(OrEmpty(body)), 5000)
  }

  /** ModBody() is sanitizeString() applied to the trimmed body. */
  lemma ModBodySanitized(body: Option<string>)
    ensures ModBody(body) == SanitizeString(Trim(OrEmpty(body)), 5000, false)
  {
    TrimIdempotent(OrEmpty(body));
  }

  /** The moderator's display name: escaped, at most 35 characters before escaping, "admin" when blank. */
  function ModName(name: Option<string>): (r: string)
    ensures r != ""
    ensures Trim(OrEmpty(name)) == "" ==> r == "admin"
    ensures '<' !in r && '>' !in r
  {
    var t := Trim(OrEmpty(name));
    var n := SanitizeString(t, 35, true);
    assert t == "" ==> n == "";
    if n == "" then AdminIsPlain(); "admin" else n
  }

  /** The fallback name "admin" holds no angle bracket. */
  lemma AdminIsPlain()
    ensures '<' !in "admin" && '>' !in "admin"
  {
    var d := "admin";
    assert forall i :: 0 <= i < |d| ==> 'a' <= d[i] <= 'z';
  }

  /** What the panel answers. */
  datatype Reply = LoginPage | Refused(why: Rejection) | Done

  // -------------------------------------------------------------- settings

  /** A checkbox of the settings form: '1' exactly when it was posted as '1'. */
  function FormFlag(v: Option<string>): (r: string)
    ensures r == "1" <==> v == Some("1")
    ensures r == "0" <==> v != Some("1")
  {
    if v == Some("1") then "1" else "0"
  }

  /** The settings after the form is saved. */
  function SavedSettings(settings: map<string, string>, approval: Option<string>, readonly: Option<string>)
    : map<string, string>
  {
    settings["approval_system" := FormFlag(approval)]["readonly_mode" := FormFlag(readonly)]
  }

  /**
   * What the form saves is what the public board then obeys: submissions
   * wait for approval exactly when the approval box was ticked, and every
   * submission with a valid token is refused as read-only exactly when the
   * read-only box was.
   */
  lemma SavedSettingsTakeEffect(settings: map<string, string>, approval: Option<string>, readonly: Option<string>,
                                req: Submission, lastPost: int, now: int, filters: WordFilter.Filters, posts: Posts)
    requires req.csrfOk
    ensures var s := SavedSettings(settings, approval, readonly);
            && (RequiresApproval(s) <==> approval == Some("1"))
            && (Gate(req, s, lastPost, now, filters, posts) == Fail(ReadOnly) <==> readonly == Some("1"))
  {
    var s := SavedSettings(settings, approval, readonly);
    assert GetSetting(s, "approval_system", "0") == FormFlag(approval);
    assert GetSetting(s, "readonly_mode", "0") == FormFlag(readonly);
    if readonly == Some("1") {
      ReadOnlyFirst(req, s, lastPost, now, filters, posts);
    }
  }

  /** The start-up of b/mod.php: both switches are created, off, when missing. */
  method SeedDefaults(db: Db)
    modifies db
    ensures db.settings.Keys == old(db.settings.Keys) + {"approval_system", "readonly_mode"}
    ensures forall k :: k in old(db.settings) ==> db.settings[k] == old(db.settings)[k]
    ensures "approval_system" !in old(db.settings) ==> db.settings["approval_system"] == "0"
    ensures "readonly_mode" !in old(db.settings) ==> db.settings["readonly_mode"] == "0"
    ensures db.posts == old(db.posts) && db.edges == old(db.edges) && db.nextId == old(db.nextId)
    ensures db.files == old(db.files)
  {
    db.SeedSetting("approval_system", "0");
    db.SeedSetting("readonly_mode", "0");
  }

  /** The settings form handler. */
  method SaveSettings(db: Db, canManage: bool, csrfOk: bool, approval: Option<string>, readonly: Option<string>)
    returns (r: Reply)
    modifies db
    ensures !canManage ==> r == LoginPage
    ensures canManage && !csrfOk ==> r == Refused(BadCsrf)
    ensures r != Done ==> db.settings == old(db.settings)
    ensures r == Done <==> canManage && csrfOk
    ensures r == Done ==> db.settings == SavedSettings(old(db.settings), approval, readonly)
    ensures db.posts == old(db.posts) && db.edges == old(db.edges) && db.nextId == old(db.nextId)
    ensures db.files == old(db.files)
  {
    if !canManage {
      return LoginPage;
    }
    if !csrfOk {
      return Refused(BadCsrf);
    }
    db.SaveSetting("approval_system", FormFlag(approval));
    db.SaveSetting("readonly_mode", FormFlag(readonly));
    r := Done;
  }

  // ---------------------------------------------------------- word filters

  /** The two buttons of the panel's word-filter section. */
  datatype FilterAction = AddWord | RemoveWord

  /**
   * The word-filter form handlers. A bad token is refused before the lists
   * are touched. Otherwise the type field is read by KindOf, the word is
   * trimmed for an add and taken as posted for a remove, and `result` is
   * what addWordFilter() or removeWordFilter() reports (shown as the flash
   * message after the redirect).
   */
  method FilterSubmit(store: WordFilter.FilterStore, canManage: bool, csrfOk: bool, action: FilterAction,
                      word: Option<string>, filterType: Option<string>, saved: bool)
    returns (r: Reply, result: Option<Outcome<WordFilter.FilterError>>)
    modifies store
    ensures !canManage ==> r == LoginPage
    ensures canManage && !csrfOk ==> r == Refused(BadCsrf)
    ensures r == Done <==> canManage && csrfOk
    ensures result.Some? <==> r == Done
    ensures r != Done || result != Some(Pass)
            ==> store.exact == old(store.exact) && store.contains == old(store.contains)
    ensures r == Done && action == AddWord ==>
              var w := Trim(OrEmpty(word));
              var k := WordFilter.KindOf(filterType);
              result.value == (if Empty(Some(w)) then Fail(WordFilter.EmptyWord)
                               else if w in old(store.List(k)) then Fail(WordFilter.DuplicateWord)
                               else if !saved then Fail(WordFilter.SaveFailed)
                               else Pass)
              && (result.value == Pass ==> store.List(k) == old(store.List(k)) + [w])
    ensures r == Done && action == RemoveWord ==>
              var k := WordFilter.KindOf(filterType);
              result.value == (if OrEmpty(word) in old(store.List(k)) && saved then Pass
                               else Fail(WordFilter.WordNotFound))
              && (result.value == Pass ==> store.List(k) == WordFilter.RemoveFirst(old(store.List(k)), OrEmpty(word)))
    ensures WordFilter.KindOf(filterType) == WordFilter.ExactWord ==> store.contains == old(store.contains)
    ensures WordFilter.KindOf(filterType) == WordFilter.Substring ==> store.exact == old(store.exact)
  {
    if !canManage {
      return LoginPage, None;
    }
    if !csrfOk {
      return Refused(BadCsrf), None;
    }
    var kind := WordFilter.KindOf(filterType);
    var outcome;
    if action == AddWord {
      var w := Trim(OrEmpty(word));
      TrimIdempotent(OrEmpty(word));
      outcome := store.Add(w, kind, saved);
    } else {
      outcome := store.Remove(OrEmpty(word), kind, saved);
    }
    return Done, Some(outcome);
  }

  // -------------------------------------------------------- moderator post

  /** The upload checks of the moderator form: type, size, then getimagesize() for images. */
  function ModCheckUpload(file: Option<Upload>): (r: Outcome<Rejection>)
    ensures r == Pass <==> CheckUpload(file) == Pass && (HasFile(file) && IsImageType(file.value.mime) ==> file.value.imageOk)
  {
    if CheckUpload(file).Fail? then CheckUpload(file)
    else if HasFile(file) && IsImageType(file.value.mime) && !file.value.imageOk then Fail(BadImage)
    else Pass
  }

  /** The thread a moderator reply goes to: `sanitizeInt($_POST['thread'])` when the field is not empty. */
  function ModReplyTarget(thread: Option<string>): (r: Option<int>)
    ensures r.Some? <==> !Empty(thread)
    ensures r.Some? ==> 1 <= r.value
    ensures r.Some? ==> r.value == SanitizeInt(thread, 1, PHP_INT_MAX)
  {
    if Empty(thread) then None else Some(SanitizeInt(thread, 1, PHP_INT_MAX))
  }

  /**
   * A thread id written as FILTER_VALIDATE_INT reads it (whitespace around
   * it, a '+' in front) names that thread.
   */
  lemma {:induction false} ModReplyTargetRoundTrip(ws1: string, x: string, ws2: string, n: int)
    requires AllFilterTrim(ws1) && AllFilterTrim(ws2) && Spells(x, n)
    requires 1 <= n <= PHP_INT_MAX
    ensures ModReplyTarget(Some(ws1 + x + ws2)) == Some(n)
  {
    SpelledNotEmpty(ws1, x, ws2, n);
    ValidateIntAccepts(ws1, x, ws2, n, 1, PHP_INT_MAX);
  }

  /** `SELECT locked FROM posts WHERE id = ? AND deleted = 0 AND is_reply = 0` finds a row (no approval test). */
  predicate OpenToModerator(posts: Posts, pid: int) {
    pid in posts && !posts[pid].deleted && !posts[pid].isReply
  }

  /** The checks of the moderator form, in the order the source runs them. */
  function ModGate(req: Submission, posts: Posts): Outcome<Rejection> {
    if !req.csrfOk then Fail(BadCsrf)
    else if ModBody(req.body) == "" then Fail(EmptyBody)
    else match ModReplyTarget(req.thread)
      case Some(pid) =>
        if !OpenToModerator(posts, pid) then Fail(ThreadMissing)
        else if posts[pid].locked == 1 then Fail(ThreadLocked)
        else ModCheckUpload(req.file)
      case None => ModCheckUpload(req.file)
  }

  /**
   * A moderator post gets through exactly when the token is valid, the
   * body is not blank, a reply's thread is live and unlocked (approved or
   * not), and the upload passes; unlike the public form there is no
   * read-only switch, cooldown or word filter.
   */
  lemma ModGatePassesIff(req: Submission, posts: Posts)
    ensures ModGate(req, posts) == Pass <==>
            && req.csrfOk
            && Trim(OrEmpty(req.body)) != ""
            && (!Empty(req.thread) ==> OpenToModerator(posts, SanitizeInt(req.thread, 1, PHP_INT_MAX))
                                       && posts[SanitizeInt(req.thread, 1, PHP_INT_MAX)].locked != 1)
            && ModCheckUpload(req.file) == Pass
  {
  }

  /**
   * A moderator may reply to a thread still awaiting approval, which the
   * public form refuses; a malformed thread field replies to thread 1.
   */
  lemma ModeratorReachesPending(req: Submission, posts: Posts)
    requires !Empty(req.thread) && ModReplyTarget(req.thread) == Some(IntCast(req.thread.value))
    requires OpenToModerator(posts, IntCast(req.thread.value)) && !posts[IntCast(req.thread.value)].approved
    ensures ModGate(req, posts) != Fail(ThreadMissing)
    ensures !OpenToPublic(posts, IntCast(req.thread.value))
    ensures req.csrfOk && ModBody(req.body) != "" && posts[IntCast(req.thread.value)].locked != 1
            ==> ModGate(req, posts) == ModCheckUpload(req.file)
  {
  }

  /** A non-empty thread field that is not a canonical positive id names thread 1. */
  lemma MalformedThreadIsOne(thread: string)
    requires !Empty(Some(thread)) && ValidateInt(Some(thread), 1, PHP_INT_MAX).None?
    ensures ModReplyTarget(Some(thread)) == Some(1)
  {
  }

  /** The row the moderator form inserts, before it gets its id. */
  function ModRow(req: Submission, now: int, parent: Option<int>): (p: Post)
    ensures RowShape(p)
    ensures p.approved && p.approvedAt == None && p.capcode == Some("admin") && p.password == None
    ensures p.isReply <==> parent.Some?
    ensures p.createdAt == now && p.updatedAt == now
    ensures !p.deleted && p.locked == 0 && p.sticky == 0
    ensures p.spoilered ==> HasFile(req.file)
  {
    var hasFile := HasFile(req.file);
    Post(
      id := 0,
      title := if parent.Some? then None else Some(SanitizeString(Trim(OrEmpty(req.subject)), 100, true)),
      message := ModBody(req.body),
      media := if hasFile then req.file.value.main else None,
      thumb := if hasFile then req.file.value.thumb else None,
      name := ModName(req.name),
      createdAt := now,
      updatedAt := now,
      deleted := false,
      ipHash := req.ipHash,
      spoilered := hasFile && req.spoiler == Some("on"),
      locked := 0,
      sticky := 0,
      password := None,
      capcode := Some("admin"),
      isReply := parent.Some?,
      parentId := parent,
      approved := true,
      approvedAt := None)
  }

  /** `posts` right after the INSERT of a moderator post that gets id `id`. */
  function ModInserted(posts: Posts, req: Submission, now: int, parent: Option<int>, id: int): Posts {
    posts[id := ModRow(req, now, parent).(id := id)]
  }

  /** `posts` once a moderator post is fully written: inserted, and a reply's thread bumped. */
  function ModPosted(posts: Posts, req: Submission, now: int, parent: Option<int>, id: int): Posts {
    Stored(posts, ModRow(req, now, parent), parent, now, id)
  }

  /**
   * A moderator post adds exactly one row, and it is public at once: live,
   * approved, signed as admin and without a deletion password, so a
   * moderator thread is listed on the index straight away.
   */
  lemma ModPostIsPublic(posts: Posts, req: Submission, now: int, parent: Option<int>, id: int)
    ensures var after := ModPosted(posts, req, now, parent, id);
            && after.Keys == posts.Keys + {id}
            && after[id].id == id && after[id].approved && !after[id].deleted
            && after[id].capcode == Some("admin") && after[id].password == None
            && (parent.None? ==> Listing.PublicThread(after[id]))
  {
    StoredSpec(posts, ModRow(req, now, parent), parent, now, id);
  }

  /** The checks of the moderator form, run in order against the current state; nothing is written. */
  method ModScreen(db: Db, req: Submission) returns (r: Outcome<Rejection>)
    ensures r == ModGate(req, db.posts)
  {
    if !req.csrfOk {
      return Fail(BadCsrf);
    }
    if ModBody(req.body) == "" {
      return Fail(EmptyBody);
    }
    var parent := ModReplyTarget(req.thread);
    if parent.Some? {
      var pid := parent.value;
      if !(pid in db.posts && !db.posts[pid].deleted && !db.posts[pid].isReply) {
        return Fail(ThreadMissing);
      }
      if db.posts[pid].locked == 1 {
        return Fail(ThreadLocked);
      }
    }
    r := ModCheckUpload(req.file);
  }

  /** The writes of an accepted moderator post: insert, register mentions, bump the thread. */
  method ModAccept(db: Db, req: Submission, now: int)
    requires db.Valid()
    requires var parent := ModReplyTarget(req.thread);
             parent.Some? ==> parent.value in db.posts && !db.posts[parent.value].isReply
    modifies db
    ensures db.Valid()
    ensures db.nextId == old(db.nextId) + 1
    ensures db.posts == ModPosted(old(db.posts), req, now, ModReplyTarget(req.thread), old(db.nextId))
    ensures db.edges == old(db.edges) + TextMentionEdges(ModBody(req.body), old(db.nextId),
                                                         ModInserted(old(db.posts), req, now, ModReplyTarget(req.thread), old(db.nextId)), now)
    ensures db.files == old(db.files) + FilesOf(ModRow(req, now, ModReplyTarget(req.thread)))
    ensures db.settings == old(db.settings)
  {
    var parent := ModReplyTarget(req.thread);
    var row := ModRow(req, now, parent);
    var id := db.Insert(row);
    ghost var inserted := db.posts;
    ghost var edges0 := db.edges;
    db.RegisterMentions(id, row.message, now);
    assert db.edges == edges0 + TextMentionEdges(row.message, id, inserted, now);
    if parent.Some? {
      db.Bump(parent.value, now);
    }
  }

  /**
   * The moderator form handler. On any rejection nothing changes;
   * otherwise one approved row is inserted, its mentions are registered
   * and a reply bumps its thread.
   */
  method ModPost(db: Db, canManage: bool, req: Submission, now: int) returns (r: Reply)
    requires db.Valid()
    modifies db
    ensures db.Valid()
    ensures !canManage ==> r == LoginPage
    ensures canManage && ModGate(req, old(db.posts)).Fail? ==> r == Refused(ModGate(req, old(db.posts)).error)
    ensures r == Done <==> canManage && ModGate(req, old(db.posts)) == Pass
    ensures r != Done ==> db.posts == old(db.posts) && db.edges == old(db.edges) && db.nextId == old(db.nextId)
                          && db.files == old(db.files)
    ensures r == Done ==> db.nextId == old(db.nextId) + 1
    ensures r == Done ==> db.posts == ModPosted(old(db.posts), req, now, ModReplyTarget(req.thread), old(db.nextId))
    ensures r == Done ==> db.edges == old(db.edges) + TextMentionEdges(ModBody(req.body), old(db.nextId),
                                                        ModInserted(old(db.posts), req, now, ModReplyTarget(req.thread), old(db.nextId)), now)
    ensures r == Done ==> db.files == old(db.files) + FilesOf(ModRow(req, now, ModReplyTarget(req.thread)))
    ensures db.settings == old(db.settings)
  {
    if !canManage {
      return LoginPage;
    }
    var gate := ModScreen(db, req);
    if gate.Fail? {
      return Refused(gate.error);
    }
    ModAccept(db, req, now);
    r := Done;
  }

  // ------------------------------------------------------------ editing

  /** `posts` after edit_submit: the message is replaced only when the new one is not blank. */
  function Edited(posts: Posts, message: Option<string>, idParam: Option<string>): Posts {
    var m := ModBody(message);
    var id := SanitizeInt(idParam, 1, PHP_INT_MAX);
    if |m| > 0 && id in posts then posts[id := posts[id].(message := m)] else posts
  }

  /**
   * An edit touches at most one row and only its message, which becomes
   * the trimmed new text cut to 5000 characters; a blank text changes
   * nothing, and editing again with the same text changes nothing more.
   */
  lemma EditedSpec(posts: Posts, message: Option<string>, idParam: Option<string>)
    ensures var after := Edited(posts, message, idParam);
            var id := SanitizeInt(idParam, 1, PHP_INT_MAX);
            && after.Keys == posts.Keys
            && (forall k :: k in posts && k != id ==> after[k] == posts[k])
            && (id in posts ==> after[id].(message := posts[id].message) == posts[id])
            && (Trim(OrEmpty(message)) == "" ==> after == posts)
            && (Trim(OrEmpty(message)) != "" && id in posts ==>
                  after[id].message == ModBody(message) && |after[id].message| <= 5000)
            && Edited(after, message, idParam) == after
  {
    var id := SanitizeInt(idParam, 1, PHP_INT_MAX);
    var m := ModBody(message);
    var after := Edited(posts, message, idParam);
    SetMessage(posts, id, m, after);
    assert Edited(after, message, idParam) == if |m| > 0 && id in after then after[id := after[id].(message := m)] else after;
  }

  /** Replacing one row's message by a non-empty text, and doing it again. */
  lemma SetMessage(posts: Posts, id: int, m: string, after: Posts)
    requires after == if |m| > 0 && id in posts then posts[id := posts[id].(message := m)] else posts
    ensures after.Keys == posts.Keys
    ensures forall k :: k in posts && k != id ==> after[k] == posts[k]
    ensures id in posts ==> after[id].(message := posts[id].message) == posts[id]
    ensures |m| == 0 ==> after == posts
    ensures |m| > 0 && id in posts ==> after[id].message == m
    ensures (if |m| > 0 && id in after then after[id := after[id].(message := m)] else after) == after
  {
    if |m| > 0 && id in posts {
      assert after[id].message == m;
      assert after[id := after[id].(message := m)] == after;
    }
  }

  /** The edit_submit handler. */
  method EditSubmit(db: Db, canManage: bool, csrfOk: bool, message: Option<string>, idParam: Option<string>)
    returns (r: Reply)
    requires db.Valid()
    modifies db
    ensures db.Valid()
    ensures !canManage ==> r == LoginPage
    ensures canManage && !csrfOk ==> r == Refused(BadCsrf)
    ensures r == Done <==> canManage && csrfOk
    ensures r == Done ==> db.posts == Edited(old(db.posts), message, idParam)
    ensures r != Done ==> db.posts == old(db.posts)
    ensures db.edges == old(db.edges) && db.nextId == old(db.nextId)
    ensures db.settings == old(db.settings) && db.files == old(db.files)
  {
    if !canManage {
      return LoginPage;
    }
    if !csrfOk {
      return Refused(BadCsrf);
    }
    var m := ModBody(message);
    if |m| > 0 {
      var id := SanitizeInt(idParam, 1, PHP_INT_MAX);
      db.SetMessage(id, m);
    }
    r := Done;
  }

  // ------------------------------------------------------------ actions

  /** `$destructiveActions`: the actions that need a valid `csrf` parameter. */
  const DESTRUCTIVE: seq<string> :=
    ["delete", "delete_reply", "delete_news", "lock", "sticky",
     "approve_post", "approve_reply", "reject_post", "reject_reply"]

  /** The tables after `DELETE FROM posts WHERE id = ?` (with its cascade) and the unlinking of `gone`. */
  function Purged(t: Tables, id: int, gone: set<string>): Tables {
    var rows := Cascade(t.posts, {id});
    t.(posts := Without(t.posts, rows), edges := EdgesWithout(t.edges, rows), files := t.files - gone)
  }

  /**
   * The tables after a moderation action on row `id`. approve_post and
   * approve_reply are the same UPDATE; reject_post and delete remove the
   * files of the row and of its replies; reject_reply and delete_reply
   * remove only the row's own files; lock and sticky flip their flag.
   * Any other action (edit forms, news) leaves the tables as they were.
   */
  function Acted(t: Tables, action: string, id: int, now: int): Tables {
    if action == "approve_post" || action == "approve_reply" then
      t.(posts := if id in t.posts then t.posts[id := Approved(t.posts[id], now)] else t.posts)
    else if action == "reject_post" || action == "delete" then Purged(t, id, FamilyFiles(t.posts, id))
    else if action == "reject_reply" || action == "delete_reply" then Purged(t, id, RowFiles(t.posts, id))
    else if action == "lock" then
      t.(posts := if id in t.posts then t.posts[id := LockToggled(t.posts[id])] else t.posts)
    else if action == "sticky" then
      t.(posts := if id in t.posts then t.posts[id := StickyToggled(t.posts[id])] else t.posts)
    else t
  }

  /** Every moderation action keeps the database invariants. */
  lemma ActedWellFormed(t: Tables, action: string, id: int, now: int)
    requires WellFormed(t.posts, t.edges, t.nextId)
    ensures var u := Acted(t, action, id, now);
            WellFormed(u.posts, u.edges, u.nextId) && u.settings == t.settings && u.nextId == t.nextId
  {
    if action == "reject_post" || action == "delete" || action == "reject_reply" || action == "delete_reply" {
      HardDeleteWellFormed(t.posts, t.edges, t.nextId, {id});
    } else if id in t.posts {
      var p := t.posts[id];
      if action == "approve_post" || action == "approve_reply" {
        RowUpdateWellFormed(t.posts, t.edges, t.nextId, Approved(p, now));
      } else if action == "lock" {
        RowUpdateWellFormed(t.posts, t.edges, t.nextId, LockToggled(p));
      } else if action == "sticky" {
        RowUpdateWellFormed(t.posts, t.edges, t.nextId, StickyToggled(p));
      }
    }
  }

  /** Rewriting a row in place, with the same id, parent and kind, keeps the invariants. */
  lemma RowUpdateWellFormed(posts: Posts, edges: seq<Edge>, nextId: int, row: Post)
    requires WellFormed(posts, edges, nextId)
    requires row.id in posts && row.parentId == posts[row.id].parentId && row.isReply == posts[row.id].isReply
    ensures WellFormed(posts[row.id := row], edges, nextId)
  {
    var u := posts[row.id := row];
    forall k | k in u && u[k].parentId.Some?
      ensures u[k].parentId.value in u && !u[u[k].parentId.value].isReply
    {
      assert u[k].parentId == posts[k].parentId;
      var q := posts[k].parentId.value;
      assert u[q].isReply == posts[q].isReply;
    }
  }

  /**
   * Rejecting or deleting a thread removes it with all its replies, the
   * mention edges that touch any of them and all their files, and leaves
   * every other row as it was. This removal is permanent, where the
   * public self-delete only marks the row deleted.
   */
  lemma PurgeThreadSpec(t: Tables, action: string, id: int, now: int)
    requires action == "reject_post" || action == "delete"
    ensures var u := Acted(t, action, id, now);
            && (forall k :: k in u.posts <==> k in t.posts && k !in Family(t.posts, id))
            && (forall k :: k in u.posts ==> u.posts[k] == t.posts[k])
            && id !in u.posts
            && (forall i :: 0 <= i < |u.edges| ==> u.edges[i].source !in Family(t.posts, id)
                                                   && u.edges[i].target !in Family(t.posts, id))
            && (forall k, f :: k in Family(t.posts, id) && f in FilesOf(t.posts[k]) ==> f !in u.files)
            && (forall f :: f in u.files <==> f in t.files && f !in FamilyFiles(t.posts, id))
  {
    CascadeIsFamily(t.posts, id);
    var u := Acted(t, action, id, now);
    forall i | 0 <= i < |u.edges|
      ensures u.edges[i].source !in Family(t.posts, id) && u.edges[i].target !in Family(t.posts, id)
    {
      assert Untouched(Cascade(t.posts, {id}), u.edges[i]);
    }
  }

  /**
   * On a reply, reject_reply and delete_reply remove exactly that row and
   * its own files. Given a thread id they still remove the thread's
   * replies (the cascade) but not the replies' files.
   */
  lemma PurgeReplySpec(t: Tables, action: string, id: int, now: int)
    requires WellFormed(t.posts, t.edges, t.nextId)
    requires action == "reject_reply" || action == "delete_reply"
    ensures var u := Acted(t, action, id, now);
            && (id in t.posts && t.posts[id].isReply ==> u.posts.Keys == t.posts.Keys - {id})
            && (forall k :: k in u.posts ==> u.posts[k] == t.posts[k])
            && (forall f :: f in u.files <==> f in t.files && f !in RowFiles(t.posts, id))
  {
    assert Acted(t, action, id, now) == Purged(t, id, RowFiles(t.posts, id));
    if id in t.posts && t.posts[id].isReply {
      ReplyCascade(t.posts, t.edges, t.nextId, id);
    }
  }

  /** Nothing hangs below a reply, so deleting one removes that row alone. */
  lemma ReplyCascade(posts: Posts, edges: seq<Edge>, nextId: int, id: int)
    requires WellFormed(posts, edges, nextId)
    requires id in posts && posts[id].isReply
    ensures Cascade(posts, {id}) == {id}
  {
    forall k | k in posts && posts[k].parentId.Some?
      ensures posts[k].parentId.value != id
    {
    }
  }

  /**
   * delete_reply on a thread leaves orphan files: a file that only a reply
   * of the thread names stays on disk though its row is gone.
   */
  lemma DeleteReplyOnThreadKeepsReplyFiles(t: Tables, id: int, reply: int, f: string, now: int)
    requires reply in t.posts && t.posts[reply].parentId == Some(id)
    requires f in FilesOf(t.posts[reply]) && f in t.files && f !in RowFiles(t.posts, id)
    ensures var u := Acted(t, "delete_reply", id, now);
            reply !in u.posts && f in u.files
  {
  }

  /** Locking or pinning twice restores the tables; approving twice re-stamps approved_at. */
  lemma ToggleActionsUndo(t: Tables, id: int, now: int, later: int)
    ensures Acted(Acted(t, "lock", id, now), "lock", id, later) == t
    ensures Acted(Acted(t, "sticky", id, now), "sticky", id, later) == t
    ensures id in t.posts ==> Acted(Acted(t, "approve_post", id, now), "approve_reply", id, later).posts[id].approvedAt
                              == Some(later)
  {
    if id in t.posts {
      ToggleInvolution(t.posts[id]);
      assert t.posts[id := LockToggled(t.posts[id])][id := LockToggled(LockToggled(t.posts[id]))] == t.posts;
      assert t.posts[id := StickyToggled(t.posts[id])][id := StickyToggled(StickyToggled(t.posts[id]))] == t.posts;
    }
  }

  /** Approving a live thread makes it public: listed on the index and open to replies. */
  lemma ApprovedThreadIsPublic(t: Tables, action: string, id: int, now: int)
    requires action == "approve_post" || action == "approve_reply"
    requires id in t.posts && !t.posts[id].deleted && !t.posts[id].isReply
    ensures var u := Acted(t, action, id, now);
            Listing.PublicThread(u.posts[id]) && OpenToPublic(u.posts, id) && u.posts[id].approvedAt == Some(now)
  {
  }

  /**
   * The action dispatcher: `$action` runs only when it is not empty (or
   * "0"); a destructive action first needs a valid `csrf` parameter.
   */
  function Dispatched(t: Tables, canManage: bool, csrfOk: bool, action: string, idParam: Option<string>, now: int)
    : (Reply, Tables)
  {
    if !canManage then (LoginPage, t)
    else if Falsy(action) then (Done, t)
    else if action in DESTRUCTIVE && !csrfOk then (Refused(BadCsrf), t)
    else (Done, Acted(t, action, RequestId(idParam), now))
  }

  /** A request without a valid token changes nothing, whatever action it names. */
  lemma ForgedRequestChangesNothing(t: Tables, action: string, idParam: Option<string>, now: int)
    ensures Dispatched(t, true, false, action, idParam, now).1 == t
  {
    if !Falsy(action) && action !in DESTRUCTIVE {
      assert action != "approve_post" && action != "approve_reply" && action != "reject_post" && action != "delete";
      assert action != "reject_reply" && action != "delete_reply" && action != "lock" && action != "sticky";
    }
  }

  /** The dispatcher, one SQL statement and its file removals at a time. */
  method Dispatch(db: Db, canManage: bool, csrfOk: bool, action: string, idParam: Option<string>, now: int)
    returns (r: Reply)
    requires db.Valid()
    modifies db
    ensures db.Valid()
    ensures (r, db.State()) == Dispatched(old(db.State()), canManage, csrfOk, action, idParam, now)
  {
    if !canManage {
      return LoginPage;
    }
    if Falsy(action) {
      return Done;
    }
    if action in DESTRUCTIVE && !csrfOk {
      return Refused(BadCsrf);
    }
    var id := RequestId(idParam);
    if action == "approve_post" || action == "approve_reply" {
      db.Approve(id, now);
    } else if action == "reject_post" || action == "delete" {
      db.RemoveFiles(FamilyFiles(db.posts, id));
      db.HardDelete({id});
    } else if action == "reject_reply" || action == "delete_reply" {
      db.RemoveFiles(RowFiles(db.posts, id));
      db.HardDelete({id});
    } else if action == "lock" {
      db.ToggleLock(id);
    } else if action == "sticky" {
      db.ToggleSticky(id);
    }
    r := Done;
  }
}
