/**
 * The public posting and self-deletion handlers of b/index.php.
 *
 * A submission passes a fixed chain of checks; the first that fails ends the
 * request with its message and nothing is written. A submission that passes
 * inserts one row, registers its quote links, bumps the thread it replies
 * to and starts the session's cooldown.
 */
module Public {
  import opened Base
  import opened Php
  import opened WordFilter
  import opened AntiSpam
  import opened Session
  import opened Board

  /** ALLOWED_FILE_TYPES. */
  const ALLOWED_FILE_TYPES: seq<string> :=
    ["image/jpeg", "image/png", "image/gif", "image/webp", "video/webm", "video/mp4"]

  /** MAX_UPLOAD_SIZE: 15 MiB. */
  const MAX_UPLOAD_SIZE: int := 15 * 1024 * 1024

  /**
   * The `file` field of the form. `mime` is what mime_content_type() reports,
   * `imageOk` whether getimagesize() accepts it, `animatedGif` whether
   * isAnimatedGif() holds (an original name ending in ".gif" and more than
   * one graphic control block), and `main`/`thumb` the paths the image or
   * video processing produces for it.
   */
  datatype Upload = Upload(
    tmpName: string,
    size: int,
    mime: string,
    imageOk: bool,
    animatedGif: bool,
    main: Option<string>,
    thumb: Option<string>)

  /** A POST to b/index.php without an `action` field. */
  datatype Submission = Submission(
    csrfOk: bool,
    name: Option<string>,
    body: Option<string>,
    subject: Option<string>,
    thread: Option<string>,
    password: Option<string>,
    spoiler: Option<string>,
    file: Option<Upload>,
    ipHash: string,
    passwordHash: string)

  /** Why a request was turned away (the handleError() calls). */
  datatype Rejection =
    | BadCsrf
    | ReadOnly
    | EmptyBody
    | TooSoon(wait: int)
    | Blocked(word: string)
    | ThreadMissing
    | ThreadLocked
    | BadFileType(mime: string)
    | FileTooLarge
    | BadImage
    | InvalidId
    | MissingPassword
    | PostNotFound
    | NoPassword
    | WrongPassword

  /** `$_POST[k] ?? ''`. */
  function OrEmpty(v: Option<string>): string {
    if v.Some? then v.value else ""
  }

  /** `!empty($_FILES['file']['tmp_name']) && $_FILES['file']['size'] > 0`. */
  predicate HasFile(file: Option<Upload>) {
    file.Some? && !Empty(Some(file.value.tmpName)) && file.value.size > 0
  }

  /** The type and size checks on an upload (none when no file was sent). */
  function CheckUpload(file: Option<Upload>): (r: Outcome<Rejection>)
    ensures r == Pass <==> !HasFile(file) || (file.value.mime in ALLOWED_FILE_TYPES && file.value.size <= MAX_UPLOAD_SIZE)
  {
    if !HasFile(file) then Pass
    else if file.value.mime !in ALLOWED_FILE_TYPES then Fail(BadFileType(file.value.mime))
    else if file.value.size > MAX_UPLOAD_SIZE then Fail(FileTooLarge)
    else Pass
  }

  /** `str_starts_with($type, 'image/')`. */
  predicate IsImageType(mime: string) {
    |mime| >= 6 && mime[..6] == "image/"
  }

  /**
   * The upload checks followed by processAndOptimizeImage()'s refusal: an
   * image that is not an animated GIF is re-encoded, and one getimagesize()
   * rejects ends the request.
   */
  function ImageCheck(file: Option<Upload>): (r: Outcome<Rejection>)
    ensures r == Pass <==> CheckUpload(file) == Pass
                           && (HasFile(file) && IsImageType(file.value.mime) && !file.value.animatedGif
                               ==> file.value.imageOk)
    ensures r == Fail(BadImage) <==> CheckUpload(file) == Pass && HasFile(file) && IsImageType(file.value.mime)
                                     && !file.value.animatedGif && !file.value.imageOk
  {
    if CheckUpload(file).Fail? then CheckUpload(file)
    else if HasFile(file) && IsImageType(file.value.mime) && !file.value.animatedGif && !file.value.imageOk
    then Fail(BadImage)
    else Pass
  }

  /** The thread a submission replies to: `(int)$_POST['thread']` when the field is not empty. */
  function ReplyTarget(thread: Option<string>): (r: Option<int>)
    ensures r.Some? <==> !Empty(thread)
    ensures r.Some? ==> r.value == IntCast(thread.value)
  {
    if Empty(thread) then None else Some(IntCast(thread.value))
  }

  /** The thread id the reply form writes in decimal names that thread. */
  lemma {:induction false} ReplyTargetRoundTrip(n: int)
    requires n != 0 && PHP_INT_MIN <= n <= PHP_INT_MAX
    ensures ReplyTarget(Some(IntToString(n))) == Some(n)
  {
    SpelledNotEmpty([], IntToString(n), [], n);
    assert [] + IntToString(n) + [] == IntToString(n);
    IntCastRoundTrip(n);
  }

  /** `SELECT locked FROM posts WHERE id = ? AND deleted = 0 AND is_reply = 0 AND approved = 1` finds a row. */
  predicate OpenToPublic(posts: Posts, pid: int) {
    pid in posts && !posts[pid].deleted && !posts[pid].isReply && posts[pid].approved
  }

  /** `$requires_approval`: approval_system is exactly '1'. */
  predicate RequiresApproval(settings: map<string, string>) {
    GetSetting(settings, "approval_system", "0") == "1"
  }

  /** The checks of the submission handler, in the order the source runs them. */
  function Gate(req: Submission, settings: map<string, string>, lastPost: int, now: int,
                filters: Filters, posts: Posts): Outcome<Rejection>
  {
    var body := Trim(OrEmpty(req.body));
    if !req.csrfOk then Fail(BadCsrf)
    else if GetSetting(settings, "readonly_mode", "0") == "1" then Fail(ReadOnly)
    else if body == "" then Fail(EmptyBody)
    else if CheckAntiSpam(lastPost, now).Some? then Fail(TooSoon(CheckAntiSpam(lastPost, now).value))
    else if BlockedWord(body, filters).Some? then Fail(Blocked(BlockedWord(body, filters).value))
    else match ReplyTarget(req.thread)
      case Some(pid) =>
        if !OpenToPublic(posts, pid) then Fail(ThreadMissing)
        else if posts[pid].locked == 1 then Fail(ThreadLocked)
        else ImageCheck(req.file)
      case None => ImageCheck(req.file)
  }

  /**
   * A submission gets through exactly when the token is valid, the board is
   * not read-only, the trimmed body is not empty, the cooldown is over, no
   * filter matches, a reply's thread is live, approved and unlocked, and the
   * upload (if any) has an allowed type and size and, unless it is an
   * animated GIF, is an image getimagesize() reads when its type says image.
   */
  lemma GatePassesIff(req: Submission, settings: map<string, string>, lastPost: int, now: int,
                      filters: Filters, posts: Posts)
    ensures Gate(req, settings, lastPost, now, filters, posts) == Pass <==>
            && req.csrfOk
            && GetSetting(settings, "readonly_mode", "0") != "1"
            && Trim(OrEmpty(req.body)) != ""
            && (lastPost <= 0 || now - lastPost >= ANTI_SPAM_TIME)
            && BlockedWord(Trim(OrEmpty(req.body)), filters) == None
            && (!Empty(req.thread) ==> OpenToPublic(posts, IntCast(req.thread.value))
                                       && posts[IntCast(req.thread.value)].locked != 1)
            && (!HasFile(req.file) || (req.file.value.mime in ALLOWED_FILE_TYPES
                                       && req.file.value.size <= MAX_UPLOAD_SIZE))
            && (HasFile(req.file) && IsImageType(req.file.value.mime) && !req.file.value.animatedGif
                ==> req.file.value.imageOk)
  {
  }

  /**
   * A read-only board refuses every submission with a valid token before
   * looking at its body, its timing or its words.
   */
  lemma ReadOnlyFirst(req: Submission, settings: map<string, string>, lastPost: int, now: int,
                      filters: Filters, posts: Posts)
    requires req.csrfOk && GetSetting(settings, "readonly_mode", "0") == "1"
    ensures Gate(req, settings, lastPost, now, filters, posts) == Fail(ReadOnly)
  {
  }

  /** A filtered word is reported only for a submission that is otherwise on time. */
  lemma BlockedOnlyAfterCooldown(req: Submission, settings: map<string, string>, lastPost: int, now: int,
                                 filters: Filters, posts: Posts, w: string)
    requires Gate(req, settings, lastPost, now, filters, posts) == Fail(Blocked(w))
    ensures CheckAntiSpam(lastPost, now).None? && Trim(OrEmpty(req.body)) != ""
    ensures BlockedWord(Trim(OrEmpty(req.body)), filters) == Some(w)
  {
  }

  /** `trim($_POST['name'] ?? '') ?: 'Anônimo'`. */
  function PosterName(name: Option<string>): (r: string)
    ensures !Falsy(r)
    ensures Falsy(Trim(OrEmpty(name))) ==> r == "Anônimo"
    ensures !Falsy(Trim(OrEmpty(name))) ==> r == Trim(OrEmpty(name))
  {
    var n := Trim(OrEmpty(name));
    if Falsy(n) then "Anônimo" else n
  }

  /** The row the handler inserts, before it gets its id. */
  function NewRow(req: Submission, settings: map<string, string>, now: int, parent: Option<int>): (p: Post)
    ensures RowShape(p)
    ensures p.approved <==> !RequiresApproval(settings)
    ensures p.isReply <==> parent.Some?
    ensures p.message == Trim(OrEmpty(req.body))
    ensures p.createdAt == now && p.updatedAt == now && p.approvedAt == None
    ensures !p.deleted && p.locked == 0 && p.sticky == 0 && p.capcode == None
    ensures p.spoilered ==> HasFile(req.file)
    ensures p.password.Some? <==> !Empty(Some(Trim(OrEmpty(req.password))))
  {
    var hasFile := HasFile(req.file);
    var pw := Trim(OrEmpty(req.password));
    Post(
      id := 0,
      title := if parent.Some? then None else Some(Trim(OrEmpty(req.subject))),
      message := Trim(OrEmpty(req.body)),
      media := if hasFile then req.file.value.main else None,
      thumb := if hasFile then req.file.value.thumb else None,
      name := PosterName(req.name),
      createdAt := now,
      updatedAt := now,
      deleted := false,
      ipHash := req.ipHash,
      spoilered := hasFile && req.spoiler == Some("on"),
      locked := 0,
      sticky := 0,
      password := if Empty(Some(pw)) then None else Some(req.passwordHash),
      capcode := None,
      isReply := parent.Some?,
      parentId := parent,
      approved := !RequiresApproval(settings),
      approvedAt := None)
  }

  /** `posts` after `UPDATE posts SET updated_at = now WHERE id = pid`. */
  function Touched(posts: Posts, pid: int, now: int): Posts {
    if pid in posts then posts[pid := posts[pid].(updatedAt := now)] else posts
  }

  /** `posts` right after the INSERT of an accepted submission that gets id `id`. */
  function Inserted(posts: Posts, req: Submission, settings: map<string, string>, now: int, id: int): Posts {
    posts[id := NewRow(req, settings, now, ReplyTarget(req.thread)).(id := id)]
  }

  /** `posts` once `row` is inserted under `id` and, for a reply, its thread is bumped. */
  function Stored(posts: Posts, row: Post, parent: Option<int>, now: int, id: int): Posts {
    var inserted := posts[id := row.(id := id)];
    match parent
    case Some(pid) => Touched(inserted, pid, now)
    case None => inserted
  }

  /**
   * Storing a new post adds exactly one row, holding the given row under
   * its id (with a fresh updated_at at most); of the existing rows only the
   * thread replied to changes, and only its updated_at.
   */
  lemma StoredSpec(posts: Posts, row: Post, parent: Option<int>, now: int, id: int)
    ensures var after := Stored(posts, row, parent, now, id);
            && after.Keys == posts.Keys + {id}
            && (after[id] == row.(id := id) || after[id] == row.(id := id, updatedAt := now))
            && (id !in posts ==> forall k :: k in posts ==>
                  after[k] == if parent == Some(k) then posts[k].(updatedAt := now) else posts[k])
  {
    var inserted := posts[id := row.(id := id)];
    assert inserted.Keys == posts.Keys + {id};
    if parent.Some? {
      assert Stored(posts, row, parent, now, id) == Touched(inserted, parent.value, now);
    }
  }

  /** `posts` once an accepted submission is fully written: inserted, and a reply's thread bumped. */
  function Accepted(posts: Posts, req: Submission, settings: map<string, string>, now: int, id: int): Posts {
    var parent := ReplyTarget(req.thread);
    Stored(posts, NewRow(req, settings, now, parent), parent, now, id)
  }

  /** The checks of the submission handler, run in order against the current state; nothing is written. */
  method Screen(db: Db, visitor: Visitor, filters: Filters, req: Submission, now: int)
    returns (r: Outcome<Rejection>)
    ensures r == Gate(req, db.settings, visitor.lastPostTime, now, filters, db.posts)
  {
    if !req.csrfOk {
      return Fail(BadCsrf);
    }
    if GetSetting(db.settings, "readonly_mode", "0") == "1" {
      return Fail(ReadOnly);
    }
    var body := Trim(OrEmpty(req.body));
    if body == "" {
      return Fail(EmptyBody);
    }
    var spam := CheckAntiSpam(visitor.lastPostTime, now);
    if spam.Some? {
      return Fail(TooSoon(spam.value));
    }
    var blocked := CheckWordFilters(body, filters);
    if blocked.Some? {
      return Fail(Blocked(blocked.value));
    }
    var parent := ReplyTarget(req.thread);
    if parent.Some? {
      var pid := parent.value;
      if !(pid in db.posts && !db.posts[pid].deleted && !db.posts[pid].isReply && db.posts[pid].approved) {
        return Fail(ThreadMissing);
      }
      if db.posts[pid].locked == 1 {
        return Fail(ThreadLocked);
      }
    }
    r := ImageCheck(req.file);
  }

  /** The table writes of an accepted submission: insert, register mentions, bump the thread. */
  method Store(db: Db, req: Submission, now: int)
    requires db.Valid()
    requires var parent := ReplyTarget(req.thread);
             parent.Some? ==> parent.value in db.posts && !db.posts[parent.value].isReply
    modifies db
    ensures db.Valid()
    ensures db.nextId == old(db.nextId) + 1
    ensures db.posts == Accepted(old(db.posts), req, old(db.settings), now, old(db.nextId))
    ensures db.edges == old(db.edges) + TextMentionEdges(Trim(OrEmpty(req.body)), old(db.nextId),
                                                         Inserted(old(db.posts), req, old(db.settings), now, old(db.nextId)), now)
    ensures db.files == old(db.files) + FilesOf(NewRow(req, old(db.settings), now, ReplyTarget(req.thread)))
    ensures db.settings == old(db.settings)
  {
    var parent := ReplyTarget(req.thread);
    var row := NewRow(req, db.settings, now, parent);
    var id := db.Insert(row);
    ghost var inserted := db.posts;
    assert inserted == Inserted(old(db.posts), req, old(db.settings), now, id);
    ghost var edges0 := db.edges;
    db.RegisterMentions(id, row.message, now);
    assert db.edges == edges0 + TextMentionEdges(row.message, id, inserted, now);
    if parent.Some? {
      db.Bump(parent.value, now);
      assert db.posts == Touched(inserted, parent.value, now);
    }
    assert db.posts == Stored(old(db.posts), row, parent, now, id);
  }

  /** The writes of an accepted submission: the table writes, then the cooldown restarts. */
  method Accept(db: Db, visitor: Visitor, req: Submission, now: int)
    requires db.Valid()
    requires var parent := ReplyTarget(req.thread);
             parent.Some? ==> parent.value in db.posts && !db.posts[parent.value].isReply
    modifies db, visitor
    ensures db.Valid()
    ensures db.nextId == old(db.nextId) + 1
    ensures db.posts == Accepted(old(db.posts), req, old(db.settings), now, old(db.nextId))
    ensures db.edges == old(db.edges) + TextMentionEdges(Trim(OrEmpty(req.body)), old(db.nextId),
                                                         Inserted(old(db.posts), req, old(db.settings), now, old(db.nextId)), now)
    ensures db.files == old(db.files) + FilesOf(NewRow(req, old(db.settings), now, ReplyTarget(req.thread)))
    ensures visitor.lastPostTime == now
    ensures db.settings == old(db.settings)
    ensures visitor.sessionStyle == old(visitor.sessionStyle) && visitor.cookieStyle == old(visitor.cookieStyle)
  {
    Store(db, req, now);
    visitor.RegisterAntiSpam(now);
  }

  /** A submission that passes the checks replies, if at all, to a live public thread. */
  lemma GatePassOpensThread(req: Submission, settings: map<string, string>, lastPost: int, now: int,
                            filters: Filters, posts: Posts)
    requires Gate(req, settings, lastPost, now, filters, posts) == Pass
    ensures var parent := ReplyTarget(req.thread);
            parent.Some? ==> OpenToPublic(posts, parent.value)
  {
  }

  /**
   * The submission handler. On any rejection nothing changes; otherwise one
   * row is inserted, its mentions are registered, a reply bumps its thread
   * (even while the reply waits for approval), and the cooldown restarts.
   */
  method Submit(db: Db, visitor: Visitor, filters: Filters, req: Submission, now: int)
    returns (r: Outcome<Rejection>)
    requires db.Valid()
    modifies db, visitor
    ensures db.Valid()
    ensures r == Gate(req, old(db.settings), old(visitor.lastPostTime), now, filters, old(db.posts))
    ensures r.Fail? ==> db.posts == old(db.posts) && db.edges == old(db.edges) && db.nextId == old(db.nextId)
                        && db.files == old(db.files) && visitor.lastPostTime == old(visitor.lastPostTime)
    ensures r == Pass ==> db.nextId == old(db.nextId) + 1
    ensures r == Pass ==> db.posts == Accepted(old(db.posts), req, old(db.settings), now, old(db.nextId))
    ensures r == Pass ==> db.edges == old(db.edges) + TextMentionEdges(Trim(OrEmpty(req.body)), old(db.nextId),
                                                         Inserted(old(db.posts), req, old(db.settings), now, old(db.nextId)), now)
    ensures r == Pass ==> db.files == old(db.files) + FilesOf(NewRow(req, old(db.settings), now, ReplyTarget(req.thread)))
    ensures r == Pass ==> visitor.lastPostTime == now
    ensures db.settings == old(db.settings)
    ensures visitor.sessionStyle == old(visitor.sessionStyle) && visitor.cookieStyle == old(visitor.cookieStyle)
  {
    r := Screen(db, visitor, filters, req, now);
    if r == Pass {
      GatePassOpensThread(req, db.settings, visitor.lastPostTime, now, filters, db.posts);
      Accept(db, visitor, req, now);
    }
  }

  /**
   * An accepted thread adds its row and leaves every existing row as it
   * was; an accepted reply adds its row and changes one existing row, its
   * thread, and only that row's updated_at.
   */
  lemma AcceptedChangesOnly(posts: Posts, req: Submission, settings: map<string, string>, now: int, id: int, k: int)
    requires id !in posts && k in posts
    ensures var after := Accepted(posts, req, settings, now, id);
            && id in after && after[id].id == id && after[id].message == Trim(OrEmpty(req.body))
            && k in after
            && (Empty(req.thread) ==> after[k] == posts[k])
            && (!Empty(req.thread) && k != IntCast(req.thread.value) ==> after[k] == posts[k])
            && (!Empty(req.thread) && k == IntCast(req.thread.value) ==> after[k] == posts[k].(updatedAt := now))
    ensures Accepted(posts, req, settings, now, id).Keys == posts.Keys + {id}
  {
    var parent := ReplyTarget(req.thread);
    var row := NewRow(req, settings, now, parent);
    StoredSpec(posts, row, parent, now, id);
    var after := Accepted(posts, req, settings, now, id);
    assert after[id].message == row.message;
  }

  // -------------------------------------------------------- self-deletion

  /** deletePost()'s checks on the stored row; `verify` stands for password_verify(). */
  function DeleteCheck(posts: Posts, id: int, password: string, verify: (string, string) -> bool): (r: Outcome<Rejection>)
    ensures r == Pass <==> id in posts && !Empty(posts[id].password) && verify(password, posts[id].password.value)
  {
    if id !in posts then Fail(PostNotFound)
    else if Empty(posts[id].password) then Fail(NoPassword)
    else if !verify(password, posts[id].password.value) then Fail(WrongPassword)
    else Pass
  }

  /** The table and the files after a successful self-deletion of `id`. */
  function SelfDeleted(posts: Posts, files: set<string>, id: int): (Posts, set<string>)
    requires id in posts
  {
    (posts[id := posts[id].(deleted := true)], files - FilesOf(posts[id]))
  }

  /**
   * Self-deletion is idempotent, and it hides only the row itself: its
   * replies stay as they were.
   */
  lemma SelfDeleteIdempotent(posts: Posts, files: set<string>, id: int)
    requires id in posts
    ensures var (p1, f1) := SelfDeleted(posts, files, id);
            SelfDeleted(p1, f1, id) == (p1, f1)
    ensures forall k :: k in posts && k != id ==> SelfDeleted(posts, files, id).0[k] == posts[k]
  {
    var (p1, f1) := SelfDeleted(posts, files, id);
    assert FilesOf(p1[id]) == FilesOf(posts[id]);
    assert f1 - FilesOf(p1[id]) == f1;
    assert p1[id := p1[id].(deleted := true)] == p1;
  }

  /** deletePost(): check the row, remove its own files, then mark it deleted. */
  method DeletePost(db: Db, id: int, password: string, verify: (string, string) -> bool)
    returns (r: Outcome<Rejection>)
    requires db.Valid()
    modifies db
    ensures db.Valid()
    ensures r == DeleteCheck(old(db.posts), id, password, verify)
    ensures r.Fail? ==> db.posts == old(db.posts) && db.files == old(db.files)
    ensures r == Pass ==> (db.posts, db.files) == SelfDeleted(old(db.posts), old(db.files), id)
    ensures db.edges == old(db.edges) && db.nextId == old(db.nextId) && db.settings == old(db.settings)
  {
    r := DeleteCheck(db.posts, id, password, verify);
    if r == Pass {
      db.RemoveFiles(FilesOf(db.posts[id]));
      db.MarkDeleted(id);
    }
  }

  /** The POST with action=delete: the request checks, then deletePost(). */
  method DeleteHandler(db: Db, csrfOk: bool, postId: Option<string>, password: Option<string>,
                       verify: (string, string) -> bool)
    returns (r: Outcome<Rejection>)
    requires db.Valid()
    modifies db
    ensures db.Valid()
    ensures !csrfOk ==> r == Fail(BadCsrf)
    ensures csrfOk && IntCast(OrEmpty(postId)) <= 0 ==> r == Fail(InvalidId)
    ensures csrfOk && IntCast(OrEmpty(postId)) > 0 && Empty(password) ==> r == Fail(MissingPassword)
    ensures csrfOk && IntCast(OrEmpty(postId)) > 0 && !Empty(password)
            ==> r == DeleteCheck(old(db.posts), IntCast(OrEmpty(postId)), password.value, verify)
    ensures r.Fail? ==> db.posts == old(db.posts) && db.files == old(db.files)
    ensures r == Pass ==> (db.posts, db.files) == SelfDeleted(old(db.posts), old(db.files), IntCast(OrEmpty(postId)))
    ensures db.edges == old(db.edges) && db.nextId == old(db.nextId) && db.settings == old(db.settings)
  {
    if !csrfOk {
      return Fail(BadCsrf);
    }
    var id := IntCast(OrEmpty(postId));
    if id <= 0 {
      return Fail(InvalidId);
    }
    if Empty(password) {
      return Fail(MissingPassword);
    }
    r := DeletePost(db, id, password.value, verify);
  }
}
