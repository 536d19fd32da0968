/**
 * The catalog: the full page b/catalogo.php and the AJAX fragment
 * b/get_catalog.php. Both pick at most 150 threads and show, for each, a
 * picture, a post and image count and the first 120 characters of the
 * text; they differ in which threads and replies they count and in order.
 */
module Catalog {
  import opened Base
  import opened Php
  import opened Board
  import opened Listing
  import Ordering

  /** `LIMIT 150` of both catalog queries. */
  const CATALOG_LIMIT: nat := 150
  /** formatCatalogText()'s `$maxLength`. */
  const CATALOG_TEXT_MAX: nat := 120
  const THUMB_DIR: string := "uploads/thumbs/"
  /** USE_WEBP of b/catalogo.php and b/index.php. */
  const USE_WEBP: bool := true

  // ------------------------------------------------------------ selection

  /** A catalog row: the thread and the two sub-query counts. */
  datatype Entry = Entry(thread: Post, replyCount: nat, imageCount: nat)

  /** `r.parent_id = p.id AND r.deleted = 0 AND r.is_reply = 1`, plus `r.approved = 1` in get_catalog. */
  predicate CountedReply(thread: int, approvedOnly: bool, r: Post) {
    r.parentId == Some(thread) && !r.deleted && r.isReply && (approvedOnly ==> r.approved)
  }

  /** `media IS NOT NULL AND media != ''`. */
  predicate WithImage(r: Post) {
    r.media.Some? && r.media.value != ""
  }

  predicate CountedImage(thread: int, approvedOnly: bool, r: Post) {
    CountedReply(thread, approvedOnly, r) && WithImage(r)
  }

  /** The row of `p` with its reply_count and image_count. */
  function EntryOf(table: seq<Post>, approvedOnly: bool, p: Post): Entry {
    Entry(p, Count(table, r => CountedReply(p.id, approvedOnly, r)),
          Count(table, r => CountedImage(p.id, approvedOnly, r)))
  }

  /** `ORDER BY p.updated_at DESC` (b/catalogo.php ignores sticky). */
  function UpdatedKey(p: Post): Ordering.Key {
    Ordering.Key(p.updatedAt, 0)
  }

  /**
   * b/catalogo.php's query: live threads, approved or not, most recently
   * bumped first, at most 150; every reply that is not deleted is counted.
   */
  function CatalogoEntries(posts: Posts, nextId: int): seq<Entry> {
    var table := Table(posts, nextId);
    var threads := Ordering.SortDesc(Filter(table, LiveThread), UpdatedKey);
    Entries(table, false, Window(threads, 0, CATALOG_LIMIT))
  }

  /**
   * b/get_catalog.php's query: live approved threads, stickies first, then
   * most recently bumped, at most 150; only approved replies are counted.
   */
  function AjaxEntries(posts: Posts, nextId: int): seq<Entry> {
    var table := Table(posts, nextId);
    Entries(table, true, Window(PublicThreads(posts, nextId), 0, CATALOG_LIMIT))
  }

  /** The catalog rows of the selected threads, in their order. */
  function Entries(table: seq<Post>, approvedOnly: bool, threads: seq<Post>): seq<Entry> {
    Map(threads, p => EntryOf(table, approvedOnly, p))
  }

  /**
   * Each row belongs to the thread at its position and counts no more
   * images than replies; counting only approved replies counts no more
   * than counting them all.
   */
  lemma EntriesSpec(table: seq<Post>, approvedOnly: bool, threads: seq<Post>)
    ensures var r := Entries(table, approvedOnly, threads);
            && |r| == |threads|
            && (forall i :: 0 <= i < |r| ==> r[i].thread == threads[i] && r[i].imageCount <= r[i].replyCount)
            && (forall i :: 0 <= i < |r| ==> r[i].replyCount <= EntryOf(table, false, threads[i]).replyCount)
  {
    var r := Entries(table, approvedOnly, threads);
    forall i | 0 <= i < |r|
      ensures r[i].thread == threads[i] && r[i].imageCount <= r[i].replyCount
      ensures r[i].replyCount <= EntryOf(table, false, threads[i]).replyCount
    {
      assert r[i] == EntryOf(table, approvedOnly, threads[i]);
      ImagesAmongReplies(table, approvedOnly, threads[i]);
      ApprovedCountsSmaller(table, threads[i]);
    }
  }

  /** A thread never has more counted images than counted replies. */
  lemma ImagesAmongReplies(table: seq<Post>, approvedOnly: bool, p: Post)
    ensures EntryOf(table, approvedOnly, p).imageCount <= EntryOf(table, approvedOnly, p).replyCount
  {
    CountWeaker(table, r => CountedImage(p.id, approvedOnly, r), r => CountedReply(p.id, approvedOnly, r));
  }

  /** get_catalog counts no more replies or images than catalogo does for the same thread. */
  lemma ApprovedCountsSmaller(table: seq<Post>, p: Post)
    ensures EntryOf(table, true, p).replyCount <= EntryOf(table, false, p).replyCount
    ensures EntryOf(table, true, p).imageCount <= EntryOf(table, false, p).imageCount
  {
    CountWeaker(table, r => CountedReply(p.id, true, r), r => CountedReply(p.id, false, r));
    CountWeaker(table, r => CountedImage(p.id, true, r), r => CountedImage(p.id, false, r));
  }

  lemma LiveThreadsMembers(posts: Posts, edges: seq<Edge>, nextId: int, x: Post)
    requires WellFormed(posts, edges, nextId)
    ensures x in Ordering.SortDesc(Filter(Table(posts, nextId), LiveThread), UpdatedKey)
            <==> x.id in posts && posts[x.id] == x && LiveThread(x)
  {
    var fl := Filter(Table(posts, nextId), LiveThread);
    Ordering.SortDescMembers(fl, UpdatedKey, x);
    TableMembers(posts, edges, nextId, x);
    if x.id in posts && posts[x.id] == x && LiveThread(x) {
      var i :| 0 <= i < |Table(posts, nextId)| && Table(posts, nextId)[i] == x;
    }
  }

  /** The live threads in b/catalogo.php's order. */
  function CatalogoOrder(posts: Posts, nextId: int): seq<Post> {
    Ordering.SortDesc(Filter(Table(posts, nextId), LiveThread), UpdatedKey)
  }

  /**
   * b/catalogo.php shows at most 150 stored live threads, approved or not,
   * most recently bumped first, each with no more images than replies.
   */
  lemma CatalogoSpec(posts: Posts, edges: seq<Edge>, nextId: int)
    requires WellFormed(posts, edges, nextId)
    ensures var r := CatalogoEntries(posts, nextId);
            && |r| <= CATALOG_LIMIT
            && (forall i :: 0 <= i < |r| ==> var t := r[i].thread;
                  t.id in posts && posts[t.id] == t && LiveThread(t) && r[i].imageCount <= r[i].replyCount)
            && (forall i, j :: 0 <= i < j < |r| ==> r[i].thread.updatedAt >= r[j].thread.updatedAt)
  {
    var table := Table(posts, nextId);
    var threads := CatalogoOrder(posts, nextId);
    assert CatalogoEntries(posts, nextId) == Entries(table, false, Window(threads, 0, CATALOG_LIMIT));
    WindowEntries(table, false, threads, UpdatedKey);
    CatalogoThreadsStored(posts, edges, nextId);
  }

  /** Every thread in b/catalogo.php's order is a stored live thread. */
  lemma CatalogoThreadsStored(posts: Posts, edges: seq<Edge>, nextId: int)
    requires WellFormed(posts, edges, nextId)
    ensures var threads := CatalogoOrder(posts, nextId);
            forall i :: 0 <= i < |threads| ==>
              threads[i].id in posts && posts[threads[i].id] == threads[i] && LiveThread(threads[i])
  {
    var threads := CatalogoOrder(posts, nextId);
    forall i | 0 <= i < |threads|
      ensures threads[i].id in posts && posts[threads[i].id] == threads[i] && LiveThread(threads[i])
    {
      LiveThreadsMembers(posts, edges, nextId, threads[i]);
    }
  }

  /**
   * The rows of the first 150 of a sorted list of threads: one per thread,
   * in the list's order, each counting no more images than replies and no
   * more replies than a count that includes unapproved ones.
   */
  lemma WindowEntries(table: seq<Post>, approvedOnly: bool, threads: seq<Post>, key: Post -> Ordering.Key)
    requires Ordering.SortedDesc(threads, key)
    ensures var r := Entries(table, approvedOnly, Window(threads, 0, CATALOG_LIMIT));
            && |r| <= CATALOG_LIMIT && |r| <= |threads|
            && (forall i :: 0 <= i < |r| ==> r[i].thread == threads[i] && r[i].imageCount <= r[i].replyCount
                                             && r[i].replyCount <= EntryOf(table, false, threads[i]).replyCount)
            && (forall i, j :: 0 <= i < j < |r| ==> Ordering.AtLeast(key(r[i].thread), key(r[j].thread)))
  {
    var w := Window(threads, 0, CATALOG_LIMIT);
    EntriesSpec(table, approvedOnly, w);
    assert forall i :: 0 <= i < |w| ==> w[i] == threads[i];
  }

  /** While there are at most 150 live threads b/catalogo.php shows every one of them. */
  lemma CatalogoComplete(posts: Posts, edges: seq<Edge>, nextId: int, k: int)
    requires WellFormed(posts, edges, nextId)
    requires Count(Table(posts, nextId), LiveThread) <= CATALOG_LIMIT
    requires k in posts && LiveThread(posts[k])
    ensures exists i :: 0 <= i < |CatalogoEntries(posts, nextId)| && CatalogoEntries(posts, nextId)[i].thread == posts[k]
  {
    var threads := CatalogoOrder(posts, nextId);
    var w := Window(threads, 0, CATALOG_LIMIT);
    var r := CatalogoEntries(posts, nextId);
    assert w == threads;
    LiveThreadsMembers(posts, edges, nextId, posts[k]);
    var i :| 0 <= i < |threads| && threads[i] == posts[k];
    assert r[i].thread == posts[k];
  }

  /**
   * b/get_catalog.php shows at most 150 stored live approved threads,
   * stickies first and then most recently bumped, each with no more images
   * than replies and no more replies than b/catalogo.php counts.
   */
  lemma AjaxSpec(posts: Posts, edges: seq<Edge>, nextId: int)
    requires WellFormed(posts, edges, nextId)
    ensures var r := AjaxEntries(posts, nextId);
            && |r| <= CATALOG_LIMIT
            && (forall i :: 0 <= i < |r| ==> var t := r[i].thread;
                  t.id in posts && posts[t.id] == t && PublicThread(t)
                  && r[i].imageCount <= r[i].replyCount
                  && r[i].replyCount <= EntryOf(Table(posts, nextId), false, t).replyCount)
            && (forall i, j :: 0 <= i < j < |r| ==> Ordering.AtLeast(BumpKey(r[i].thread), BumpKey(r[j].thread)))
  {
    var table := Table(posts, nextId);
    var threads := PublicThreads(posts, nextId);
    assert AjaxEntries(posts, nextId) == Entries(table, true, Window(threads, 0, CATALOG_LIMIT));
    WindowEntries(table, true, threads, BumpKey);
    PublicThreadsStored(posts, edges, nextId);
  }

  /** Every thread in b/get_catalog.php's order is a stored public thread. */
  lemma PublicThreadsStored(posts: Posts, edges: seq<Edge>, nextId: int)
    requires WellFormed(posts, edges, nextId)
    ensures var threads := PublicThreads(posts, nextId);
            forall i :: 0 <= i < |threads| ==>
              threads[i].id in posts && posts[threads[i].id] == threads[i] && PublicThread(threads[i])
  {
    var threads := PublicThreads(posts, nextId);
    forall i | 0 <= i < |threads|
      ensures threads[i].id in posts && posts[threads[i].id] == threads[i] && PublicThread(threads[i])
    {
      PublicThreadsMembers(posts, edges, nextId, threads[i]);
    }
  }

  /**
   * The two catalogs disagree on threads awaiting approval: such a thread
   * is never in the AJAX catalog, yet b/catalogo.php lists it while there
   * are at most 150 live threads.
   */
  lemma PendingThreadOnlyInCatalogo(posts: Posts, edges: seq<Edge>, nextId: int, k: int)
    requires WellFormed(posts, edges, nextId)
    requires k in posts && LiveThread(posts[k]) && !posts[k].approved
    requires Count(Table(posts, nextId), LiveThread) <= CATALOG_LIMIT
    ensures exists i :: 0 <= i < |CatalogoEntries(posts, nextId)| && CatalogoEntries(posts, nextId)[i].thread == posts[k]
    ensures forall i :: 0 <= i < |AjaxEntries(posts, nextId)| ==> AjaxEntries(posts, nextId)[i].thread != posts[k]
  {
    CatalogoComplete(posts, edges, nextId, k);
    AjaxSpec(posts, edges, nextId);
  }

  // ----------------------------------------------------------------- text

  /** The only whitespace left is single spaces. */
  ghost predicate Collapsed(s: string) {
    && (forall i :: 0 <= i < |s| && IsSpace(s[i]) ==> s[i] == ' ')
    && (forall i, j :: 0 <= i < j < |s| && j == i + 1 ==> !IsSpace(s[i]) || !IsSpace(s[j]))
  }

  /** `s` without its whitespace. */
  function Visible(s: string): (r: string)
  {
    if s == [] then [] else (if IsSpace(s[0]) then [] else [s[0]]) + Visible(s[1..])
  }

  lemma {:induction false} VisibleDropSpaces(s: string)
    ensures Visible(DropSpaces(s)) == Visible(s)
    decreases |s|
  {
    if s != [] && IsSpace(s[0]) {
      VisibleDropSpaces(s[1..]);
    }
  }

  /**
   * Collapsing leaves only single spaces as whitespace and keeps every
   * other character, in order.
   */
  lemma {:induction false} CollapseSpacesSpec(s: string)
    ensures Collapsed(CollapseSpaces(s))
    ensures Visible(CollapseSpaces(s)) == Visible(s)
    ensures CollapseSpaces(s) != [] && IsSpace(CollapseSpaces(s)[0]) ==> s != [] && IsSpace(s[0])
    decreases |s|
  {
    if s != [] {
      if IsSpace(s[0]) {
        var d := DropSpaces(s);
        CollapseSpacesSpec(d);
        VisibleDropSpaces(s);
        var c := CollapseSpaces(d);
        assert CollapseSpaces(s) == [' '] + c;
        ConsCollapsed(' ', c);
      } else {
        CollapseSpacesSpec(s[1..]);
        var c := CollapseSpaces(s[1..]);
        assert CollapseSpaces(s) == [s[0]] + c;
        ConsCollapsed(s[0], c);
      }
    }
  }

  /** Putting `x` in front of a collapsed text keeps it collapsed, unless it makes a second space. */
  lemma ConsCollapsed(x: char, c: string)
    requires Collapsed(c)
    requires IsSpace(x) ==> x == ' ' && (c == [] || !IsSpace(c[0]))
    ensures Collapsed([x] + c)
    ensures Visible([x] + c) == (if IsSpace(x) then [] else [x]) + Visible(c)
  {
    var t := [x] + c;
    assert t[1..] == c;
    forall i | 0 <= i < |t| && IsSpace(t[i])
      ensures t[i] == ' '
    {
      if i > 0 {
        assert t[i] == c[i - 1];
      }
    }
    forall i, j | 0 <= i < j < |t| && j == i + 1
      ensures !IsSpace(t[i]) || !IsSpace(t[j])
    {
      assert t[j] == c[j - 1];
      if i > 0 {
        assert t[i] == c[i - 1];
      }
    }
  }

  /** Any slice of a collapsed text is collapsed. */
  lemma CollapsedSlice(s: string, i: int, j: int)
    requires Collapsed(s) && 0 <= i <= j <= |s|
    ensures Collapsed(s[i..j])
  {
    var t := s[i..j];
    forall k | 0 <= k < |t| && IsSpace(t[k])
      ensures t[k] == ' '
    {
      assert t[k] == s[i + k];
    }
    forall k, l | 0 <= k < l < |t| && l == k + 1
      ensures !IsSpace(t[k]) || !IsSpace(t[l])
    {
      assert t[k] == s[i + k] && t[l] == s[i + l];
    }
  }

  /** The text before truncation: whitespace collapsed, then trimmed. */
  function Normalized(stripped: string): string {
    Trim(CollapseSpaces(stripped))
  }

  /**
   * formatCatalogText() before htmlspecialchars(): the normalized text, cut
   * to its first 120 characters followed by "..." when it is longer.
   */
  function CatalogText(stripped: string): string {
    var t := Normalized(stripped);
    if |t| > CATALOG_TEXT_MAX then t[..CATALOG_TEXT_MAX] + "..." else t
  }

  /** formatCatalogText(), on the text strip_tags() has already cleaned. */
  function FormatCatalogText(stripped: string): (r: string)
    ensures '<' !in r && '>' !in r && '"' !in r && '\'' !in r
    ensures HtmlDecode(r) == CatalogText(stripped)
  {
    HtmlSpecialChars(CatalogText(stripped))
  }

  /**
   * The normalized text's only whitespace is single spaces, and it neither
   * starts nor ends with a space.
   */
  lemma NormalizedShape(stripped: string)
    ensures var t := Normalized(stripped);
            Collapsed(t) && (t != [] ==> t[0] != ' ' && t[|t| - 1] != ' ')
  {
    CollapseSpacesSpec(stripped);
    TrimCollapsed(CollapseSpaces(stripped));
  }

  /** Trimming keeps a text collapsed: it only cuts both ends. */
  lemma TrimCollapsed(c: string)
    requires Collapsed(c)
    ensures Collapsed(Trim(c))
  {
    var l := TrimLeft(c);
    CollapsedSlice(c, |c| - |l|, |c|);
    assert l == c[|c| - |l|..|c|];
    var r := TrimRight(l);
    CollapsedSlice(l, 0, |r|);
    assert r == l[0..|r|];
    assert Trim(c) == r;
  }

  /**
   * The catalog text is at most 123 characters; a normalized text of at
   * most 120 characters is shown whole with no "..."; a longer one keeps
   * exactly its first 120 characters and gains "...".
   */
  lemma CatalogTextSpec(stripped: string)
    ensures var t := Normalized(stripped);
            var r := CatalogText(stripped);
            && |r| <= CATALOG_TEXT_MAX + 3
            && (|t| <= CATALOG_TEXT_MAX ==> r == t)
            && (|t| > CATALOG_TEXT_MAX ==> |r| == CATALOG_TEXT_MAX + 3 && r[..CATALOG_TEXT_MAX] == t[..CATALOG_TEXT_MAX]
                                           && r[CATALOG_TEXT_MAX..] == "...")
  {
    var t := Normalized(stripped);
    if |t| > CATALOG_TEXT_MAX {
      var r := t[..CATALOG_TEXT_MAX] + "...";
      assert CatalogText(stripped) == r;
      assert r[..CATALOG_TEXT_MAX] == t[..CATALOG_TEXT_MAX];
      assert r[CATALOG_TEXT_MAX..] == "...";
    }
  }

  // ------------------------------------------------------------ thumbnail

  /** `uploads/thumbs/thumb_<name without extension>.webp`. */
  function WebpThumb(media: string): string {
    THUMB_DIR + "thumb_" + PathFilename(Basename(media)) + ".webp"
  }

  /** `uploads/thumbs/thumb_<file name>`. */
  function OriginalThumb(media: string): string {
    THUMB_DIR + "thumb_" + Basename(media)
  }

  /**
   * getThumbPath(): '' for a missing or absent media file; otherwise the
   * WebP thumbnail if it exists (only looked for when `useWebp`), else the
   * thumbnail with the original name if it exists, else the media itself.
   * b/catalogo.php always looks for the WebP thumbnail; b/get_catalog.php
   * does when USE_WEBP is set.
   */
  function ThumbPath(media: Option<string>, files: set<string>, useWebp: bool): (r: string)
    ensures r == "" <==> media.None? || Falsy(media.value) || media.value !in files
    ensures r != "" ==> r in files
  {
    if media.None? || Falsy(media.value) || media.value !in files then ""
    else if useWebp && WebpThumb(media.value) in files then WebpThumb(media.value)
    else if OriginalThumb(media.value) in files then OriginalThumb(media.value)
    else media.value
  }

  /**
   * The fallback order: with USE_WEBP off the WebP thumbnail is never
   * chosen over an existing original-name thumbnail; with it on the WebP
   * thumbnail wins whenever it exists and a missing one falls back to the
   * original-name thumbnail; with neither, the media itself is shown.
   */
  lemma ThumbPreference(media: string, files: set<string>)
    requires !Falsy(media) && media in files
    ensures WebpThumb(media) in files ==> ThumbPath(Some(media), files, true) == WebpThumb(media)
    ensures OriginalThumb(media) in files ==> ThumbPath(Some(media), files, false) == OriginalThumb(media)
    ensures WebpThumb(media) !in files && OriginalThumb(media) in files
            ==> ThumbPath(Some(media), files, true) == OriginalThumb(media)
    ensures WebpThumb(media) !in files && OriginalThumb(media) !in files
            ==> ThumbPath(Some(media), files, true) == ThumbPath(Some(media), files, false) == media
  {
    var m := Some(media);
    assert !(m.None? || Falsy(m.value) || m.value !in files);
  }

  // ---------------------------------------------------------------- cards

  /** What stands in the picture slot of a catalog card. */
  datatype Picture = Image(path: string) | SpoilerImage | SpoilerBox | NoImage

  datatype Card = Card(threadId: int, picture: Picture, stats: string, text: string)

  const PIN: char := '\U{1F4CC}'
  const LOCK: char := '\U{1F512}'

  /** The counts: "<replies + 1> Respostas / <images> imagens". */
  function StatsCounts(e: Entry): string {
    NatToString(e.replyCount + 1) + " Respostas / " + NatToString(e.imageCount) + " imagens"
  }

  function PinIcon(t: Post): string { if t.sticky == 1 then " " + [PIN] else "" }

  function LockIcon(t: Post): string { if t.locked == 1 then " " + [LOCK] else "" }

  function SpoilerTag(t: Post, thumb: string): string {
    if t.spoilered && !Falsy(thumb) then " (SPOILER)" else ""
  }

  /** b/get_catalog.php's stats line. */
  function StatsText(e: Entry, thumb: string): string {
    StatsCounts(e) + PinIcon(e.thread) + LockIcon(e.thread) + SpoilerTag(e.thread, thumb)
  }

  /**
   * The stats line starts with the post total (replies plus the opening
   * post) and the image count; it carries the pin exactly for a sticky
   * thread and the lock exactly for a locked one; and it ends in
   * " (SPOILER)" exactly when the thread is spoilered and has a picture.
   */
  lemma StatsSpec(e: Entry, thumb: string)
    ensures var r := StatsText(e, thumb);
            var head := StatsCounts(e);
            && |head| <= |r| && r[..|head|] == head
            && head[..|NatToString(e.replyCount + 1)|] == NatToString(e.replyCount + 1)
            && DigitsValue(NatToString(e.replyCount + 1)) == e.replyCount + 1
            && (PIN in r <==> e.thread.sticky == 1)
            && (LOCK in r <==> e.thread.locked == 1)
            && (r[|r| - 1] == ')' <==> e.thread.spoilered && !Falsy(thumb))
            && (e.thread.spoilered && !Falsy(thumb) ==> r[|r| - 10..] == " (SPOILER)")
  {
    var head := StatsCounts(e);
    var pin := PinIcon(e.thread);
    var lock := LockIcon(e.thread);
    var tail := SpoilerTag(e.thread, thumb);
    assert StatsText(e, thumb) == head + pin + lock + tail;
    CountsShape(e);
    IconsShape(head, pin, lock, tail);
  }

  /** How the optional icons and the spoiler tag show in a stats line. */
  lemma IconsShape(head: string, pin: string, lock: string, tail: string)
    requires PIN !in head && LOCK !in head && head != [] && head[|head| - 1] == 's'
    requires pin == "" || pin == " " + [PIN]
    requires lock == "" || lock == " " + [LOCK]
    requires tail == "" || tail == " (SPOILER)"
    ensures var r := head + pin + lock + tail;
            && |head| <= |r| && r[..|head|] == head
            && (PIN in r <==> pin != "")
            && (LOCK in r <==> lock != "")
            && (r[|r| - 1] == ')' <==> tail != "")
            && (tail != "" ==> r[|r| - 10..] == tail)
  {
    var r := head + pin + lock + tail;
    assert r[..|head|] == head;
    assert PIN !in lock && PIN !in tail && LOCK !in pin && LOCK !in tail;
    if tail == "" {
      if lock != "" {
        assert r[|r| - 1] == LOCK;
      } else if pin != "" {
        assert r[|r| - 1] == PIN;
      } else {
        assert r == head;
      }
    } else {
      assert r[|r| - 10..] == tail;
    }
  }

  /** The counts part of the stats line holds no icon, starts with the post total and ends in 's'. */
  lemma CountsShape(e: Entry)
    ensures var head := StatsCounts(e);
            var a := NatToString(e.replyCount + 1);
            && PIN !in head && LOCK !in head && head[|head| - 1] == 's'
            && |a| <= |head| && head[..|a|] == a
  {
    var a := NatToString(e.replyCount + 1);
    var b := NatToString(e.imageCount);
    var head := StatsCounts(e);
    NoIconIn(head, a, b);
    assert head[..|a|] == a;
  }

  /** The counts part of the stats line holds no icon. */
  lemma NoIconIn(head: string, a: string, b: string)
    requires AllDigits(a) && AllDigits(b)
    requires head == a + " Respostas / " + b + " imagens"
    ensures PIN !in head && LOCK !in head
  {
    forall k | 0 <= k < |head|
      ensures head[k] != PIN && head[k] != LOCK
    {
      if k < |a| {
        assert head[k] == a[k];
      } else if |a| + 13 <= k < |a| + 13 + |b| {
        assert head[k] == b[k - |a| - 13];
      }
    }
  }

  /** b/get_catalog.php's card: a spoilered picture is never shown, only its placeholder. */
  function AjaxCard(e: Entry, files: set<string>, hasSpoilerImage: bool): Card {
    var thumb := ThumbPath(e.thread.media, files, USE_WEBP);
    var picture :=
      if !Falsy(thumb) && thumb in files then
        (if e.thread.spoilered then (if hasSpoilerImage then SpoilerImage else SpoilerBox) else Image(thumb))
      else NoImage;
    Card(e.thread.id, picture, StatsText(e, thumb), FormatCatalogText(e.thread.message))
  }

  /** b/catalogo.php's card: "<posts>R / <images>I", and a spoilered thumb shows only when no spoiler image exists. */
  function CatalogoCard(e: Entry, files: set<string>, hasSpoilerImage: bool): Card {
    var thumb := ThumbPath(e.thread.media, files, true);
    var picture :=
      if !Falsy(thumb) && thumb in files then
        (if e.thread.spoilered && hasSpoilerImage then SpoilerImage else Image(thumb))
      else NoImage;
    Card(e.thread.id, picture, NatToString(e.replyCount + 1) + "R / " + NatToString(e.imageCount) + "I",
         FormatCatalogText(e.thread.message))
  }

  /**
   * A card shows an image only of a thread whose media file exists, and the
   * image it shows is an existing file; a spoilered thread never shows its
   * own picture in the AJAX catalog.
   */
  lemma CardPictures(e: Entry, files: set<string>, hasSpoilerImage: bool)
    ensures var c := AjaxCard(e, files, hasSpoilerImage);
            (c.picture.Image? ==> c.picture.path in files && !e.thread.spoilered)
            && (c.picture != NoImage ==> e.thread.media.Some? && e.thread.media.value in files)
    ensures var c := CatalogoCard(e, files, hasSpoilerImage);
            (c.picture.Image? ==> c.picture.path in files)
            && (c.picture != NoImage ==> e.thread.media.Some? && e.thread.media.value in files)
            && (c.picture.Image? && e.thread.spoilered ==> !hasSpoilerImage)
  {
  }

  /** The reply to a catalog request. */
  datatype Response = Redirect(location: string) | Cards(cards: seq<Card>)

  /**
   * b/get_catalog.php: an AJAX request gets one card per selected thread
   * (an empty list shows the "no threads" notice); any other request is
   * only redirected to catalogo.php.
   */
  function CatalogResponse(isAjax: bool, posts: Posts, nextId: int, files: set<string>, hasSpoilerImage: bool)
    : (r: Response)
    ensures !isAjax <==> r == Redirect("catalogo.php")
    ensures r.Cards? ==> |r.cards| == |AjaxEntries(posts, nextId)| <= CATALOG_LIMIT
    ensures r.Cards? ==> forall i :: 0 <= i < |r.cards| ==> r.cards[i].threadId == AjaxEntries(posts, nextId)[i].thread.id
  {
    if isAjax then Cards(Map(AjaxEntries(posts, nextId), e => AjaxCard(e, files, hasSpoilerImage)))
    else Redirect("catalogo.php")
  }

  /**
   * What reaches the browser: whether the board page of b/index.php comes
   * first, the Location header if one was sent, and the cards.
   */
  datatype Sent = Sent(boardPage: bool, location: Option<string>, cards: seq<Card>)

  /** What the intended response puts on the wire. */
  function Delivered(r: Response): (s: Sent)
    ensures !s.boardPage
    ensures r.Redirect? ==> s.location == Some(r.location) && s.cards == []
    ensures r.Cards? ==> s.location == None && s.cards == r.cards
  {
    match r
    case Redirect(l) => Sent(false, Some(l), [])
    case Cards(cs) => Sent(false, None, cs)
  }

  /**
   * b/get_catalog.php as written: it loads b/index.php first, which empties
   * every output buffer and then writes the whole board page. The
   * header() calls that follow come after output has started, so PHP
   * drops them: no request is redirected, and an AJAX request gets the
   * board page followed by the cards.
   */
  function CatalogResponseAsWritten(isAjax: bool, posts: Posts, nextId: int, files: set<string>, hasSpoilerImage: bool)
    : (s: Sent)
    ensures s.boardPage && s.location == None
    ensures isAjax ==> s.cards == CatalogResponse(isAjax, posts, nextId, files, hasSpoilerImage).cards
    ensures !isAjax ==> s.cards == []
  {
    var intended := CatalogResponse(isAjax, posts, nextId, files, hasSpoilerImage);
    Sent(true, None, if intended.Cards? then intended.cards else [])
  }

  /**
   * The discrepancy: for every request, what b/get_catalog.php sends is
   * not what it means to send; a plain request that should be redirected
   * to catalogo.php is not, and an AJAX request gets a whole page in front
   * of its cards.
   */
  lemma CatalogAsWrittenDiffers(isAjax: bool, posts: Posts, nextId: int, files: set<string>, hasSpoilerImage: bool)
    ensures var intended := Delivered(CatalogResponse(isAjax, posts, nextId, files, hasSpoilerImage));
            var sent := CatalogResponseAsWritten(isAjax, posts, nextId, files, hasSpoilerImage);
            && sent != intended
            && (!isAjax ==> intended.location == Some("catalogo.php") && sent.location == None)
            && (isAjax ==> sent.cards == intended.cards && sent.boardPage && !intended.boardPage)
  {
  }
}
