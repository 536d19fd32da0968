/**
 * How the index page (b/index.php) and the moderator page (b/mod.php) list
 * threads: the page count and offset of the pager, the `ORDER BY sticky
 * DESC, updated_at DESC LIMIT ? OFFSET ?` listing, and the preview of the
 * last replies under each thread on the index.
 */
module Listing {
  import opened Base
  import opened Php
  import opened Board
  import Ordering

  /** POSTS_PER_PAGE of b/index.php. */
  const INDEX_PER_PAGE: nat := 20
  /** POSTS_PER_PAGE of b/mod.php. */
  const MOD_PER_PAGE: nat := 10
  /** MAIN_REPLIES_SHOWN: replies previewed under a thread. */
  const MAIN_REPLIES_SHOWN: nat := 5

  // ------------------------------------------------------------ table scan

  /** The rows with ids in [lo, hi), in id order: a scan of `posts` by rowid. */
  function Rows(posts: Posts, lo: int, hi: int): seq<Post>
    decreases hi - lo
  {
    if lo >= hi then []
    else (if lo in posts then [posts[lo]] else []) + Rows(posts, lo + 1, hi)
  }

  /** Every row of the table, in id order. */
  function Table(posts: Posts, nextId: int): seq<Post> {
    Rows(posts, 1, nextId)
  }

  /** Keys are ids. */
  predicate Keyed(posts: Posts) {
    forall k :: k in posts ==> posts[k].id == k
  }

  /** The scan yields exactly the stored rows whose ids lie in [lo, hi). */
  lemma {:induction false} RowsMembers(posts: Posts, lo: int, hi: int, p: Post)
    requires Keyed(posts)
    ensures p in Rows(posts, lo, hi) <==> lo <= p.id < hi && p.id in posts && posts[p.id] == p
    decreases hi - lo
  {
    if lo < hi {
      RowsMembers(posts, lo + 1, hi, p);
    }
  }

  /** Below `nextId`, the table scan sees every row. */
  lemma TableMembers(posts: Posts, edges: seq<Edge>, nextId: int, p: Post)
    requires WellFormed(posts, edges, nextId)
    ensures p in Table(posts, nextId) <==> p.id in posts && posts[p.id] == p
  {
    RowsMembers(posts, 1, nextId, p);
  }

  // ------------------------------------------------------------ pagination

  /** `max(1, (int)ceil($totalPosts / POSTS_PER_PAGE))`. */
  function TotalPages(total: nat, perPage: nat): (r: int)
    requires perPage > 0
    ensures r >= 1
    ensures total == 0 ==> r == 1
    ensures total > 0 ==> (r - 1) * perPage < total <= r * perPage
  {
    Max(1, (total + perPage - 1) / perPage)
  }

  /** `max(1, requested)`, then lowered to the last page when beyond it. */
  function ClampPage(requested: int, totalPages: int): (r: int)
    requires totalPages >= 1
    ensures 1 <= r <= totalPages
    ensures 1 <= requested <= totalPages ==> r == requested
    ensures requested < 1 ==> r == 1
    ensures requested > totalPages ==> r == totalPages
  {
    var p := Max(1, requested);
    if p > totalPages then totalPages else p
  }

  /** `($page - 1) * POSTS_PER_PAGE`. */
  function Offset(page: int, perPage: nat): int {
    (page - 1) * perPage
  }

  /** b/index.php's page parameter: `(int)($_GET['page'] ?? 1)`. */
  function IndexRequestedPage(param: Option<string>): int {
    if param.None? then 1 else IntCast(param.value)
  }

  /**
   * b/mod.php's page parameter: `(int)filter_input(INPUT_GET, 'page',
   * FILTER_VALIDATE_INT) ?: 1`; a missing or invalid value reads as 0 and
   * then as 1.
   */
  function ModRequestedPage(param: Option<string>): (r: int)
    ensures r != 0
    ensures ValidateInt(param, PHP_INT_MIN, PHP_INT_MAX) in {None, Some(0)} ==> r == 1
    ensures var v := ValidateInt(param, PHP_INT_MIN, PHP_INT_MAX);
            v.Some? && v.value != 0 ==> r == v.value
  {
    var v := ValidateInt(param, PHP_INT_MIN, PHP_INT_MAX);
    var n := if v.Some? then v.value else 0;
    if n == 0 then 1 else n
  }

  /** A page number the pager links write, with whitespace around it or a '+' in front, is read back as itself. */
  lemma {:induction false} ModRequestedPageRoundTrip(ws1: string, x: string, ws2: string, n: int)
    requires AllFilterTrim(ws1) && AllFilterTrim(ws2) && Spells(x, n)
    requires n != 0 && PHP_INT_MIN <= n <= PHP_INT_MAX
    ensures ModRequestedPage(Some(ws1 + x + ws2)) == n
  {
    ValidateIntAccepts(ws1, x, ws2, n, PHP_INT_MIN, PHP_INT_MAX);
  }

  /**
   * The page shown lies in [1, totalPages], its offset is not negative,
   * and whenever there is anything to list, the offset points inside the
   * list, so the page shown is never empty.
   */
  lemma PageInRange(total: nat, requested: int, perPage: nat)
    requires perPage > 0
    ensures var pages := TotalPages(total, perPage);
            var page := ClampPage(requested, pages);
            var off := Offset(page, perPage);
            1 <= page <= pages && 0 <= off
            && (total > 0 ==> off < total)
            && (total == 0 ==> off == 0)
  {
    var pages := TotalPages(total, perPage);
    var page := ClampPage(requested, pages);
    var off := Offset(page, perPage);
    MulMonotone(0, page - 1, perPage);
    if total > 0 {
      MulMonotone(page - 1, pages - 1, perPage);
    } else {
      assert page == 1;
    }
  }

  lemma MulMonotone(a: int, b: int, c: nat)
    requires 0 <= a <= b
    ensures a * c <= b * c
  {
  }

  /** `LIMIT limit OFFSET offset` over an ordered result. */
  function Window<T>(s: seq<T>, offset: int, limit: nat): (r: seq<T>)
    ensures |r| <= limit
    ensures 0 <= offset <= |s| ==> r == s[offset..Min(offset + limit, |s|)]
  {
    var lo := if offset < 0 then 0 else Min(offset, |s|);
    s[lo..Min(lo + limit, |s|)]
  }

  // ---------------------------------------------------------- the listing

  /** `deleted = 0 AND is_reply = 0 AND approved = 1`: a thread ordinary readers see. */
  predicate PublicThread(p: Post) {
    !p.deleted && !p.isReply && p.approved
  }

  /** `deleted = 0 AND is_reply = 0`: what the moderator's pager counts. */
  predicate LiveThread(p: Post) {
    !p.deleted && !p.isReply
  }

  /** `ORDER BY sticky DESC, updated_at DESC`. */
  function BumpKey(p: Post): Ordering.Key {
    Ordering.Key(p.sticky, p.updatedAt)
  }

  /** All threads ordinary readers see, stickies first, then most recently bumped. */
  function PublicThreads(posts: Posts, nextId: int): (r: seq<Post>)
    ensures Ordering.SortedDesc(r, BumpKey)
    ensures multiset(r) == multiset(Filter(Table(posts, nextId), PublicThread))
  {
    Ordering.SortDesc(Filter(Table(posts, nextId), PublicThread), BumpKey)
  }

  /** The threads of one index page, for the raw `page` parameter. */
  function IndexPage(posts: Posts, nextId: int, param: Option<string>): (r: seq<Post>)
    ensures |r| <= INDEX_PER_PAGE
    ensures Ordering.SortedDesc(r, BumpKey)
    ensures forall x :: x in r ==> x in PublicThreads(posts, nextId)
  {
    var all := PublicThreads(posts, nextId);
    var total := Count(Table(posts, nextId), PublicThread);
    var page := ClampPage(IndexRequestedPage(param), TotalPages(total, INDEX_PER_PAGE));
    var off := Offset(page, INDEX_PER_PAGE);
    SortedWindow(all, off, INDEX_PER_PAGE);
    WindowAll(all, off, INDEX_PER_PAGE);
    Window(all, off, INDEX_PER_PAGE)
  }

  /**
   * The moderator's page: the pager counts live threads whether approved or
   * not, while the listing shows only approved ones.
   */
  function ModPage(posts: Posts, nextId: int, param: Option<string>): (r: seq<Post>)
    ensures |r| <= MOD_PER_PAGE
    ensures Ordering.SortedDesc(r, BumpKey)
    ensures forall x :: x in r ==> x in PublicThreads(posts, nextId)
  {
    var all := PublicThreads(posts, nextId);
    var off := ModOffset(posts, nextId, param);
    SortedWindow(all, off, MOD_PER_PAGE);
    WindowAll(all, off, MOD_PER_PAGE);
    Window(all, off, MOD_PER_PAGE)
  }

  /** The OFFSET of the moderator's listing: the requested page clamped to the pages of the live-thread count. */
  function ModOffset(posts: Posts, nextId: int, param: Option<string>): int {
    var total := Count(Table(posts, nextId), LiveThread);
    Offset(ClampPage(ModRequestedPage(param), TotalPages(total, MOD_PER_PAGE)), MOD_PER_PAGE)
  }

  /** Every row of a window is a row of the listing. */
  lemma WindowAll<T>(s: seq<T>, offset: int, limit: nat)
    ensures forall x :: x in Window(s, offset, limit) ==> x in s
  {
    forall x | x in Window(s, offset, limit) ensures x in s {
      WindowMembers(s, offset, limit, x);
    }
  }

  /**
   * A moderator page holds at most 10 threads, each a live, approved,
   * top-level row, in sticky-then-bump order. Because the pager counts
   * pending threads too, the page comes out empty exactly when its offset
   * lies at or past the end of the approved listing, not of the counted
   * threads (3 approved and 8 pending threads make 2 pages, and page 2
   * would show nothing).
   */
  lemma ModPageSpec(posts: Posts, edges: seq<Edge>, nextId: int, param: Option<string>)
    requires WellFormed(posts, edges, nextId)
    ensures var r := ModPage(posts, nextId, param);
            && |r| <= MOD_PER_PAGE
            && Ordering.SortedDesc(r, BumpKey)
            && (forall x :: x in r ==> x.id in posts && posts[x.id] == x && PublicThread(x))
            && (r == [] <==> ModOffset(posts, nextId, param) >= |PublicThreads(posts, nextId)|)
  {
    var all := PublicThreads(posts, nextId);
    var off := ModOffset(posts, nextId, param);
    PublicWindowStored(posts, edges, nextId, off, MOD_PER_PAGE);
    PageInRange(Count(Table(posts, nextId), LiveThread), ModRequestedPage(param), MOD_PER_PAGE);
    WindowEmptyIff(all, off, MOD_PER_PAGE);
  }

  /**
   * With no live thread waiting for approval the two counts agree, and the
   * moderator page of a non-empty listing is never empty.
   */
  lemma ModPageNonEmpty(posts: Posts, edges: seq<Edge>, nextId: int, param: Option<string>, k: int)
    requires WellFormed(posts, edges, nextId)
    requires k in posts && PublicThread(posts[k])
    requires forall j :: j in posts && LiveThread(posts[j]) ==> posts[j].approved
    ensures ModPage(posts, nextId, param) != []
  {
    var all := PublicThreads(posts, nextId);
    var total := Count(Table(posts, nextId), LiveThread);
    ModCountCoversListing(posts, edges, nextId);
    PublicThreadsMembers(posts, edges, nextId, posts[k]);
    assert |all| == total > 0;
    PageInRange(total, ModRequestedPage(param), MOD_PER_PAGE);
    ModPageSpec(posts, edges, nextId, param);
  }

  lemma {:induction false} WindowMembers<T>(s: seq<T>, offset: int, limit: nat, x: T)
    ensures x in Window(s, offset, limit) ==> x in s
  {
    var lo := if offset < 0 then 0 else Min(offset, |s|);
    if x in Window(s, offset, limit) {
      var i :| 0 <= i < |Window(s, offset, limit)| && Window(s, offset, limit)[i] == x;
      assert s[lo + i] == x;
    }
  }

  /** The sorted listing holds exactly the stored threads ordinary readers see. */
  lemma PublicThreadsMembers(posts: Posts, edges: seq<Edge>, nextId: int, x: Post)
    requires WellFormed(posts, edges, nextId)
    ensures x in PublicThreads(posts, nextId) <==> x.id in posts && posts[x.id] == x && PublicThread(x)
  {
    var fl := Filter(Table(posts, nextId), PublicThread);
    assert x in PublicThreads(posts, nextId) <==> x in multiset(fl);
    TableMembers(posts, edges, nextId, x);
    if x.id in posts && posts[x.id] == x && PublicThread(x) {
      var i :| 0 <= i < |Table(posts, nextId)| && Table(posts, nextId)[i] == x;
    }
  }

  /**
   * An index page holds at most 20 threads, each a live, approved,
   * top-level row of the table, in sticky-then-bump order; and when some
   * such thread exists, the page is not empty, whatever page was asked for.
   */
  lemma IndexPageSpec(posts: Posts, edges: seq<Edge>, nextId: int, param: Option<string>)
    requires WellFormed(posts, edges, nextId)
    ensures var r := IndexPage(posts, nextId, param);
            && |r| <= INDEX_PER_PAGE
            && Ordering.SortedDesc(r, BumpKey)
            && (forall x :: x in r ==> x.id in posts && posts[x.id] == x && PublicThread(x))
            && ((exists k :: k in posts && PublicThread(posts[k])) ==> r != [])
  {
    var all := PublicThreads(posts, nextId);
    var total := Count(Table(posts, nextId), PublicThread);
    var page := ClampPage(IndexRequestedPage(param), TotalPages(total, INDEX_PER_PAGE));
    var off := Offset(page, INDEX_PER_PAGE);
    assert IndexPage(posts, nextId, param) == Window(all, off, INDEX_PER_PAGE);
    SortedWindow(all, off, INDEX_PER_PAGE);
    PublicWindowStored(posts, edges, nextId, off, INDEX_PER_PAGE);
    if exists k :: k in posts && PublicThread(posts[k]) {
      var k :| k in posts && PublicThread(posts[k]);
      IndexPageNonEmpty(posts, edges, nextId, param, k);
    }
  }

  /** Any window of the public listing holds only stored public threads. */
  lemma PublicWindowStored(posts: Posts, edges: seq<Edge>, nextId: int, offset: int, limit: nat)
    requires WellFormed(posts, edges, nextId)
    ensures forall x :: x in Window(PublicThreads(posts, nextId), offset, limit)
              ==> x.id in posts && posts[x.id] == x && PublicThread(x)
  {
    forall x | x in Window(PublicThreads(posts, nextId), offset, limit)
      ensures x.id in posts && posts[x.id] == x && PublicThread(x)
    {
      WindowMembers(PublicThreads(posts, nextId), offset, limit, x);
      PublicThreadsMembers(posts, edges, nextId, x);
    }
  }

  /** Whatever page is asked for, the clamped page of a non-empty listing is not empty. */
  lemma IndexPageNonEmpty(posts: Posts, edges: seq<Edge>, nextId: int, param: Option<string>, k: int)
    requires WellFormed(posts, edges, nextId)
    requires k in posts && PublicThread(posts[k])
    ensures IndexPage(posts, nextId, param) != []
  {
    var all := PublicThreads(posts, nextId);
    var total := Count(Table(posts, nextId), PublicThread);
    var page := ClampPage(IndexRequestedPage(param), TotalPages(total, INDEX_PER_PAGE));
    var off := Offset(page, INDEX_PER_PAGE);
    PublicThreadsMembers(posts, edges, nextId, posts[k]);
    assert |all| == total > 0;
    PageInRange(total, IndexRequestedPage(param), INDEX_PER_PAGE);
    WindowEmptyIff(all, off, INDEX_PER_PAGE);
  }

  /** A window with a non-negative offset is empty exactly when the offset is at or past the end. */
  lemma WindowEmptyIff<T>(s: seq<T>, offset: int, limit: nat)
    requires 0 <= offset && limit > 0
    ensures Window(s, offset, limit) == [] <==> offset >= |s|
  {
    if offset < |s| {
      assert Window(s, offset, limit)[0] == s[offset];
    }
  }

  lemma SortedWindow(s: seq<Post>, offset: int, limit: nat)
    requires Ordering.SortedDesc(s, BumpKey)
    ensures Ordering.SortedDesc(Window(s, offset, limit), BumpKey)
  {
    var lo := if offset < 0 then 0 else Min(offset, |s|);
    var w := Window(s, offset, limit);
    forall i, j | 0 <= i < j < |w|
      ensures Ordering.AtLeast(BumpKey(w[i]), BumpKey(w[j]))
    {
      assert w[i] == s[lo + i] && w[j] == s[lo + j];
    }
  }

  /** Counting with a weaker filter never gives less; it gives the same exactly when the filters agree on `s`. */
  lemma {:induction false} CountWeaker<T>(s: seq<T>, p: T -> bool, q: T -> bool)
    requires forall x :: p(x) ==> q(x)
    ensures Count(s, p) <= Count(s, q)
    ensures Count(s, p) == Count(s, q) <==> forall i :: 0 <= i < |s| && q(s[i]) ==> p(s[i])
  {
    if s != [] {
      CountWeaker(s[1..], p, q);
      if forall i :: 0 <= i < |s| && q(s[i]) ==> p(s[i]) {
        assert forall i :: 0 <= i < |s[1..]| && q(s[1..][i]) ==> p(s[1..][i]) by {
          forall i | 0 <= i < |s[1..]| && q(s[1..][i]) ensures p(s[1..][i]) {
            assert s[1..][i] == s[i + 1];
          }
        }
      } else {
        var i :| 0 <= i < |s| && q(s[i]) && !p(s[i]);
        if i > 0 {
          assert s[1..][i - 1] == s[i];
        }
      }
    }
  }

  /**
   * The moderator's pager counts at least as many threads as its listing
   * can show, and exactly as many only when no live thread is waiting for
   * approval; otherwise the trailing pages come out short or empty.
   */
  lemma ModCountCoversListing(posts: Posts, edges: seq<Edge>, nextId: int)
    requires WellFormed(posts, edges, nextId)
    ensures |PublicThreads(posts, nextId)| <= Count(Table(posts, nextId), LiveThread)
    ensures |PublicThreads(posts, nextId)| == Count(Table(posts, nextId), LiveThread)
            <==> forall k :: k in posts && LiveThread(posts[k]) ==> posts[k].approved
  {
    var table := Table(posts, nextId);
    CountWeaker(table, PublicThread, LiveThread);
    assert |PublicThreads(posts, nextId)| == Count(table, PublicThread);
    if forall k :: k in posts && LiveThread(posts[k]) ==> posts[k].approved {
      forall i | 0 <= i < |table| && LiveThread(table[i])
        ensures PublicThread(table[i])
      {
        TableMembers(posts, edges, nextId, table[i]);
      }
    }
    if forall i :: 0 <= i < |table| && LiveThread(table[i]) ==> PublicThread(table[i]) {
      forall k | k in posts && LiveThread(posts[k])
        ensures posts[k].approved
      {
        TableMembers(posts, edges, nextId, posts[k]);
        var i :| 0 <= i < |table| && table[i] == posts[k];
      }
    }
  }

  // ------------------------------------------------------- reply preview

  /** `parent_id = ? AND deleted = 0 AND is_reply = 1 AND approved = 1`. */
  predicate ShownReply(thread: int, p: Post) {
    p.parentId == Some(thread) && !p.deleted && p.isReply && p.approved
  }

  /** `ORDER BY created_at DESC`. */
  function CreatedKey(p: Post): Ordering.Key {
    Ordering.Key(p.createdAt, 0)
  }

  /** getReplyCount(): the replies of a thread ordinary readers see. */
  function ReplyCount(posts: Posts, nextId: int, thread: int): nat {
    Count(Table(posts, nextId), p => ShownReply(thread, p))
  }

  function Reversed<T>(s: seq<T>): (r: seq<T>)
    ensures |r| == |s| && forall i :: 0 <= i < |s| ==> r[i] == s[|s| - 1 - i]
  {
    if s == [] then [] else Reversed(s[1..]) + [s[0]]
  }

  /**
   * The replies under a thread on the index: the newest MAIN_REPLIES_SHOWN
   * (`ORDER BY created_at DESC LIMIT 5`), put back in chronological order
   * by array_reverse().
   */
  function PreviewReplies(posts: Posts, nextId: int, thread: int): seq<Post> {
    var newest := Ordering.SortDesc(Filter(Table(posts, nextId), p => ShownReply(thread, p)), CreatedKey);
    Reversed(Window(newest, 0, MAIN_REPLIES_SHOWN))
  }

  /** The "N posts omitidos" count: replies beyond the preview, or 0 when none are hidden. */
  function Omitted(replyCount: nat): nat {
    if replyCount > MAIN_REPLIES_SHOWN then replyCount - MAIN_REPLIES_SHOWN else 0
  }

  lemma ReversedMembers<T>(s: seq<T>, x: T)
    ensures x in Reversed(s) <==> x in s
  {
    if x in s {
      var i :| 0 <= i < |s| && s[i] == x;
      assert Reversed(s)[|s| - 1 - i] == x;
    }
  }

  /** Rows missing from the first `n` of a newest-first order are no newer than the n-th. */
  lemma {:induction false} LeftOutIsOlder(newest: seq<Post>, n: nat, x: Post)
    requires Ordering.SortedDesc(newest, CreatedKey)
    requires 0 < n <= |newest| && x in newest && x !in newest[..n]
    ensures x.createdAt <= newest[n - 1].createdAt
  {
    var k :| 0 <= k < |newest| && newest[k] == x;
    assert forall i :: 0 <= i < n ==> newest[..n][i] == newest[i];
    assert k >= n;
    assert Ordering.AtLeast(CreatedKey(newest[n - 1]), CreatedKey(newest[k]));
  }

  /**
   * The head of a newest-first order, reversed: min(5, n) rows taken from
   * `all`, oldest first, none of the rows left out newer than the first one.
   */
  lemma {:induction false} NewestFive(all: seq<Post>, newest: seq<Post>)
    requires Ordering.SortedDesc(newest, CreatedKey) && multiset(newest) == multiset(all)
    ensures var shown := Reversed(Window(newest, 0, MAIN_REPLIES_SHOWN));
            && |shown| == Min(MAIN_REPLIES_SHOWN, |all|)
            && (forall x :: x in shown ==> x in all)
            && (forall i, j :: 0 <= i < j < |shown| ==> shown[i].createdAt <= shown[j].createdAt)
            && (forall x :: x in all && x !in shown ==> shown != [] && x.createdAt <= shown[0].createdAt)
  {
    var n := Min(MAIN_REPLIES_SHOWN, |newest|);
    var w := Window(newest, 0, MAIN_REPLIES_SHOWN);
    var shown := Reversed(w);
    assert |newest| == |multiset(newest)| == |all|;
    assert w == newest[..n];
    forall x | x in shown
      ensures x in all
    {
      ReversedMembers(w, x);
      assert x in multiset(newest);
    }
    forall i, j | 0 <= i < j < |shown|
      ensures shown[i].createdAt <= shown[j].createdAt
    {
      assert shown[i] == newest[n - 1 - i] && shown[j] == newest[n - 1 - j];
    }
    forall x | x in all && x !in shown
      ensures shown != [] && x.createdAt <= shown[0].createdAt
    {
      assert x in multiset(all);
      assert x in newest;
      ReversedMembers(w, x);
      LeftOutIsOlder(newest, n, x);
      assert shown[0] == newest[n - 1];
    }
  }

  /**
   * The preview shows min(5, count) replies of the thread, oldest first; the
   * omitted count makes up the rest; and every reply left out is no newer
   * than the oldest one shown.
   */
  lemma PreviewSpec(posts: Posts, nextId: int, thread: int)
    ensures var shown := PreviewReplies(posts, nextId, thread);
            var n := ReplyCount(posts, nextId, thread);
            && |shown| == Min(MAIN_REPLIES_SHOWN, n)
            && |shown| + Omitted(n) == n
            && (forall x :: x in shown ==> ShownReply(thread, x))
            && (forall i, j :: 0 <= i < j < |shown| ==> shown[i].createdAt <= shown[j].createdAt)
            && (forall x :: x in Filter(Table(posts, nextId), p => ShownReply(thread, p)) && x !in shown
                  ==> shown != [] && x.createdAt <= shown[0].createdAt)
  {
    var all := Filter(Table(posts, nextId), p => ShownReply(thread, p));
    var newest := Ordering.SortDesc(all, CreatedKey);
    NewestFive(all, newest);
  }
}
