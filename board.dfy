/**
 * The board's SQLite database as b/index.php and b/mod.php use it: the
 * unified `posts` table (threads and replies), the `mentions` table of quote
 * links, the `settings` table, and the upload files on disk. Each method of
 * Board is one SQL statement (or one small group of them) of the source; the
 * handlers that string them together live in Public and Moderation.
 *
 * Timestamps are whole seconds supplied by the caller in place of
 * datetime('now', 'localtime').
 */
module Board {
  import opened Base
  import opened Php
  import opened Mentions
  import Ordering

  /** One row of `posts`; `title` is NULL for replies, `parentId` is set exactly for replies. */
  datatype Post = Post(
    id: int,
    title: Option<string>,
    message: string,
    media: Option<string>,
    thumb: Option<string>,
    name: string,
    createdAt: int,
    updatedAt: int,
    deleted: bool,
    ipHash: string,
    spoilered: bool,
    locked: int,
    sticky: int,
    password: Option<string>,
    capcode: Option<string>,
    isReply: bool,
    parentId: Option<int>,
    approved: bool,
    approvedAt: Option<int>)

  /** One row of `mentions`: `source` quotes `target`. */
  datatype Edge = Edge(source: int, target: int, createdAt: int)

  type Posts = map<int, Post>

  // ------------------------------------------------------------ invariants

  /** Row shape every insert path respects: is_reply exactly when parent_id is set. */
  predicate RowShape(p: Post) {
    p.isReply <==> p.parentId.Some?
  }

  /**
   * The database invariants:
   *  - AUTOINCREMENT ids: every id is below the next one handed out, and a row's key is its id;
   *  - a row is a reply exactly when it has a parent, and a reply's parent is a thread that exists;
   *  - every mention edge joins two rows that exist (ON DELETE CASCADE on both ends).
   */
  predicate WellFormed(posts: Posts, edges: seq<Edge>, nextId: int) {
    && nextId >= 1
    && (forall k :: k in posts ==> 1 <= k < nextId && posts[k].id == k && RowShape(posts[k]))
    && (forall k :: k in posts && posts[k].parentId.Some? ==>
          posts[k].parentId.value in posts && !posts[posts[k].parentId.value].isReply)
    && (forall i :: 0 <= i < |edges| ==> edges[i].source in posts && edges[i].target in posts)
  }

  // ------------------------------------------------------------ row queries

  /** `SELECT ... WHERE id = ? AND deleted = 0`. */
  predicate LiveRow(posts: Posts, id: int) {
    id in posts && !posts[id].deleted
  }

  /** The files a row names: media and thumb paths that PHP does not treat as empty. */
  function FilesOf(p: Post): (r: set<string>)
    ensures forall f :: f in r <==> (p.media == Some(f) || p.thumb == Some(f)) && !Falsy(f)
  {
    (if p.media.Some? && !Falsy(p.media.value) then {p.media.value} else {})
    + (if p.thumb.Some? && !Falsy(p.thumb.value) then {p.thumb.value} else {})
  }

  /** `WHERE id = ? OR parent_id = ?`: a row and its replies. */
  function Family(posts: Posts, id: int): (r: set<int>)
    ensures forall k :: k in r <==> k in posts && (k == id || posts[k].parentId == Some(id))
  {
    set k | k in posts && (k == id || posts[k].parentId == Some(id))
  }

  /** The files of a row and of its replies (deletePostFiles, and reject_post's loop). */
  function FamilyFiles(posts: Posts, id: int): (r: set<string>)
    ensures forall f :: f in r <==> exists k :: k in Family(posts, id) && f in FilesOf(posts[k])
  {
    set k, f | k in Family(posts, id) && f in FilesOf(posts[k]) :: f
  }

  /** The own files of a row, or nothing when the id is unknown (deleteReplyFile, deleteFiles). */
  function RowFiles(posts: Posts, id: int): (r: set<string>)
    ensures id in posts ==> r == FilesOf(posts[id])
    ensures id !in posts ==> r == {}
  {
    if id in posts then FilesOf(posts[id]) else {}
  }

  /**
   * The rows a `DELETE ... WHERE id IN roots` removes once ON DELETE CASCADE
   * on parent_id has run: the roots and every row whose parent is a root.
   * Replies have no replies, so one level is the whole cascade.
   */
  function Cascade(posts: Posts, roots: set<int>): (r: set<int>)
    ensures forall k :: k in r <==> k in posts && (k in roots || (posts[k].parentId.Some? && posts[k].parentId.value in roots))
  {
    set k | k in posts && (k in roots || (posts[k].parentId.Some? && posts[k].parentId.value in roots))
  }

  /** The rows left after removing `gone`. */
  function Without(posts: Posts, gone: set<int>): (r: Posts)
    ensures forall k :: k in r <==> k in posts && k !in gone
    ensures forall k :: k in r ==> r[k] == posts[k]
  {
    map k | k in posts && k !in gone :: posts[k]
  }

  predicate Untouched(gone: set<int>, e: Edge) {
    e.source !in gone && e.target !in gone
  }

  /** The mention rows left once ON DELETE CASCADE on source_id and target_id has run. */
  function EdgesWithout(edges: seq<Edge>, gone: set<int>): (r: seq<Edge>)
    ensures forall i :: 0 <= i < |r| ==> r[i] in edges && Untouched(gone, r[i])
    ensures forall i :: 0 <= i < |edges| && Untouched(gone, edges[i]) ==> edges[i] in r
  {
    Filter(edges, e => Untouched(gone, e))
  }

  /**
   * A hard delete keeps the invariants: no reply is left without its
   * thread, and no mention edge is left pointing at a removed row.
   */
  lemma HardDeleteWellFormed(posts: Posts, edges: seq<Edge>, nextId: int, roots: set<int>)
    requires WellFormed(posts, edges, nextId)
    ensures var gone := Cascade(posts, roots);
            WellFormed(Without(posts, gone), EdgesWithout(edges, gone), nextId)
  {
    var gone := Cascade(posts, roots);
    var rest := Without(posts, gone);
    forall k | k in rest && rest[k].parentId.Some?
      ensures rest[k].parentId.value in rest && !rest[rest[k].parentId.value].isReply
    {
      var p := rest[k].parentId.value;
      assert p in posts && !posts[p].isReply;
    }
  }

  /** The rows a cascading delete removes are exactly the roots' families. */
  lemma CascadeIsFamily(posts: Posts, id: int)
    ensures Cascade(posts, {id}) == Family(posts, id)
  {
  }

  // ---------------------------------------------------------- mention rows

  /**
   * The rows registerMentions() inserts for `source`: one per extracted
   * digit string, in order, whose value names a live row. SQLite's integer
   * affinity makes "05" name post 5.
   */
  function MentionEdges(targets: seq<string>, source: int, posts: Posts, now: int): (r: seq<Edge>)
    requires forall k :: 0 <= k < |targets| ==> AllDigits(targets[k])
  {
    if targets == [] then []
    else
      var t := DigitsValue(targets[0]);
      (if LiveRow(posts, t) then [Edge(source, t, now)] else [])
      + MentionEdges(targets[1..], source, posts, now)
  }

  /**
   * Exactly the live targets get an edge: every new edge runs from `source`
   * to a live row named by one of the extracted strings, and every extracted
   * string naming a live row yields one.
   */
  lemma {:induction false} MentionEdgesSpec(targets: seq<string>, source: int, posts: Posts, now: int)
    requires forall k :: 0 <= k < |targets| ==> AllDigits(targets[k])
    ensures |MentionEdges(targets, source, posts, now)| <= |targets|
    ensures forall i :: 0 <= i < |MentionEdges(targets, source, posts, now)| ==>
              var e := MentionEdges(targets, source, posts, now)[i];
              e.source == source && e.createdAt == now && LiveRow(posts, e.target)
              && exists k :: 0 <= k < |targets| && DigitsValue(targets[k]) == e.target
    ensures forall k :: 0 <= k < |targets| && LiveRow(posts, DigitsValue(targets[k])) ==>
              Edge(source, DigitsValue(targets[k]), now) in MentionEdges(targets, source, posts, now)
  {
    if targets != [] {
      MentionEdgesSpec(targets[1..], source, posts, now);
      var t := DigitsValue(targets[0]);
      var head: seq<Edge> := if LiveRow(posts, t) then [Edge(source, t, now)] else [];
      var tail := MentionEdges(targets[1..], source, posts, now);
      assert MentionEdges(targets, source, posts, now) == head + tail;
      forall i | 0 <= i < |head + tail|
        ensures var e := (head + tail)[i];
                e.source == source && e.createdAt == now && LiveRow(posts, e.target)
                && exists k :: 0 <= k < |targets| && DigitsValue(targets[k]) == e.target
      {
        if i < |head| {
          assert DigitsValue(targets[0]) == (head + tail)[i].target;
        } else {
          var e := tail[i - |head|];
          assert (head + tail)[i] == e;
          var k :| 0 <= k < |targets[1..]| && DigitsValue(targets[1..][k]) == e.target;
          assert targets[k + 1] == targets[1..][k];
        }
      }
      forall k | 0 <= k < |targets| && LiveRow(posts, DigitsValue(targets[k]))
        ensures Edge(source, DigitsValue(targets[k]), now) in head + tail
      {
        if k > 0 {
          assert targets[k] == targets[1..][k - 1];
          assert Edge(source, DigitsValue(targets[k]), now) in tail;
        }
      }
    }
  }

  /** Every new edge starts at `source` and ends at an existing row. */
  lemma {:induction false} MentionEdgesInside(targets: seq<string>, source: int, posts: Posts, now: int)
    requires forall k :: 0 <= k < |targets| ==> AllDigits(targets[k])
    ensures forall i :: 0 <= i < |MentionEdges(targets, source, posts, now)| ==>
              MentionEdges(targets, source, posts, now)[i].source == source
              && MentionEdges(targets, source, posts, now)[i].target in posts
  {
    if targets != [] {
      MentionEdgesInside(targets[1..], source, posts, now);
    }
  }

  /** One step of the registration loop: the edges of the strings from `i` on. */
  lemma MentionEdgesStep(targets: seq<string>, i: int, source: int, posts: Posts, now: int)
    requires forall k :: 0 <= k < |targets| ==> AllDigits(targets[k])
    requires 0 <= i < |targets|
    ensures var t := DigitsValue(targets[i]);
            MentionEdges(targets[i..], source, posts, now)
            == (if LiveRow(posts, t) then [Edge(source, t, now)] else []) + MentionEdges(targets[i + 1..], source, posts, now)
  {
    assert targets[i..][1..] == targets[i + 1..];
  }

  /** The mentions a text registers: MentionEdges of extractMentions(). */
  function TextMentionEdges(text: string, source: int, posts: Posts, now: int): seq<Edge>
  {
    ExtractedDigits(text);
    MentionEdges(ExtractMentions(text), source, posts, now)
  }

  /** Appending edges between existing rows keeps the tables well formed. */
  lemma AppendEdges(posts: Posts, edges: seq<Edge>, added: seq<Edge>, nextId: int)
    requires WellFormed(posts, edges, nextId)
    requires forall i :: 0 <= i < |added| ==> added[i].source in posts && added[i].target in posts
    ensures WellFormed(posts, edges + added, nextId)
  {
    forall j | 0 <= j < |edges + added|
      ensures (edges + added)[j].source in posts && (edges + added)[j].target in posts
    {
      if j >= |edges| {
        assert (edges + added)[j] == added[j - |edges|];
      }
    }
  }

  // ------------------------------------------------------------ the tables

  /** The whole stored state at one moment. */
  datatype Tables = Tables(
    posts: Posts,
    edges: seq<Edge>,
    nextId: int,
    settings: map<string, string>,
    files: set<string>)

  class Db {
    /** `posts`, by id. */
    var posts: Posts
    /** `mentions`, in rowid order. */
    var edges: seq<Edge>
    /** The next AUTOINCREMENT id of `posts`. */
    var nextId: int
    /** `settings`: key to value. */
    var settings: map<string, string>
    /** The upload files that exist on disk. */
    var files: set<string>

    predicate Valid()
      reads this
    {
      WellFormed(posts, edges, nextId)
    }

    function State(): Tables
      reads this
    {
      Tables(posts, edges, nextId, settings, files)
    }

    /** A fresh database: empty tables, and the given files on disk. */
    constructor (existing: set<string>)
      ensures Valid()
      ensures posts == map[] && edges == [] && nextId == 1 && settings == map[] && files == existing
    {
      posts := map[];
      edges := [];
      nextId := 1;
      settings := map[];
      files := existing;
    }

    /**
     * INSERT INTO posts: the row gets the next id, which is larger than
     * every id in use. The upload processing has already written the files
     * the row names.
     */
    method Insert(row: Post) returns (id: int)
      requires Valid()
      requires RowShape(row)
      requires row.parentId.Some? ==> row.parentId.value in posts && !posts[row.parentId.value].isReply
      modifies this
      ensures Valid()
      ensures id == old(nextId) && nextId == id + 1
      ensures forall k :: k in old(posts) ==> k < id
      ensures posts == old(posts)[id := row.(id := id)]
      ensures files == old(files) + FilesOf(row)
      ensures edges == old(edges) && settings == old(settings)
    {
      id := nextId;
      posts := posts[id := row.(id := id)];
      nextId := nextId + 1;
      files := files + FilesOf(row);
    }

    /**
     * registerMentions(): for each extracted id in order, look the target
     * up (`id = ? AND deleted = 0`) and insert an edge when it is there.
     */
    method RegisterMentions(source: int, text: string, now: int)
      requires Valid() && source in posts
      modifies this
      ensures Valid()
      ensures edges == old(edges) + TextMentionEdges(text, source, posts, now)
      ensures posts == old(posts) && nextId == old(nextId)
      ensures settings == old(settings) && files == old(files)
    {
      var mentions := ExtractMentions(text);
      ExtractedDigits(text);
      var inserted: seq<Edge> := [];
      var i := 0;
      while i < |mentions|
        invariant 0 <= i <= |mentions|
        invariant inserted + MentionEdges(mentions[i..], source, posts, now)
                  == MentionEdges(mentions, source, posts, now)
        modifies {}
      {
        var target := DigitsValue(mentions[i]);
        MentionEdgesStep(mentions, i, source, posts, now);
        ghost var rest := MentionEdges(mentions[i + 1..], source, posts, now);
        ghost var head: seq<Edge> := if LiveRow(posts, target) then [Edge(source, target, now)] else [];
        assert inserted + (head + rest) == (inserted + head) + rest;
        if target in posts && !posts[target].deleted {
          inserted := inserted + [Edge(source, target, now)];
        }
        i := i + 1;
      }
      assert mentions[i..] == [];
      assert inserted == MentionEdges(mentions, source, posts, now);
      MentionEdgesInside(mentions, source, posts, now);
      AppendEdges(posts, edges, inserted, nextId);
      edges := edges + inserted;
    }

    /** `UPDATE posts SET updated_at = now WHERE id = ?`: the bump after a reply. */
    method Bump(id: int, now: int)
      requires Valid()
      modifies this
      ensures Valid()
      ensures posts == if id in old(posts) then old(posts)[id := old(posts)[id].(updatedAt := now)] else old(posts)
      ensures edges == old(edges) && nextId == old(nextId)
      ensures settings == old(settings) && files == old(files)
    {
      if id in posts {
        posts := posts[id := posts[id].(updatedAt := now)];
      }
    }

    /** `UPDATE posts SET deleted = 1 WHERE id = ?`: the only write to `deleted`. */
    method MarkDeleted(id: int)
      requires Valid()
      modifies this
      ensures Valid()
      ensures posts == if id in old(posts) then old(posts)[id := old(posts)[id].(deleted := true)] else old(posts)
      ensures edges == old(edges) && nextId == old(nextId)
      ensures settings == old(settings) && files == old(files)
    {
      if id in posts {
        posts := posts[id := posts[id].(deleted := true)];
      }
    }

    /** `UPDATE posts SET approved = 1, approved_at = now WHERE id = ?`. */
    method Approve(id: int, now: int)
      requires Valid()
      modifies this
      ensures Valid()
      ensures posts == if id in old(posts) then old(posts)[id := Approved(old(posts)[id], now)] else old(posts)
      ensures edges == old(edges) && nextId == old(nextId)
      ensures settings == old(settings) && files == old(files)
    {
      if id in posts {
        posts := posts[id := Approved(posts[id], now)];
      }
    }

    /** `UPDATE posts SET locked = 1 - locked WHERE id = ?`. */
    method ToggleLock(id: int)
      requires Valid()
      modifies this
      ensures Valid()
      ensures posts == if id in old(posts) then old(posts)[id := LockToggled(old(posts)[id])] else old(posts)
      ensures edges == old(edges) && nextId == old(nextId)
      ensures settings == old(settings) && files == old(files)
    {
      if id in posts {
        posts := posts[id := LockToggled(posts[id])];
      }
    }

    /** `UPDATE posts SET sticky = 1 - sticky WHERE id = ?`. */
    method ToggleSticky(id: int)
      requires Valid()
      modifies this
      ensures Valid()
      ensures posts == if id in old(posts) then old(posts)[id := StickyToggled(old(posts)[id])] else old(posts)
      ensures edges == old(edges) && nextId == old(nextId)
      ensures settings == old(settings) && files == old(files)
    {
      if id in posts {
        posts := posts[id := StickyToggled(posts[id])];
      }
    }

    /** `UPDATE posts SET message = ? WHERE id = ?`. */
    method SetMessage(id: int, message: string)
      requires Valid()
      modifies this
      ensures Valid()
      ensures posts == if id in old(posts) then old(posts)[id := old(posts)[id].(message := message)] else old(posts)
      ensures edges == old(edges) && nextId == old(nextId)
      ensures settings == old(settings) && files == old(files)
    {
      if id in posts {
        posts := posts[id := posts[id].(message := message)];
      }
    }

    /**
     * `DELETE FROM posts WHERE id IN roots` with foreign keys on: the roots,
     * their replies, and every mention edge touching any of them go.
     */
    method HardDelete(roots: set<int>)
      requires Valid()
      modifies this
      ensures Valid()
      ensures posts == Without(old(posts), Cascade(old(posts), roots))
      ensures edges == EdgesWithout(old(edges), Cascade(old(posts), roots))
      ensures nextId == old(nextId) && settings == old(settings) && files == old(files)
    {
      var gone := Cascade(posts, roots);
      HardDeleteWellFormed(posts, edges, nextId, roots);
      posts := Without(posts, gone);
      edges := EdgesWithout(edges, gone);
    }

    /** unlink() of each path that exists. */
    method RemoveFiles(paths: set<string>)
      modifies this
      ensures files == old(files) - paths
      ensures posts == old(posts) && edges == old(edges) && nextId == old(nextId)
      ensures settings == old(settings)
    {
      files := files - paths;
    }

    /** saveSetting(): `INSERT OR REPLACE INTO settings`, so the last save wins. */
    method SaveSetting(key: string, value: string)
      modifies this
      ensures settings == old(settings)[key := value]
      ensures posts == old(posts) && edges == old(edges) && nextId == old(nextId)
      ensures files == old(files)
    {
      settings := settings[key := value];
    }

    /** `INSERT INTO settings` of a default, only when the key is absent (b/mod.php start-up). */
    method SeedSetting(key: string, value: string)
      modifies this
      ensures settings == if key in old(settings) then old(settings) else old(settings)[key := value]
      ensures posts == old(posts) && edges == old(edges) && nextId == old(nextId)
      ensures files == old(files)
    {
      if key !in settings {
        settings := settings[key := value];
      }
    }
  }

  /** getSetting(): the stored value, or the caller's default when the key is absent. */
  function GetSetting(settings: map<string, string>, key: string, default: string): (r: string)
    ensures key in settings ==> r == settings[key]
    ensures key !in settings ==> r == default
  {
    if key in settings then settings[key] else default
  }

  /** After saving `value` under `key`, getSetting() returns it whatever the default. */
  lemma SaveThenGet(settings: map<string, string>, key: string, value: string, default: string)
    ensures GetSetting(settings[key := value], key, default) == value
  {
  }

  // ------------------------------------------------------ row transitions

  function Approved(p: Post, now: int): Post {
    p.(approved := true, approvedAt := Some(now))
  }

  function LockToggled(p: Post): Post {
    p.(locked := 1 - p.locked)
  }

  function StickyToggled(p: Post): Post {
    p.(sticky := 1 - p.sticky)
  }

  /** Toggling twice restores the row; a 0/1 flag stays 0/1; nothing but the flag changes. */
  lemma ToggleInvolution(p: Post)
    ensures LockToggled(LockToggled(p)) == p && StickyToggled(StickyToggled(p)) == p
    ensures p.locked in {0, 1} ==> LockToggled(p).locked in {0, 1} && LockToggled(p).locked != p.locked
    ensures p.sticky in {0, 1} ==> StickyToggled(p).sticky in {0, 1} && StickyToggled(p).sticky != p.sticky
    ensures LockToggled(p).(locked := p.locked) == p && StickyToggled(p).(sticky := p.sticky) == p
  {
  }

  /**
   * Approving an already approved row is not a no-op: approved_at moves to
   * the new time.
   */
  lemma ApproveRestamps(p: Post, first: int, second: int)
    requires first != second
    ensures Approved(Approved(p, first), second).approvedAt == Some(second)
    ensures Approved(Approved(p, first), second) != Approved(p, first)
  {
  }

  // ----------------------------------------------------------- backlinks

  function EdgeKey(e: Edge): Ordering.Key {
    Ordering.Key(e.createdAt, 0)
  }

  predicate IntoPublic(posts: Posts, target: int, e: Edge) {
    e.target == target && LiveRow(posts, e.source)
  }

  predicate IntoAny(target: int, e: Edge) {
    e.target == target
  }

  function Sources(edges: seq<Edge>): (r: seq<int>)
    ensures |r| == |edges| && forall i :: 0 <= i < |edges| ==> r[i] == edges[i].source
  {
    Map(edges, (e: Edge) => e.source)
  }

  /** getPostMentions() in b/index.php: edges into `target` from live rows, newest first. */
  function PublicBacklinks(edges: seq<Edge>, posts: Posts, target: int): (r: seq<Edge>)
    ensures multiset(r) == multiset(Filter(edges, e => IntoPublic(posts, target, e)))
    ensures Ordering.SortedDesc(r, EdgeKey)
  {
    Ordering.SortDesc(Filter(edges, e => IntoPublic(posts, target, e)), EdgeKey)
  }

  /** getPostMentions() in b/mod.php: every edge into `target`, deleted sources included, newest first. */
  function ModBacklinks(edges: seq<Edge>, target: int): (r: seq<Edge>)
    ensures multiset(r) == multiset(Filter(edges, e => IntoAny(target, e)))
    ensures Ordering.SortedDesc(r, EdgeKey)
  {
    Ordering.SortDesc(Filter(edges, e => IntoAny(target, e)), EdgeKey)
  }

  /**
   * The public backlinks are the moderator's backlinks minus those whose
   * source is soft-deleted.
   */
  lemma BacklinksDiffer(edges: seq<Edge>, posts: Posts, target: int, e: Edge)
    ensures e in PublicBacklinks(edges, posts, target) <==> e in ModBacklinks(edges, target) && LiveRow(posts, e.source)
  {
    var pub := Filter(edges, x => IntoPublic(posts, target, x));
    var all := Filter(edges, x => IntoAny(target, x));
    assert PublicBacklinks(edges, posts, target) == Ordering.SortDesc(pub, EdgeKey);
    assert ModBacklinks(edges, target) == Ordering.SortDesc(all, EdgeKey);
    Ordering.SortDescMembers(pub, EdgeKey, e);
    Ordering.SortDescMembers(all, EdgeKey, e);
    FilterMembers(edges, x => IntoPublic(posts, target, x), e);
    FilterMembers(edges, x => IntoAny(target, x), e);
  }

  /** getPostInfo(): id, is_reply and parent_id of a live row, for redirecting a quote link. */
  datatype PostInfo = PostInfo(id: int, isReply: bool, parentId: Option<int>)

  function GetPostInfo(posts: Posts, id: int): (r: Option<PostInfo>)
    ensures r.Some? <==> LiveRow(posts, id)
    ensures r.Some? ==> r.value == PostInfo(posts[id].id, posts[id].isReply, posts[id].parentId)
  {
    if LiveRow(posts, id) then Some(PostInfo(posts[id].id, posts[id].isReply, posts[id].parentId)) else None
  }

  /** A quote link resolves to the thread page that shows the quoted post. */
  lemma PostInfoThread(posts: Posts, edges: seq<Edge>, nextId: int, id: int)
    requires WellFormed(posts, edges, nextId) && LiveRow(posts, id)
    ensures var info := GetPostInfo(posts, id).value;
            info.id == id
            && (info.isReply ==> info.parentId.Some? && info.parentId.value in posts
                                 && !posts[info.parentId.value].isReply)
            && (!info.isReply ==> info.parentId.None?)
  {
  }
}
