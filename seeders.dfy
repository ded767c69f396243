/**
 * The comments and tags seeders: loops that build row arrays from the post and
 * user ids already in the database, followed by bulk inserts.  Each loop is
 * proved against a recursive function that builds the same rows; the
 * properties of the rows are lemmas about those functions.  The seeding time
 * `now` is a parameter.
 */
module Seeders {
  import opened Php

  /** A row handed to the `comments` insert. */
  datatype CommentRow = CommentRow(postId: nat, userId: nat, content: string, createdAt: int)

  /** A row handed to the `tags` insert, before the database gives it an id. */
  datatype NewTag = NewTag(name: string, createdAt: int)

  /** A `tags` row. */
  datatype TagRecord = TagRecord(id: nat, name: string, createdAt: int)

  /** A row handed to the `post_tag` insert. */
  datatype PostTagRow = PostTagRow(postId: nat, tagId: nat, createdAt: int)

  // ---------------------------------------------------------------------------
  // CommentsTableSeeder

  /** `$commentMap[$index] ?? ['いい。', 'ナイス。']`: the two comment texts of the post at an index. */
  function CommentTexts(index: nat): (string, string) {
    if index == 0 then ("癒される。", "きれい。")
    else if index == 1 then ("落ち着く。", "いい感じ。")
    else if index == 2 then ("あたたかい。", "雰囲気がいい。")
    else ("いい。", "ナイス。")
  }

  /** The two comment rows of the post at index i. */
  function CommentPair(postIds: seq<nat>, userIds: seq<nat>, i: nat, now: int): seq<CommentRow>
    requires i < |postIds| && userIds != []
  {
    var n := |userIds|;
    [CommentRow(postIds[i], userIds[i % n], CommentTexts(i).0, now),
     CommentRow(postIds[i], userIds[(i + 1) % n], CommentTexts(i).1, now)]
  }

  /** The comment rows of the first k posts, in order. */
  function CommentRowsUpTo(postIds: seq<nat>, userIds: seq<nat>, k: nat, now: int): seq<CommentRow>
    requires k <= |postIds| && userIds != []
  {
    if k == 0 then [] else CommentRowsUpTo(postIds, userIds, k - 1, now) + CommentPair(postIds, userIds, k - 1, now)
  }

  /**
   * Two rows per post: the i-th post's rows are at 2i and 2i+1, written by
   * users i mod n and (i+1) mod n, with its mapped texts, all at `now`.
   */
  lemma {:induction false} CommentRowsShape(postIds: seq<nat>, userIds: seq<nat>, k: nat, now: int)
    requires k <= |postIds| && userIds != []
    ensures var rows := CommentRowsUpTo(postIds, userIds, k, now);
            var n := |userIds|;
            && |rows| == 2 * k
            && forall i :: 0 <= i < k ==>
                 && rows[2 * i].postId == postIds[i] && rows[2 * i + 1].postId == postIds[i]
                 && rows[2 * i].userId == userIds[i % n] && rows[2 * i + 1].userId == userIds[(i + 1) % n]
                 && rows[2 * i].content == CommentTexts(i).0 && rows[2 * i + 1].content == CommentTexts(i).1
                 && rows[2 * i].createdAt == now && rows[2 * i + 1].createdAt == now
  {
    var rows := CommentRowsUpTo(postIds, userIds, k, now);
    CommentRowsPairs(postIds, userIds, k, now);
    forall i | 0 <= i < k
      ensures var n := |userIds|;
              && rows[2 * i].postId == postIds[i] && rows[2 * i + 1].postId == postIds[i]
              && rows[2 * i].userId == userIds[i % n] && rows[2 * i + 1].userId == userIds[(i + 1) % n]
              && rows[2 * i].content == CommentTexts(i).0 && rows[2 * i + 1].content == CommentTexts(i).1
              && rows[2 * i].createdAt == now && rows[2 * i + 1].createdAt == now
    {
      var pair := CommentPair(postIds, userIds, i, now);
      assert rows[2 * i] == pair[0] && rows[2 * i + 1] == pair[1];
    }
  }

  /** The rows at 2i and 2i+1 are the pair of the post at index i. */
  lemma {:induction false} CommentRowsPairs(postIds: seq<nat>, userIds: seq<nat>, k: nat, now: int)
    requires k <= |postIds| && userIds != []
    ensures var rows := CommentRowsUpTo(postIds, userIds, k, now);
            && |rows| == 2 * k
            && forall i :: 0 <= i < k ==>
                 rows[2 * i] == CommentPair(postIds, userIds, i, now)[0]
                 && rows[2 * i + 1] == CommentPair(postIds, userIds, i, now)[1]
  {
    if k > 0 {
      var prev := CommentRowsUpTo(postIds, userIds, k - 1, now);
      var pair := CommentPair(postIds, userIds, k - 1, now);
      CommentRowsPairs(postIds, userIds, k - 1, now);
      AppendIndex(prev, pair);
    }
  }

  /** Indexing a concatenation of rows. */
  lemma AppendIndex(prev: seq<CommentRow>, pair: seq<CommentRow>)
    ensures |prev + pair| == |prev| + |pair|
    ensures forall j :: 0 <= j < |prev| ==> (prev + pair)[j] == prev[j]
    ensures forall j :: 0 <= j < |pair| ==> (prev + pair)[|prev| + j] == pair[j]
  {
  }

  /** Every row names a seeded post and a seeded user. */
  lemma {:induction false} CommentRowsReferToSeededRows(postIds: seq<nat>, userIds: seq<nat>, k: nat, now: int)
    requires k <= |postIds| && userIds != []
    ensures forall row :: row in CommentRowsUpTo(postIds, userIds, k, now) ==> row.postId in postIds && row.userId in userIds
  {
    if k > 0 {
      CommentRowsReferToSeededRows(postIds, userIds, k - 1, now);
      var n := |userIds|;
      var pair := CommentPair(postIds, userIds, k - 1, now);
      assert pair[0].userId == userIds[(k - 1) % n] && pair[1].userId == userIds[(k - 1 + 1) % n];
      assert forall row :: row in pair ==> row == pair[0] || row == pair[1];
    }
  }

  /** Adding n does not change a residue mod n. */
  lemma ModAddModulus(x: nat, n: nat)
    requires n >= 1
    ensures (x + n) % n == x % n
  {
    var d, r := (x + n) / n, (x + n) % n;
    var d0, r0 := x / n, x % n;
    var k := d - d0 - 1;
    assert k * n == d * n - d0 * n - n;
    assert k * n == r0 - r;
  }

  lemma {:induction false} ModOfMultiple(q: nat, a: nat, n: nat)
    requires a < n
    ensures (q * n + a) % n == a
  {
    if q > 0 {
      ModOfMultiple(q - 1, a, n);
      assert q * n + a == ((q - 1) * n + a) + n;
      ModAddModulus((q - 1) * n + a, n);
    }
  }

  /** i mod n and (i + 1) mod n differ when n >= 2. */
  lemma SuccessorResidueDiffers(i: nat, n: nat)
    requires n >= 2
    ensures i % n != (i + 1) % n
  {
    var q, a := i / n, i % n;
    assert i == q * n + a;
    if a + 1 < n {
      ModOfMultiple(q, a + 1, n);
    } else {
      assert i + 1 == (q + 1) * n + 0;
      ModOfMultiple(q + 1, 0, n);
    }
  }

  /** With at least two distinct users, the two comments on a post have different authors. */
  lemma CommentAuthorsDiffer(postIds: seq<nat>, userIds: seq<nat>, now: int, i: nat)
    requires |userIds| >= 2 && i < |postIds|
    requires forall a, b :: 0 <= a < b < |userIds| ==> userIds[a] != userIds[b]
    ensures var rows := CommentRowsUpTo(postIds, userIds, |postIds|, now);
            |rows| == 2 * |postIds| && rows[2 * i].userId != rows[2 * i + 1].userId
  {
    var n := |userIds|;
    CommentRowsShape(postIds, userIds, |postIds|, now);
    var a, b := i % n, (i + 1) % n;
    SuccessorResidueDiffers(i, n);
    if a < b {
      assert userIds[a] != userIds[b];
    } else {
      assert userIds[b] != userIds[a];
    }
  }

  // ---------------------------------------------------------------------------
  // TagsTableSeeder

  /** The six tag names the seeder inserts. */
  const SeedTagNames: seq<string> := ["海", "クラゲ", "植物", "葉", "焚火", "夜"]

  /** `$postTagMap[$index] ?? ['植物']`: the tag names of the post at an index. */
  function TagSetFor(index: nat): (names: seq<string>)
    ensures forall j :: 0 <= j < |names| ==> names[j] in SeedTagNames
  {
    if index == 0 then ["海", "クラゲ"]
    else if index == 1 then ["植物", "葉"]
    else if index == 2 then ["焚火", "夜"]
    else ["植物"]
  }

  /** The rows of the `tags` insert: one per name, all at `now`. */
  function NewTags(names: seq<string>, now: int): (rows: seq<NewTag>)
    ensures |rows| == |names|
    ensures forall k :: 0 <= k < |rows| ==> rows[k] == NewTag(names[k], now)
  {
    if names == [] then [] else NewTags(names[..|names| - 1], now) + [NewTag(names[|names| - 1], now)]
  }

  /** The `tags` rows an insert adds: consecutive ids from `start`, in order. */
  function Inserted(pending: seq<NewTag>, start: nat): (rows: seq<TagRecord>)
    ensures |rows| == |pending|
    ensures forall k :: 0 <= k < |rows| ==> rows[k] == TagRecord(start + k, pending[k].name, pending[k].createdAt)
  {
    seq(|pending|, k requires 0 <= k < |pending| => TagRecord(start + k, pending[k].name, pending[k].createdAt))
  }

  /** `pluck('id', 'name')`: each name's id, a later row overriding an earlier one of the same name. */
  function IdByName(rows: seq<TagRecord>): map<string, nat> {
    if rows == [] then map[]
    else IdByName(rows[..|rows| - 1])[rows[|rows| - 1].name := rows[|rows| - 1].id]
  }

  /** A row's name looks up that row's id when no later row has the same name. */
  lemma {:induction false} IdByNameLatest(rows: seq<TagRecord>, k: nat)
    requires k < |rows|
    requires forall j :: k < j < |rows| ==> rows[j].name != rows[k].name
    ensures rows[k].name in IdByName(rows) && IdByName(rows)[rows[k].name] == rows[k].id
  {
    if k < |rows| - 1 {
      IdByNameLatest(rows[..|rows| - 1], k);
    }
  }

  /** The post_tag rows of one post: one per name of its set that the lookup resolves, in order. */
  function LinkRows(postId: nat, names: seq<string>, lookup: map<string, nat>, now: int): seq<PostTagRow> {
    if names == [] then []
    else
      var name := names[|names| - 1];
      LinkRows(postId, names[..|names| - 1], lookup, now)
      + (if name in lookup then [PostTagRow(postId, lookup[name], now)] else [])
  }

  /** The ids the lookup gives the names of a set. */
  function ResolvedIds(names: seq<string>, lookup: map<string, nat>): set<nat> {
    set name | name in names && name in lookup :: lookup[name]
  }

  /**
   * Every link row belongs to the post, carries the seeding time and the id of
   * a name of its set; a name missing from the lookup gives no row.
   */
  lemma {:induction false} LinkRowsSound(postId: nat, names: seq<string>, lookup: map<string, nat>, now: int)
    ensures var rows := LinkRows(postId, names, lookup, now);
            && |rows| <= |names|
            && forall j :: 0 <= j < |rows| ==>
                 rows[j].postId == postId && rows[j].createdAt == now && rows[j].tagId in ResolvedIds(names, lookup)
  {
    if names != [] {
      var init := names[..|names| - 1];
      LinkRowsSound(postId, init, lookup, now);
      assert ResolvedIds(init, lookup) <= ResolvedIds(names, lookup) by {
        forall name | name in init ensures name in names {
          var m :| 0 <= m < |init| && init[m] == name;
          assert names[m] == name;
        }
      }
      assert names[|names| - 1] in names;
    }
  }

  /** When every name of the set resolves, there is one row per name, in order, with that name's id. */
  lemma {:induction false} LinkRowsComplete(postId: nat, names: seq<string>, lookup: map<string, nat>, now: int)
    requires forall m :: 0 <= m < |names| ==> names[m] in lookup
    ensures var rows := LinkRows(postId, names, lookup, now);
            |rows| == |names| && forall j :: 0 <= j < |rows| ==> rows[j].tagId == lookup[names[j]]
  {
    if names != [] {
      var init := names[..|names| - 1];
      assert forall m :: 0 <= m < |init| ==> init[m] == names[m];
      LinkRowsComplete(postId, init, lookup, now);
    }
  }

  /** The post_tag rows of the first k posts, in order. */
  function PostTagRowsUpTo(postIds: seq<nat>, k: nat, lookup: map<string, nat>, now: int): seq<PostTagRow>
    requires k <= |postIds|
  {
    if k == 0 then []
    else PostTagRowsUpTo(postIds, k - 1, lookup, now) + LinkRows(postIds[k - 1], TagSetFor(k - 1), lookup, now)
  }

  /**
   * After the six tags are inserted, each of them is looked up as the row just
   * inserted, whatever the table held before: the name at position k has id
   * start + k.
   */
  lemma SeededNamesResolveToNewRows(earlier: seq<TagRecord>, start: nat, now: int)
    ensures var rows := earlier + Inserted(NewTags(SeedTagNames, now), start);
            forall k :: 0 <= k < |SeedTagNames| ==>
              SeedTagNames[k] in IdByName(rows) && IdByName(rows)[SeedTagNames[k]] == start + k
  {
    var added := Inserted(NewTags(SeedTagNames, now), start);
    var rows := earlier + added;
    forall k | 0 <= k < |SeedTagNames|
      ensures SeedTagNames[k] in IdByName(rows) && IdByName(rows)[SeedTagNames[k]] == start + k
    {
      var at := |earlier| + k;
      assert rows[at] == added[k];
      forall j | at < j < |rows|
        ensures rows[j].name != rows[at].name
      {
        assert rows[j] == added[j - |earlier|];
      }
      IdByNameLatest(rows, at);
    }
  }

  /** The seeded posts get exactly their mapped names: every name of every tag set resolves after the insert. */
  lemma EverySeedSetResolves(earlier: seq<TagRecord>, start: nat, now: int, index: nat)
    ensures var lookup := IdByName(earlier + Inserted(NewTags(SeedTagNames, now), start));
            forall m :: 0 <= m < |TagSetFor(index)| ==> TagSetFor(index)[m] in lookup
  {
    SeededNamesResolveToNewRows(earlier, start, now);
    var names := TagSetFor(index);
    forall m | 0 <= m < |names|
      ensures names[m] in IdByName(earlier + Inserted(NewTags(SeedTagNames, now), start))
    {
      var k :| 0 <= k < |SeedTagNames| && SeedTagNames[k] == names[m];
    }
  }

  /**
   * After the insert every name of every set resolves, so the first three
   * posts get two link rows each and every later post one: k posts get
   * k + min(k, 3) rows.
   */
  lemma {:induction false} SeededLinkCount(postIds: seq<nat>, k: nat, earlier: seq<TagRecord>, start: nat, now: int)
    requires k <= |postIds|
    ensures var lookup := IdByName(earlier + Inserted(NewTags(SeedTagNames, now), start));
            |PostTagRowsUpTo(postIds, k, lookup, now)| == k + (if k < 3 then k else 3)
  {
    if k > 0 {
      var lookup := IdByName(earlier + Inserted(NewTags(SeedTagNames, now), start));
      SeededLinkCount(postIds, k - 1, earlier, start, now);
      EverySeedSetResolves(earlier, start, now, k - 1);
      LinkRowsComplete(postIds[k - 1], TagSetFor(k - 1), lookup, now);
    }
  }

  // ---------------------------------------------------------------------------
  // The loops that build the row arrays

  /** CommentsTableSeeder's foreach: two rows per post, appended in post order. */
  method BuildCommentRows(postIds: seq<nat>, userIds: seq<nat>, now: int) returns (rows: seq<CommentRow>)
    requires userIds != []
    ensures rows == CommentRowsUpTo(postIds, userIds, |postIds|, now)
  {
    rows := [];
    var n := |userIds|;
    var i := 0;
    while i < |postIds|
      invariant 0 <= i <= |postIds|
      invariant rows == CommentRowsUpTo(postIds, userIds, i, now)
    {
      var userA := userIds[i % n];
      var userB := userIds[(i + 1) % n];
      var texts := CommentTexts(i);
      rows := rows + [CommentRow(postIds[i], userA, texts.0, now)];
      rows := rows + [CommentRow(postIds[i], userB, texts.1, now)];
      i := i + 1;
    }
  }

  /** TagsTableSeeder's first foreach: one pending row per name. */
  method BuildNewTags(names: seq<string>, now: int) returns (pending: seq<NewTag>)
    ensures pending == NewTags(names, now)
  {
    pending := [];
    var i := 0;
    while i < |names|
      invariant 0 <= i <= |names|
      invariant pending == NewTags(names[..i], now)
    {
      assert names[..i + 1][..i] == names[..i];
      pending := pending + [NewTag(names[i], now)];
      i := i + 1;
    }
    assert names[..|names|] == names;
  }

  /** TagsTableSeeder's inner foreach: a link row per name of the set that resolves, skipping the others. */
  method BuildLinkRows(postId: nat, names: seq<string>, lookup: map<string, nat>, now: int) returns (rows: seq<PostTagRow>)
    ensures rows == LinkRows(postId, names, lookup, now)
  {
    rows := [];
    var j := 0;
    while j < |names|
      invariant 0 <= j <= |names|
      invariant rows == LinkRows(postId, names[..j], lookup, now)
    {
      assert names[..j + 1][..j] == names[..j];
      if names[j] in lookup {
        rows := rows + [PostTagRow(postId, lookup[names[j]], now)];
      }
      j := j + 1;
    }
    assert names[..|names|] == names;
  }

  /** TagsTableSeeder's outer foreach: the link rows of every post, in post order. */
  method BuildPostTagRows(postIds: seq<nat>, lookup: map<string, nat>, now: int) returns (rows: seq<PostTagRow>)
    ensures rows == PostTagRowsUpTo(postIds, |postIds|, lookup, now)
  {
    rows := [];
    var p := 0;
    while p < |postIds|
      invariant 0 <= p <= |postIds|
      invariant rows == PostTagRowsUpTo(postIds, p, lookup, now)
    {
      var links := BuildLinkRows(postIds[p], TagSetFor(p), lookup, now);
      rows := rows + links;
      p := p + 1;
    }
  }

  // ---------------------------------------------------------------------------
  // The database the seeders read and write

  class SeedDatabase {
    /** `DB::table('posts')->pluck('id')` */
    var postIds: seq<nat>
    /** `DB::table('users')->pluck('id')` */
    var userIds: seq<nat>
    var comments: seq<CommentRow>
    var tags: seq<TagRecord>
    var nextTagId: nat
    var postTags: seq<PostTagRow>

    constructor(posts: seq<nat>, users: seq<nat>)
      ensures postIds == posts && userIds == users
      ensures comments == [] && tags == [] && postTags == []
    {
      postIds := posts;
      userIds := users;
      comments := [];
      tags := [];
      nextTagId := 1;
      postTags := [];
    }

    /** CommentsTableSeeder::run(): nothing without posts or users, otherwise two rows per post in one insert. */
    method SeedComments(now: int)
      modifies this
      ensures postIds == old(postIds) && userIds == old(userIds)
      ensures tags == old(tags) && nextTagId == old(nextTagId) && postTags == old(postTags)
      ensures postIds == [] || userIds == [] ==> comments == old(comments)
      ensures postIds != [] && userIds != [] ==>
                comments == old(comments) + CommentRowsUpTo(postIds, userIds, |postIds|, now)
    {
      if postIds == [] || userIds == [] {
        return;
      }
      var rows := BuildCommentRows(postIds, userIds, now);
      comments := comments + rows;
    }

    /**
     * TagsTableSeeder::run(): the six tags are inserted with the next ids,
     * then each post gets a link row per name of its set that the
     * name-to-id lookup resolves; the link insert happens only when there
     * are rows.
     */
    method SeedTags(now: int)
      modifies this
      ensures postIds == old(postIds) && userIds == old(userIds) && comments == old(comments)
      ensures tags == old(tags) + Inserted(NewTags(SeedTagNames, now), old(nextTagId))
      ensures nextTagId == old(nextTagId) + |SeedTagNames|
      ensures postTags == old(postTags) + PostTagRowsUpTo(postIds, |postIds|, IdByName(tags), now)
    {
      var pending := BuildNewTags(SeedTagNames, now);
      tags := tags + Inserted(pending, nextTagId);
      nextTagId := nextTagId + |pending|;
      var rows := BuildPostTagRows(postIds, IdByName(tags), now);
      if rows != [] {
        postTags := postTags + rows;
      }
    }
  }
}
