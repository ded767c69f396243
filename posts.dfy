/**
 * PostService over an in-memory database: the `posts`, `tags`, `post_tag` and
 * `comments` tables are fields of the service, and its operations update them
 * as the Eloquent calls of the service do.
 */
module Posts {
  import opened Php
  import opened Validation
  import opened TagList
  import opened PostModel

  /** The `tags` table as name to id, with the next auto-increment id. */
  datatype TagTable = TagTable(ids: map<string, nat>, nextId: nat)

  /** Tag ids are below the next id and no two names share one. */
  predicate TagTableValid(t: TagTable) {
    && (forall n :: n in t.ids ==> t.ids[n] < t.nextId)
    && (forall n, m :: n in t.ids && m in t.ids && n != m ==> t.ids[n] != t.ids[m])
  }

  /** Tag::firstOrCreate(['name' => name]): the existing row's id, or a new row with the next id. */
  function FirstOrCreate(t: TagTable, name: string): (r: (TagTable, nat))
    ensures name in r.0.ids && r.0.ids[name] == r.1
    ensures r.0.ids.Keys == t.ids.Keys + {name}
    ensures forall n :: n in t.ids ==> r.0.ids[n] == t.ids[n]
    ensures name in t.ids ==> r.0 == t
    ensures name !in t.ids ==> r.0.nextId == t.nextId + 1 && r.1 == t.nextId
    ensures TagTableValid(t) ==> TagTableValid(r.0)
  {
    if name in t.ids then (t, t.ids[name])
    else (TagTable(t.ids[name := t.nextId], t.nextId + 1), t.nextId)
  }

  /** firstOrCreate over the names in order: the final table and the id of each name. */
  function ResolveAll(t: TagTable, names: seq<string>): (TagTable, seq<nat>)
    decreases |names|
  {
    if names == [] then (t, [])
    else
      var prev := ResolveAll(t, names[..|names| - 1]);
      var step := FirstOrCreate(prev.0, names[|names| - 1]);
      (step.0, prev.1 + [step.1])
  }

  /** Resolving keeps the table valid, keeps existing ids, and gives new names fresh ids. */
  lemma {:induction false} ResolveAllFresh(t: TagTable, names: seq<string>)
    requires TagTableValid(t)
    ensures var r := ResolveAll(t, names);
            && TagTableValid(r.0)
            && t.nextId <= r.0.nextId
            && (forall n :: n in t.ids ==> n in r.0.ids && r.0.ids[n] == t.ids[n])
            && (forall n :: n in r.0.ids && n !in t.ids ==> t.nextId <= r.0.ids[n])
    decreases |names|
  {
    if names != [] {
      ResolveAllFresh(t, names[..|names| - 1]);
    }
  }

  /** Resolving gives one id per name: the id the final table holds for that name. */
  lemma {:induction false} ResolveAllIds(t: TagTable, names: seq<string>)
    ensures var r := ResolveAll(t, names);
            && |r.1| == |names|
            && (forall i :: 0 <= i < |names| ==> names[i] in r.0.ids && r.0.ids[names[i]] == r.1[i])
    decreases |names|
  {
    if names != [] {
      var init := names[..|names| - 1];
      ResolveAllIds(t, init);
      var r := ResolveAll(t, names);
      forall i | 0 <= i < |names| - 1 ensures names[i] in r.0.ids && r.0.ids[names[i]] == r.1[i] {
        assert names[i] == init[i];
      }
    }
  }

  /** The final table names exactly the old tags and the resolved names. */
  lemma {:induction false} ResolveAllKeys(t: TagTable, names: seq<string>)
    ensures forall n :: n in ResolveAll(t, names).0.ids <==> n in t.ids || n in names
    decreases |names|
  {
    if names != [] {
      var init := names[..|names| - 1];
      var last := names[|names| - 1];
      ResolveAllKeys(t, init);
      assert names == init + [last];
    }
  }

  /** Exactly one row was added per name that was not a tag yet. */
  lemma {:induction false} ResolveAllCount(t: TagTable, names: seq<string>)
    ensures var r := ResolveAll(t, names);
            r.0.nextId == t.nextId + |r.0.ids.Keys - t.ids.Keys|
    decreases |names|
  {
    if names != [] {
      var init := names[..|names| - 1];
      var last := names[|names| - 1];
      ResolveAllCount(t, init);
      ResolveAllKeys(t, init);
      var prev := ResolveAll(t, init).0;
      var next := ResolveAll(t, names).0;
      if last !in prev.ids {
        assert last !in t.ids.Keys;
        NewKeysGrow(t.ids.Keys, prev.ids.Keys, last);
      }
    }
  }

  /** Adding a key that is neither old nor already added adds one to the added keys. */
  lemma NewKeysGrow(initial: set<string>, keys: set<string>, x: string)
    requires x !in keys && x !in initial
    ensures |(keys + {x}) - initial| == |keys - initial| + 1
  {
    assert (keys + {x}) - initial == (keys - initial) + {x};
  }

  /**
   * Resolving names gives one id per name, the id the final table holds for
   * it; existing tags keep their ids; the new rows are exactly the new names,
   * one each, with fresh ids.
   */
  lemma ResolveAllSpec(t: TagTable, names: seq<string>)
    requires TagTableValid(t)
    ensures var r := ResolveAll(t, names);
            && TagTableValid(r.0)
            && |r.1| == |names|
            && (forall i :: 0 <= i < |names| ==> names[i] in r.0.ids && r.0.ids[names[i]] == r.1[i])
            && (forall n :: n in r.0.ids <==> n in t.ids || n in names)
            && (forall n :: n in t.ids ==> r.0.ids[n] == t.ids[n])
            && (forall n :: n in r.0.ids && n !in t.ids ==> t.nextId <= r.0.ids[n])
            && r.0.nextId == t.nextId + |r.0.ids.Keys - t.ids.Keys|
  {
    ResolveAllFresh(t, names);
    ResolveAllIds(t, names);
    ResolveAllKeys(t, names);
    ResolveAllCount(t, names);
  }

  /** When every name is already a tag, resolving looks each up and adds nothing. */
  lemma {:induction false} ResolveAllPresent(t: TagTable, names: seq<string>)
    requires forall i :: 0 <= i < |names| ==> names[i] in t.ids
    ensures ResolveAll(t, names).0 == t
    ensures |ResolveAll(t, names).1| == |names|
    ensures forall i :: 0 <= i < |names| ==> ResolveAll(t, names).1[i] == t.ids[names[i]]
    decreases |names|
  {
    if names != [] {
      var init := names[..|names| - 1];
      ResolveAllPresent(t, init);
    }
  }

  /** resolveTagIds is idempotent: a second run on the same names gives the same ids and adds no row. */
  lemma ResolveAllIdempotent(t: TagTable, names: seq<string>)
    requires TagTableValid(t)
    ensures var r := ResolveAll(t, names);
            ResolveAll(r.0, names) == r
  {
    var r := ResolveAll(t, names);
    ResolveAllSpec(t, names);
    ResolveAllPresent(r.0, names);
    var again := ResolveAll(r.0, names);
    assert again.1 == r.1;
  }

  /** The names resolveTagIds resolves: none for a falsy or null list. */
  function RawTagNames(raw: Option<string>): seq<string> {
    if Truthy(raw) then TagNames(raw.value) else []
  }

  /** The set of tag ids `sync` leaves on a post. */
  function IdSet(ids: seq<nat>): set<nat> {
    set i | 0 <= i < |ids| :: ids[i]
  }

  /** `$validated['content'] ?? null` */
  function ContentOf(validated: Input): Option<string> {
    if "content" in validated && validated["content"].Text? then Some(validated["content"].s) else None
  }

  /** The uploaded image, when `image` is present and truthy (a falsy string or null means no image). */
  function ImageOf(validated: Input): Option<UploadedFile> {
    if "image" in validated && validated["image"].File? then Some(validated["image"].file) else None
  }

  /** `$validated['tags'] ?? null` */
  function TagsOf(validated: Input): Option<string> {
    if "tags" in validated && validated["tags"].Text? then Some(validated["tags"].s) else None
  }

  /**
   * What create() can read without failing: content and tags are strings or
   * null, and an image that PHP considers true is an uploaded file.
   */
  predicate CreateInput(validated: Input) {
    && ("content" in validated ==> !validated["content"].File?)
    && ("image" in validated && validated["image"].Text? ==> FalsyString(validated["image"].s))
    && ("tags" in validated ==> !validated["tags"].File?)
  }

  /** The shape update() reads: content is given as a string or null, tags (if given) a string or null. */
  predicate UpdateInput(validated: Input) {
    && "content" in validated && !validated["content"].File?
    && ("tags" in validated ==> !validated["tags"].File?)
  }

  /** Every row of a table keyed by id carries its own key. */
  predicate KeyedPosts(posts: map<nat, Post>) {
    forall id :: id in posts ==> posts[id].id == id
  }

  /** The rows with ids below n, in id order (the table as a query reads it before ordering). */
  function Rows(posts: map<nat, Post>, n: nat): (r: seq<Post>)
    requires KeyedPosts(posts)
    ensures forall p :: p in r <==> p in posts.Values && p.id < n
    ensures forall i, j :: 0 <= i < j < |r| ==> r[i].id < r[j].id
    ensures forall i :: 0 <= i < |r| ==> r[i].id < n
  {
    if n == 0 then []
    else
      var prev := Rows(posts, n - 1);
      var r := prev + (if n - 1 in posts then [posts[n - 1]] else []);
      assert forall p :: p in posts.Values ==> posts[p.id] == p;
      r
  }

  /** The posts whose content contains the keyword (`content LIKE '%keyword%'`); a null content never matches. */
  function Matching(ps: seq<Post>, keyword: string): (r: seq<Post>)
    ensures forall p :: p in r <==> p in ps && p.content.Some? && ContainsSubstring(p.content.value, keyword)
    ensures |r| <= |ps|
  {
    if ps == [] then []
    else if ps[0].content.Some? && ContainsSubstring(ps[0].content.value, keyword) then [ps[0]] + Matching(ps[1..], keyword)
    else Matching(ps[1..], keyword)
  }

  /** Ordered by created_at, newest first. */
  predicate NewestFirst(ps: seq<Post>) {
    forall i, j :: 0 <= i < j < |ps| ==> ps[i].createdAt >= ps[j].createdAt
  }

  /** Inserts p into a newest-first list before the first post that is older. */
  function InsertNewest(p: Post, ps: seq<Post>): seq<Post> {
    if ps == [] then [p]
    else if p.createdAt >= ps[0].createdAt then [p] + ps
    else [ps[0]] + InsertNewest(p, ps[1..])
  }

  /** Insertion adds no post newer than the bound all its inputs respect. */
  lemma {:induction false} InsertNewestBounded(p: Post, ps: seq<Post>, bound: int)
    requires p.createdAt <= bound
    requires forall i :: 0 <= i < |ps| ==> ps[i].createdAt <= bound
    ensures forall i :: 0 <= i < |InsertNewest(p, ps)| ==> InsertNewest(p, ps)[i].createdAt <= bound
  {
    if ps != [] && p.createdAt < ps[0].createdAt {
      InsertNewestBounded(p, ps[1..], bound);
    }
  }

  /** Insertion keeps the list newest first. */
  lemma {:induction false} InsertNewestSorted(p: Post, ps: seq<Post>)
    requires NewestFirst(ps)
    ensures NewestFirst(InsertNewest(p, ps))
  {
    if ps != [] && p.createdAt < ps[0].createdAt {
      var rest := InsertNewest(p, ps[1..]);
      InsertNewestSorted(p, ps[1..]);
      InsertNewestBounded(p, ps[1..], ps[0].createdAt);
      var r := [ps[0]] + rest;
      forall i, j | 0 <= i < j < |r| ensures r[i].createdAt >= r[j].createdAt {
        assert r[j] == rest[j - 1];
        if i > 0 { assert r[i] == rest[i - 1]; }
      }
    }
  }

  /** Insertion adds exactly p. */
  lemma {:induction false} InsertNewestPermutes(p: Post, ps: seq<Post>)
    ensures multiset(InsertNewest(p, ps)) == multiset(ps) + multiset{p}
  {
    if ps != [] && p.createdAt < ps[0].createdAt {
      InsertNewestPermutes(p, ps[1..]);
      assert ps == [ps[0]] + ps[1..];
    }
  }

  /** `orderByDesc('created_at')`, as an insertion sort. */
  function SortNewestFirst(ps: seq<Post>): seq<Post> {
    if ps == [] then [] else InsertNewest(ps[0], SortNewestFirst(ps[1..]))
  }

  /** Sorting gives a permutation of the posts, newest first. */
  lemma {:induction false} SortNewestFirstSpec(ps: seq<Post>)
    ensures NewestFirst(SortNewestFirst(ps))
    ensures multiset(SortNewestFirst(ps)) == multiset(ps)
  {
    if ps != [] {
      SortNewestFirstSpec(ps[1..]);
      InsertNewestSorted(ps[0], SortNewestFirst(ps[1..]));
      InsertNewestPermutes(ps[0], SortNewestFirst(ps[1..]));
      assert ps == [ps[0]] + ps[1..];
    }
  }

  /** A keyword with no LIKE wildcard or escape character, so that LIKE '%keyword%' is a plain substring test. */
  predicate NoWildcards(keyword: string) {
    '%' !in keyword && '_' !in keyword && '\\' !in keyword
  }

  class PostService {
    /** `posts`, by id. */
    var posts: map<nat, Post>
    /** `tags` */
    var tags: TagTable
    /** `post_tag`: the tag ids linked to each post id. */
    var postTags: map<nat, set<nat>>
    /** `comments`, by id. */
    var comments: map<nat, Comment>
    var nextPostId: nat
    var nextCommentId: nat

    /** Every row carries its key, and auto-increment ids are below the next id. */
    ghost predicate Valid()
      reads this
    {
      && TagTableValid(tags)
      && KeyedPosts(posts)
      && (forall id :: id in posts ==> id < nextPostId)
      && (forall id :: id in comments ==> comments[id].id == id && id < nextCommentId)
    }

    constructor()
      ensures Valid()
      ensures posts == map[] && tags == TagTable(map[], 1) && postTags == map[] && comments == map[]
    {
      posts := map[];
      tags := TagTable(map[], 1);
      postTags := map[];
      comments := map[];
      nextPostId := 1;
      nextCommentId := 1;
    }

    /** Tag::firstOrCreate on the tags table. */
    method FirstOrCreateTag(name: string) returns (id: nat)
      modifies this`tags
      ensures (tags, id) == FirstOrCreate(old(tags), name)
    {
      if name in tags.ids {
        id := tags.ids[name];
      } else {
        id := tags.nextId;
        tags := TagTable(tags.ids[name := id], tags.nextId + 1);
      }
    }

    /** resolveTagIds($rawTags): the ids of the list's tag names, creating the missing tags. */
    method ResolveTagIds(raw: Option<string>) returns (ids: seq<nat>)
      requires Valid()
      modifies this`tags
      ensures Valid()
      ensures (tags, ids) == ResolveAll(old(tags), RawTagNames(raw))
    {
      ids := [];
      if Truthy(raw) {
        var names := TagNames(raw.value);
        if names != [] {
          ResolveAllFresh(tags, names);
          ids := FirstOrCreateEach(names);
        }
      }
    }

    /** The loop of resolveTagIds: firstOrCreate on each name in turn, collecting the ids. */
    method FirstOrCreateEach(names: seq<string>) returns (ids: seq<nat>)
      modifies this`tags
      ensures (tags, ids) == ResolveAll(old(tags), names)
    {
      ids := [];
      var i := 0;
      while i < |names|
        invariant 0 <= i <= |names|
        invariant (tags, ids) == ResolveAll(old(tags), names[..i])
      {
        var id := FirstOrCreateTag(names[i]);
        assert names[..i + 1][..i] == names[..i];
        ids := ids + [id];
        i := i + 1;
      }
      assert names[..i] == names;
    }

    /** $post->tags()->sync($ids): the post's tag links become exactly these ids. */
    method Sync(postId: nat, ids: seq<nat>)
      modifies this
      ensures postTags == old(postTags)[postId := IdSet(ids)]
      ensures posts == old(posts) && tags == old(tags) && comments == old(comments)
      ensures nextPostId == old(nextPostId) && nextCommentId == old(nextCommentId)
    {
      postTags := postTags[postId := IdSet(ids)];
    }

    /**
     * create($user, $validated): inserts a post owned by the author with the
     * given content (or null) and, only when an image is uploaded, its bytes and
     * MIME type; then links it to the tags its `tags` list names.
     */
    method Create(author: nat, validated: Input, now: int) returns (post: Post)
      requires Valid()
      requires CreateInput(validated)
      modifies this
      ensures Valid()
      ensures post.id == old(nextPostId) && post.id !in old(posts)
      ensures post.userId == author && post.content == ContentOf(validated) && post.createdAt == now
      ensures ImageOf(validated).Some? ==>
                post.imageData == Some(ImageOf(validated).value.bytes) && post.imageMime == Some(ImageOf(validated).value.mime)
      ensures ImageOf(validated).None? ==> post.imageData == None && post.imageMime == None
      ensures posts == old(posts)[post.id := post]
      ensures var r := ResolveAll(old(tags), RawTagNames(TagsOf(validated)));
              tags == r.0 && postTags == old(postTags)[post.id := IdSet(r.1)]
      ensures !Truthy(TagsOf(validated)) ==> tags == old(tags) && postTags[post.id] == {}
      ensures comments == old(comments) && nextCommentId == old(nextCommentId)
    {
      var imageData: Option<seq<byte>> := None;
      var imageMime: Option<string> := None;
      if "image" in validated && validated["image"].File? {
        imageData := Some(validated["image"].file.bytes);
        imageMime := Some(validated["image"].file.mime);
      }
      post := Post(nextPostId, author, ContentOf(validated), imageData, imageMime, now);
      posts := posts[post.id := post];
      nextPostId := nextPostId + 1;
      var ids := ResolveTagIds(TagsOf(validated));
      Sync(post.id, ids);
    }

    /**
     * update($post, $validated): replaces the content; re-links the tags only
     * when the input has a `tags` key (a null list clears them), and otherwise
     * leaves the links as they were.
     */
    method Update(id: nat, validated: Input) returns (post: Post)
      requires Valid() && id in posts
      requires UpdateInput(validated)
      modifies this
      ensures Valid()
      ensures post == old(posts)[id].(content := ContentOf(validated))
      ensures posts == old(posts)[id := post]
      ensures "tags" in validated ==>
                var r := ResolveAll(old(tags), RawTagNames(TagsOf(validated)));
                tags == r.0 && postTags == old(postTags)[id := IdSet(r.1)]
      ensures "tags" !in validated ==> tags == old(tags) && postTags == old(postTags)
      ensures comments == old(comments) && nextPostId == old(nextPostId) && nextCommentId == old(nextCommentId)
    {
      post := posts[id].(content := ContentOf(validated));
      posts := posts[id := post];
      if "tags" in validated {
        var ids := ResolveTagIds(TagsOf(validated));
        Sync(id, ids);
      }
    }

    /**
     * delete($post): removes exactly that post and returns it as it was.  The
     * `comments` and `post_tag` rows that refer to it are left in place: the
     * model assumes no foreign key on them constrains the post row.
     */
    method Delete(id: nat) returns (snapshot: Post)
      requires Valid() && id in posts
      modifies this
      ensures Valid()
      ensures snapshot == old(posts)[id]
      ensures posts == old(posts) - {id}
      ensures tags == old(tags) && postTags == old(postTags) && comments == old(comments)
      ensures nextPostId == old(nextPostId) && nextCommentId == old(nextCommentId)
    {
      snapshot := posts[id];
      posts := posts - {id};
    }

    /** createComment($post, $user, $content): adds one comment on that post by that user. */
    method CreateComment(postId: nat, author: nat, content: string, now: int) returns (comment: Comment)
      requires Valid() && postId in posts
      modifies this
      ensures Valid()
      ensures comment == Comment(old(nextCommentId), postId, author, content, now)
      ensures comment.id !in old(comments)
      ensures comments == old(comments)[comment.id := comment]
      ensures posts == old(posts) && tags == old(tags) && postTags == old(postTags)
      ensures nextPostId == old(nextPostId)
    {
      comment := Comment(nextCommentId, postId, author, content, now);
      comments := comments[comment.id := comment];
      nextCommentId := nextCommentId + 1;
    }

    /** deleteComment($comment): removes exactly that comment and returns it. */
    method DeleteComment(id: nat) returns (comment: Comment)
      requires Valid() && id in comments
      modifies this
      ensures Valid()
      ensures comment == old(comments)[id]
      ensures comments == old(comments) - {id}
      ensures posts == old(posts) && tags == old(tags) && postTags == old(postTags)
      ensures nextPostId == old(nextPostId) && nextCommentId == old(nextCommentId)
    {
      comment := comments[id];
      comments := comments - {id};
    }

    /** getAll(): every post exactly once, newest first. */
    function GetAll(): (r: seq<Post>)
      requires Valid()
      reads this
      ensures forall p :: p in r <==> p in posts.Values
      ensures multiset(r) == multiset(Rows(posts, nextPostId)) && NewestFirst(r)
    {
      var rows := Rows(posts, nextPostId);
      SortNewestFirstSpec(rows);
      var r := SortNewestFirst(rows);
      assert forall p :: p in r <==> p in rows by {
        forall p ensures p in r <==> p in rows {
          assert p in r <==> p in multiset(r);
        }
      }
      r
    }

    /**
     * search($keyword): nothing for a null or falsy keyword; otherwise exactly
     * the posts whose content contains it, newest first.
     */
    function Search(keyword: Option<string>): (r: seq<Post>)
      requires Valid()
      requires keyword.Some? ==> NoWildcards(keyword.value)
      reads this
      ensures !Truthy(keyword) ==> r == []
      ensures Truthy(keyword) ==> multiset(r) == multiset(Matching(Rows(posts, nextPostId), keyword.value)) && NewestFirst(r)
      ensures forall p :: p in r <==>
                Truthy(keyword) && p in posts.Values && p.content.Some? && ContainsSubstring(p.content.value, keyword.value)
    {
      if !Truthy(keyword) then []
      else
        var matching := Matching(Rows(posts, nextPostId), keyword.value);
        SortNewestFirstSpec(matching);
        var r := SortNewestFirst(matching);
        assert forall p :: p in r <==> p in matching by {
          forall p ensures p in r <==> p in matching {
            assert p in r <==> p in multiset(r);
          }
        }
        r
    }
  }
}
