/** The blog API (src/supabase/functions/server/index.tsx): create, update,
    list, get and delete of posts kept under `blog:<id>` in a key-value
    store. Request bodies arrive parsed or not at all, the store's failures
    are a flag, and the clock and the id generator are parameters. */
module Server {
  import opened Text
  import opened Wrappers
  import opened Posts

  /** A request body's fields; a missing field is `None`. */
  datatype Body = Body(title: Option<string>, content: Option<string>, images: Option<seq<string>>, coverImage: Option<string>)

  datatype Response =
    | Success(post: Post)
    | Listed(posts: seq<Post>)
    | Done
    | BadRequest
    | NotFound
    | ServerError

  /** `blog:<id>` */
  function Key(id: string): string {
    "blog:" + id
  }

  lemma KeyInjective(a: string, b: string)
    ensures Key(a) == Key(b) <==> a == b
  {
    if Key(a) == Key(b) {
      assert a == Key(a)[5..] && b == Key(b)[5..];
    }
  }

  /** A string field is truthy when present and not empty. */
  predicate Truthy(s: Option<string>) {
    s.Some? && s.value != []
  }

  /** `!title || !content` */
  predicate MissingFields(b: Body) {
    !Truthy(b.title) || !Truthy(b.content)
  }

  /** `x || null` for a string */
  function OrNull(s: Option<string>): (r: Option<string>)
    ensures r.Some? <==> Truthy(s)
    ensures r.Some? ==> r == s
  {
    if Truthy(s) then s else None
  }

  /** `images || []` */
  function OrEmpty(images: Option<seq<string>>): seq<string> {
    if images.Some? then images.value else []
  }

  /** The post that create stores. */
  function NewPost(b: Body, id: string, created: int, updated: int): Post
    requires !MissingFields(b)
  {
    Post(id, b.title.value, b.content.value, OrEmpty(b.images), OrNull(b.coverImage), created, updated)
  }

  /** The post that update stores over `existing`. */
  function UpdatedPost(existing: Post, b: Body, now: int): (r: Post)
    requires !MissingFields(b)
    ensures r.id == existing.id && r.createdAt == existing.createdAt && r.updatedAt == now
    ensures r.title == b.title.value && r.content == b.content.value && r.images == OrEmpty(b.images)
    ensures r.coverImage == if Truthy(b.coverImage) then b.coverImage else OrNull(existing.coverImage)
  {
    existing.(title := b.title.value, content := b.content.value, images := OrEmpty(b.images),
              coverImage := if Truthy(b.coverImage) then b.coverImage else OrNull(existing.coverImage),
              updatedAt := now)
  }

  /** The list's order: newest `createdAt` first. */
  predicate NewestFirst(ps: seq<Post>) {
    forall i, j :: 0 <= i < j < |ps| ==> ps[i].createdAt >= ps[j].createdAt
  }

  /** Put `p` into a list sorted newest first, after every post at least as
      new, so that posts created at the same time keep their order. */
  function Insert(p: Post, s: seq<Post>): (r: seq<Post>)
    ensures multiset(r) == multiset(s) + multiset{p}
  {
    if s == [] then [p]
    else if s[0].createdAt >= p.createdAt then
      assert s == [s[0]] + s[1..];
      [s[0]] + Insert(p, s[1..])
    else [p] + s
  }

  /** Inserting keeps a sorted list sorted. */
  lemma {:induction false} InsertSorted(p: Post, s: seq<Post>)
    requires NewestFirst(s)
    ensures NewestFirst(Insert(p, s))
  {
    if s != [] && s[0].createdAt >= p.createdAt {
      var rest := Insert(p, s[1..]);
      assert NewestFirst(s[1..]) by {
        forall i, j | 0 <= i < j < |s| - 1 ensures s[1..][i].createdAt >= s[1..][j].createdAt {
          assert s[1..][i] == s[i + 1] && s[1..][j] == s[j + 1];
        }
      }
      InsertSorted(p, s[1..]);
      InsertBelow(p, s[1..], s[0].createdAt);
      var r := [s[0]] + rest;
      forall i, j | 0 <= i < j < |r| ensures r[i].createdAt >= r[j].createdAt {
        if i > 0 {
          assert r[i] == rest[i - 1] && r[j] == rest[j - 1];
        } else {
          assert r[j] == rest[j - 1];
        }
      }
    }
  }

  /** Inserting into posts no newer than `t` a post no newer than `t` gives
      posts no newer than `t`. */
  lemma {:induction false} InsertBelow(p: Post, s: seq<Post>, t: int)
    requires p.createdAt <= t
    requires forall k :: 0 <= k < |s| ==> s[k].createdAt <= t
    ensures forall k :: 0 <= k < |Insert(p, s)| ==> Insert(p, s)[k].createdAt <= t
  {
    if s != [] && s[0].createdAt >= p.createdAt {
      InsertBelow(p, s[1..], t);
      var r := Insert(p, s);
      forall k | 0 <= k < |r| ensures r[k].createdAt <= t {
        if k > 0 { assert r[k] == Insert(p, s[1..])[k - 1]; }
      }
    }
  }

  /** The comparator sort: `blogs.sort((a, b) => b.createdAt - a.createdAt)`,
      written as a stable insertion sort. */
  function SortNewestFirst(ps: seq<Post>): (r: seq<Post>)
    ensures multiset(r) == multiset(ps)
  {
    if ps == [] then []
    else
      var init := ps[..|ps| - 1];
      assert ps == init + [ps[|ps| - 1]];
      Insert(ps[|ps| - 1], SortNewestFirst(init))
  }

  /** The sort's result is newest first. */
  lemma {:induction false} SortSorted(ps: seq<Post>)
    ensures NewestFirst(SortNewestFirst(ps))
  {
    if ps != [] {
      SortSorted(ps[..|ps| - 1]);
      InsertSorted(ps[|ps| - 1], SortNewestFirst(ps[..|ps| - 1]));
    }
  }

  /** Every stored post sits under its own id's key. */
  predicate Keyed(kv: map<string, Post>) {
    forall k :: k in kv ==> k == Key(kv[k].id)
  }

  class Store {
    var kv: map<string, Post>

    ghost predicate Valid()
      reads this
    {
      Keyed(kv)
    }

    constructor ()
      ensures Valid() && kv == map[]
    {
      kv := map[];
    }

    /** `POST /blog`: 500 on an unreadable body, then 400 when title or
      content is missing or empty, then 500 on a store failure; otherwise the new post is stored
      under `blog:<id>` and returned. `id` is the fresh UUID, `created` and
      `updated` the two clock readings. */
    method Create(body: Option<Body>, id: string, created: int, updated: int, fault: bool) returns (r: Response)
      requires Valid()
      modifies this
      ensures Valid()
      ensures body.None? ==> r == ServerError && kv == old(kv)
      ensures body.Some? && MissingFields(body.value) ==> r == BadRequest && kv == old(kv)
      ensures body.Some? && !MissingFields(body.value) && fault ==> r == ServerError && kv == old(kv)
      ensures body.Some? && !MissingFields(body.value) && !fault ==>
                var p := NewPost(body.value, id, created, updated);
                r == Success(p) && kv == old(kv)[Key(id) := p]
    {
      if body.None? {
        return ServerError;
      }
      var b := body.value;
      if MissingFields(b) {
        return BadRequest;
      }
      if fault {
        return ServerError;
      }
      var p := NewPost(b, id, created, updated);
      kv := kv[Key(id) := p];
      r := Success(p);
    }

    /** `PUT /blog/:id`: the body is checked (500, then 400) before the
      post is looked up (404); otherwise the stored post gets the new
      fields and `updatedAt`, keeping everything else. */
    method Update(id: string, body: Option<Body>, now: int, fault: bool) returns (r: Response)
      requires Valid()
      modifies this
      ensures Valid()
      ensures body.None? ==> r == ServerError && kv == old(kv)
      ensures body.Some? && MissingFields(body.value) ==> r == BadRequest && kv == old(kv)
      ensures body.Some? && !MissingFields(body.value) && fault ==> r == ServerError && kv == old(kv)
      ensures body.Some? && !MissingFields(body.value) && !fault && Key(id) !in old(kv) ==> r == NotFound && kv == old(kv)
      ensures body.Some? && !MissingFields(body.value) && !fault && Key(id) in old(kv) ==>
                var p := UpdatedPost(old(kv)[Key(id)], body.value, now);
                r == Success(p) && kv == old(kv)[Key(id) := p]
    {
      if body.None? {
        return ServerError;
      }
      var b := body.value;
      if MissingFields(b) {
        return BadRequest;
      }
      if fault {
        return ServerError;
      }
      if Key(id) !in kv {
        return NotFound;
      }
      var p := UpdatedPost(kv[Key(id)], b, now);
      kv := kv[Key(id) := p];
      r := Success(p);
    }

    /** `getByPrefix("blog:")`: the stored posts, in the store's own order. */
    method FetchAll() returns (fetched: seq<Post>)
      requires Valid()
      ensures |fetched| == |kv|
      ensures forall k :: k in kv ==> kv[k] in fetched
      ensures forall p :: p in fetched ==> Key(p.id) in kv && kv[Key(p.id)] == p
    {
      fetched := [];
      var keys := kv.Keys;
      while keys != {}
        invariant keys <= kv.Keys
        invariant |fetched| + |keys| == |kv|
        invariant forall k :: k in kv && k !in keys ==> kv[k] in fetched
        invariant forall p :: p in fetched ==> Key(p.id) in kv && Key(p.id) !in keys && kv[Key(p.id)] == p
        decreases |keys|
      {
        var k :| k in keys;
        assert k == Key(kv[k].id);
        fetched := fetched + [kv[k]];
        keys := keys - {k};
      }
    }

    /** `GET /blogs`: every stored post exactly once, newest first; a store
      failure, or a store answer that is not an array, gives the empty
      list. */
    method List(fault: bool, notArray: bool) returns (r: Response)
      requires Valid()
      ensures fault || notArray ==> r == Listed([])
      ensures !fault && !notArray ==> r.Listed? && NewestFirst(r.posts) && |r.posts| == |kv|
      ensures !fault && !notArray ==> forall k :: k in kv ==> kv[k] in r.posts
      ensures !fault && !notArray ==> forall p :: p in r.posts ==> Key(p.id) in kv && kv[Key(p.id)] == p
    {
      if fault || notArray {
        return Listed([]);
      }
      var fetched := FetchAll();
      var sorted := SortNewestFirst(fetched);
      SortSorted(fetched);
      assert forall p :: p in sorted <==> p in fetched by {
        forall p ensures p in sorted <==> p in fetched {
          assert p in sorted <==> p in multiset(sorted);
        }
      }
      assert |sorted| == |multiset(sorted)| == |fetched|;
      r := Listed(sorted);
    }

    /** `GET /blog/:id` */
    method Get(id: string, fault: bool) returns (r: Response)
      requires Valid()
      ensures fault ==> r == ServerError
      ensures !fault && Key(id) in kv ==> r == Success(kv[Key(id)])
      ensures !fault && Key(id) !in kv ==> r == NotFound
    {
      if fault {
        return ServerError;
      }
      if Key(id) !in kv {
        return NotFound;
      }
      r := Success(kv[Key(id)]);
    }

    /** `DELETE /blog/:id`: 404 without change when absent; otherwise only
      `blog:<id>` goes. */
    method Delete(id: string, fault: bool) returns (r: Response)
      requires Valid()
      modifies this
      ensures Valid()
      ensures fault ==> r == ServerError && kv == old(kv)
      ensures !fault && Key(id) !in old(kv) ==> r == NotFound && kv == old(kv)
      ensures !fault && Key(id) in old(kv) ==> r == Done && kv == old(kv) - {Key(id)}
    {
      if fault {
        return ServerError;
      }
      if Key(id) !in kv {
        return NotFound;
      }
      kv := kv - {Key(id)};
      r := Done;
    }
  }

  /** An update after a create keeps the creation time and the id and
      refreshes the update time. */
  lemma UpdateAfterCreate(b1: Body, b2: Body, id: string, created: int, updated: int, now: int)
    requires !MissingFields(b1) && !MissingFields(b2)
    ensures var p := UpdatedPost(NewPost(b1, id, created, updated), b2, now);
            p.id == id && p.createdAt == created && p.updatedAt == now &&
            p.coverImage == (if Truthy(b2.coverImage) then b2.coverImage else OrNull(b1.coverImage))
  {
    var c := NewPost(b1, id, created, updated).coverImage;
    assert OrNull(c) == c;
  }
}
