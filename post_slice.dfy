/** The `post` slice of the store: the list of posts with a loading flag
    and an error, and the five reducers that update them in place. */
module PostSlice {
  import opened Backend
  import opened Seqs

  /** The value of a post's `id` property, or of the remove payload, as
      `!==` tells them apart: a missing property (`undefined`), `null`, or a
      string. */
  datatype Key = Undefined | Null | Str(s: string)

  /** A post as held in the store. `id` is the plain `id` property the
      remove reducer compares against; documents from the database carry
      `$id` instead, so for them it is `Undefined`. */
  datatype Entry = Entry(id: Key, doc: Doc)

  /** The test `post => post.id !== payload`. */
  function Other(payload: Key): Entry -> bool
  {
    (e: Entry) => e.id != payload
  }

  /** The posts `removePost` keeps. */
  function Remaining(posts: seq<Entry>, payload: Key): seq<Entry>
  {
    Filter(posts, Other(payload))
  }

  class PostState {
    var posts: seq<Entry>
    var loading: bool
    var error: Option<string>

    /** `initialState`. */
    constructor ()
      ensures posts == [] && !loading && error == None
    {
      posts, loading, error := [], false, None;
    }

    /** `setPosts`: replace the list, clear the flag and the error. */
    method SetPosts(payload: seq<Entry>)
      modifies this
      ensures posts == payload && !loading && error == None
    {
      posts := payload;
      loading := false;
      error := None;
    }

    /** `addPost`: push the payload onto the end of the list. */
    method AddPost(payload: Entry)
      modifies this
      ensures posts == old(posts) + [payload]
      ensures |posts| == |old(posts)| + 1 && posts[..|old(posts)|] == old(posts) && posts[|posts| - 1] == payload
      ensures loading == old(loading) && error == old(error)
    {
      posts := posts + [payload];
    }

    /** `removePost`: keep the posts whose `id` differs from the payload. */
    method RemovePost(payload: Key)
      modifies this
      ensures posts == Remaining(old(posts), payload)
      ensures forall i :: 0 <= i < |posts| ==> posts[i].id != payload
      ensures IsSubsequence(posts, old(posts))
      ensures loading == old(loading) && error == old(error)
    {
      RemainingNoneMatch(posts, payload);
      RemainingInOrder(posts, payload);
      posts := Remaining(posts, payload);
    }

    /** `setLoading`: only the flag changes. */
    method SetLoading(payload: bool)
      modifies this
      ensures loading == payload
      ensures posts == old(posts) && error == old(error)
    {
      loading := payload;
    }

    /** `setError`: record the error and clear the flag; the list stays. */
    method SetError(payload: Option<string>)
      modifies this
      ensures error == payload && !loading
      ensures posts == old(posts)
    {
      error := payload;
      loading := false;
    }
  }

  // ---------------------------------------------------------------------
  // What removing by id keeps

  /** No kept post has the removed id. */
  lemma RemainingNoneMatch(posts: seq<Entry>, payload: Key)
    ensures forall i :: 0 <= i < |Remaining(posts, payload)| ==> Remaining(posts, payload)[i].id != payload
  {
    FilterKept(posts, Other(payload));
  }

  /** A post is kept exactly when it was there and has a different id. */
  lemma RemainingMembers(posts: seq<Entry>, payload: Key, e: Entry)
    ensures e in Remaining(posts, payload) <==> e in posts && e.id != payload
  {
    FilterMembers(posts, Other(payload), e);
  }

  /** Each kept post keeps all its occurrences; a removed one none. */
  lemma RemainingCount(posts: seq<Entry>, payload: Key, e: Entry)
    ensures multiset(Remaining(posts, payload))[e] == if e.id != payload then multiset(posts)[e] else 0
  {
    FilterCount(posts, Other(payload), e);
  }

  /** The kept posts stay in their original order. */
  lemma RemainingInOrder(posts: seq<Entry>, payload: Key)
    ensures IsSubsequence(Remaining(posts, payload), posts)
  {
    FilterIsSubsequence(posts, Other(payload));
  }

  /** The list is unchanged exactly when no post has the id. */
  lemma RemainingUnchangedIff(posts: seq<Entry>, payload: Key)
    ensures Remaining(posts, payload) == posts <==> forall i :: 0 <= i < |posts| ==> posts[i].id != payload
  {
    if forall i :: 0 <= i < |posts| ==> posts[i].id != payload {
      FilterKeepsAll(posts, Other(payload));
    } else {
      var k :| 0 <= k < |posts| && posts[k].id == payload;
      FilterShrinks(posts, Other(payload), k);
    }
  }

  /** Removing the same id twice is removing it once. */
  lemma RemainingIdempotent(posts: seq<Entry>, payload: Key)
    ensures Remaining(Remaining(posts, payload), payload) == Remaining(posts, payload)
  {
    RemainingNoneMatch(posts, payload);
    RemainingUnchangedIff(Remaining(posts, payload), payload);
  }

  /** Removing two ids in either order gives the same list. */
  lemma RemainingCommutes(posts: seq<Entry>, a: Key, b: Key)
    ensures Remaining(Remaining(posts, a), b) == Remaining(Remaining(posts, b), a)
  {
    var both := (e: Entry) => e.id != a && e.id != b;
    FilterFilter(posts, Other(a), both);
    FilterFilter(posts, Other(b), both);
    RemainingNoneMatch(posts, a);
    RemainingNoneMatch(posts, b);
    FilterCongruent(Remaining(posts, a), Other(b), both);
    FilterCongruent(Remaining(posts, b), Other(a), both);
  }

  /** Removing after adding: the new post goes unless it has the id. */
  lemma RemainingAfterAdd(posts: seq<Entry>, e: Entry, payload: Key)
    ensures Remaining(posts + [e], payload)
         == Remaining(posts, payload) + (if e.id != payload then [e] else [])
  {
    FilterAppend(posts, [e], Other(payload));
  }

  /** Posts without an `id` property (database documents, which carry
      `$id`) are never removed by a string id, nor by `null`. */
  lemma RemainingKeepsUnkeyed(posts: seq<Entry>, payload: Key, e: Entry)
    requires e.id == Undefined && payload != Undefined
    ensures e in Remaining(posts, payload) <==> e in posts
  {
    RemainingMembers(posts, payload, e);
  }

  /** A client: add a post and remove it again by its id. The list is
      back where it was when no earlier post had that id. */
  method AddThenRemove(s: PostState, e: Entry)
    requires forall i :: 0 <= i < |s.posts| ==> s.posts[i].id != e.id
    modifies s
    ensures s.posts == old(s.posts) && s.loading == old(s.loading) && s.error == old(s.error)
  {
    ghost var before := s.posts;
    s.AddPost(e);
    s.RemovePost(e.id);
    RemainingAfterAdd(before, e, e.id);
    RemainingUnchangedIff(before, e.id);
  }
}
