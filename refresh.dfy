/** The refresh pipeline: `fetchUsers`, `fetchPosts` and `fetchComments`
    pull from the remote API and write one cache document each. Every remote
    request is an oracle parameter whose `None` means the request threw
    (network error, non-2xx status, or a body without the expected list). */
module Refresh {
  import opened Wrappers
  import opened Objects
  import opened Store

  /** What a refresh procedure returns to its caller, with the cache it leaves. */
  datatype Refreshed<T> = Refreshed(result: T, cache: Cache)

  // ---------------------------------------------------------------------
  // fetchUsers

  /** `fetchUsers()`; `reply` is the `data.users` of `GET /users`. A failed
      request returns `{}` and writes nothing; a successful one stores and
      returns exactly the fetched users. */
  function FetchUsers(cache: Cache, reply: Option<Users>): (r: Refreshed<Users>)
    ensures reply.None? ==> r.result == Empty() && r.cache == cache
    ensures reply.Some? ==> r.result == reply.value && r.cache == cache.(users := Some(reply.value))
    ensures r.cache.posts == cache.posts && r.cache.comments == cache.comments
  {
    match reply
    case None =>
      var none: Users := Empty();
      Refreshed(none, cache)
    case Some(users) => Refreshed(users, cache.(users := Some(users)))
  }

  /** Refreshing the users twice with the same remote answer leaves the same
      cache as refreshing once. */
  lemma {:induction false} FetchUsersIdempotent(cache: Cache, reply: Option<Users>)
    ensures FetchUsers(FetchUsers(cache, reply).cache, reply) == FetchUsers(cache, reply)
  {
  }

  // ---------------------------------------------------------------------
  // fetchPosts

  /** The posts `fetchPosts` collects: the posts of each user in `userIds`
      whose request succeeded, user after user. */
  function GatheredPosts(userIds: seq<string>, postsOf: string -> Option<seq<Post>>): (r: seq<Post>)
    ensures forall p :: p in r ==> exists u :: u in userIds && postsOf(u).Some? && p in postsOf(u).value
    decreases |userIds|
  {
    if userIds == [] then []
    else GatheredPosts(userIds[..|userIds| - 1], postsOf) + postsOf(userIds[|userIds| - 1]).GetOr([])
  }

  /** `fetchPosts()`; `postsOf(u)` is the `data.posts` of `GET /users/u/posts`.
      The loop runs over the keys of the cached `users` document in their
      enumeration order, appending to `allPosts` in place. */
  method FetchPosts(cache: Cache, postsOf: string -> Option<seq<Post>>) returns (r: Refreshed<seq<Post>>)
    ensures r.result == GatheredPosts(CachedUsers(cache).keys, postsOf)
    ensures r.cache == cache.(posts := Some(r.result))
  {
    var userIds := CachedUsers(cache).keys;
    var allPosts: seq<Post> := [];
    for i := 0 to |userIds|
      invariant allPosts == GatheredPosts(userIds[..i], postsOf)
    {
      assert userIds[..i + 1][..i] == userIds[..i];
      var reply := postsOf(userIds[i]);
      if reply.Some? {
        allPosts := allPosts + reply.value;
      }
    }
    assert userIds[..|userIds|] == userIds;
    r := Refreshed(allPosts, cache.(posts := Some(allPosts)));
  }

  /** Each user contributes independently: the posts gathered for two runs
      of users are those of the first run followed by those of the second. */
  lemma {:induction false} GatheredPostsAppend(a: seq<string>, b: seq<string>, postsOf: string -> Option<seq<Post>>)
    ensures GatheredPosts(a + b, postsOf) == GatheredPosts(a, postsOf) + GatheredPosts(b, postsOf)
    decreases |b|
  {
    if b == [] {
      assert a + b == a;
    } else {
      var b' := b[..|b| - 1];
      assert (a + b)[..|a + b| - 1] == a + b';
      GatheredPostsAppend(a, b', postsOf);
    }
  }

  /** A user whose request failed adds nothing, and the loop carries on. */
  lemma {:induction false} FailedUserAddsNothing(a: seq<string>, u: string, b: seq<string>, postsOf: string -> Option<seq<Post>>)
    requires postsOf(u).None?
    ensures GatheredPosts(a + [u] + b, postsOf) == GatheredPosts(a + b, postsOf)
  {
    GatheredPostsAppend(a + [u], b, postsOf);
    GatheredPostsAppend(a, [u], postsOf);
    GatheredPostsAppend(a, b, postsOf);
    assert [u][..0] == [];
  }

  /** A post is gathered exactly when some listed user's request succeeded
      and returned it. */
  lemma {:induction false} GatheredPostsFrom(userIds: seq<string>, postsOf: string -> Option<seq<Post>>, p: Post)
    ensures p in GatheredPosts(userIds, postsOf) <==>
      exists i :: 0 <= i < |userIds| && postsOf(userIds[i]).Some? && p in postsOf(userIds[i]).value
    decreases |userIds|
  {
    if userIds != [] {
      var n := |userIds| - 1;
      var prefix := userIds[..n];
      GatheredPostsFrom(prefix, postsOf, p);
      if p in GatheredPosts(userIds, postsOf) && p !in GatheredPosts(prefix, postsOf) {
        assert postsOf(userIds[n]).Some? && p in postsOf(userIds[n]).value;
      }
      if exists i :: 0 <= i < |userIds| && postsOf(userIds[i]).Some? && p in postsOf(userIds[i]).value {
        var i :| 0 <= i < |userIds| && postsOf(userIds[i]).Some? && p in postsOf(userIds[i]).value;
        if i < n {
          assert prefix[i] == userIds[i];
        }
      }
    }
  }

  // ---------------------------------------------------------------------
  // fetchComments

  /** The map `fetchComments` builds. `commentsOf(i, id)` is the reply to the
      `i`-th request, `GET /posts/id/comments` for the `i`-th cached post; an
      answered request sets `commentCounts[id]` to the number of comments. */
  function CountedComments<C>(posts: seq<Post>, commentsOf: (nat, int) -> Option<seq<C>>): (counts: CommentCounts)
    ensures |counts| <= |posts|
    decreases |posts|
  {
    if posts == [] then map[]
    else
      var n := |posts| - 1;
      var counts := CountedComments(posts[..n], commentsOf);
      match commentsOf(n, posts[n].id)
      case None => counts
      case Some(comments) => counts[posts[n].id := |comments|]
  }

  /** `fetchComments()`: the loop over the cached posts, assigning
      `commentCounts[post.id]` in place. */
  method FetchComments<C>(cache: Cache, commentsOf: (nat, int) -> Option<seq<C>>) returns (r: Refreshed<CommentCounts>)
    ensures r.result == CountedComments(CachedPosts(cache), commentsOf)
    ensures r.cache == cache.(comments := Some(r.result))
  {
    var posts := CachedPosts(cache);
    var commentCounts: CommentCounts := map[];
    for i := 0 to |posts|
      invariant commentCounts == CountedComments(posts[..i], commentsOf)
    {
      assert posts[..i + 1][..i] == posts[..i];
      var reply := commentsOf(i, posts[i].id);
      if reply.Some? {
        commentCounts := commentCounts[posts[i].id := |reply.value|];
      }
    }
    assert posts[..|posts|] == posts;
    r := Refreshed(commentCounts, cache.(comments := Some(commentCounts)));
  }

  /** The map has a key exactly for each post id with an answered request. */
  lemma {:induction false} CountedCommentsKeys<C>(posts: seq<Post>, commentsOf: (nat, int) -> Option<seq<C>>, id: int)
    ensures id in CountedComments(posts, commentsOf) <==>
      exists i :: 0 <= i < |posts| && posts[i].id == id && commentsOf(i, id).Some?
    decreases |posts|
  {
    if posts != [] {
      var n := |posts| - 1;
      var prefix := posts[..n];
      CountedCommentsKeys(prefix, commentsOf, id);
      if exists i :: 0 <= i < |posts| && posts[i].id == id && commentsOf(i, id).Some? {
        var i :| 0 <= i < |posts| && posts[i].id == id && commentsOf(i, id).Some?;
        if i < n {
          assert prefix[i] == posts[i];
        }
      }
    }
  }

  /** For a post id that occurs more than once, the last answered request
      decides the count: the value is the number of comments of some answered
      request for that id, and no later request for it was answered. */
  lemma {:induction false} CountedCommentsLastWins<C>(posts: seq<Post>, commentsOf: (nat, int) -> Option<seq<C>>, id: int)
    requires id in CountedComments(posts, commentsOf)
    ensures exists i :: && 0 <= i < |posts| && posts[i].id == id && commentsOf(i, id).Some?
                        && CountedComments(posts, commentsOf)[id] == |commentsOf(i, id).value|
                        && forall j :: i < j < |posts| && posts[j].id == id ==> commentsOf(j, id).None?
    decreases |posts|
  {
    var n := |posts| - 1;
    var prefix := posts[..n];
    if posts[n].id == id && commentsOf(n, id).Some? {
      assert CountedComments(posts, commentsOf)[id] == |commentsOf(n, id).value|;
    } else {
      assert id in CountedComments(prefix, commentsOf);
      assert CountedComments(prefix, commentsOf)[id] == CountedComments(posts, commentsOf)[id];
      CountedCommentsLastWins(prefix, commentsOf, id);
      var i :| && 0 <= i < |prefix| && prefix[i].id == id && commentsOf(i, id).Some?
               && CountedComments(prefix, commentsOf)[id] == |commentsOf(i, id).value|
               && forall j :: i < j < |prefix| && prefix[j].id == id ==> commentsOf(j, id).None?;
      assert posts[i] == prefix[i];
      forall j | i < j < |posts| && posts[j].id == id ensures commentsOf(j, id).None? {
        if j < n {
          assert prefix[j] == posts[j];
        }
      }
    }
  }

  // ---------------------------------------------------------------------
  // The scheduled refresh

  /** One run of the hourly job: `fetchUsers`, then `fetchPosts`, then
      `fetchComments`, each awaited before the next starts. Posts are
      gathered for the users just cached, and comments counted for the posts
      just cached, so every counted id is the id of a cached post. */
  method RefreshCycle<C>(cache: Cache, usersReply: Option<Users>, postsOf: string -> Option<seq<Post>>,
                         commentsOf: (nat, int) -> Option<seq<C>>) returns (c: Cache)
    ensures c.users == if usersReply.Some? then usersReply else cache.users
    ensures c.posts == Some(GatheredPosts(CachedUsers(c).keys, postsOf))
    ensures c.comments == Some(CountedComments(CachedPosts(c), commentsOf))
    ensures forall id :: id in CachedComments(c) ==> exists p :: p in CachedPosts(c) && p.id == id
  {
    var afterUsers := FetchUsers(cache, usersReply).cache;
    var afterPosts := FetchPosts(afterUsers, postsOf);
    var afterComments := FetchComments(afterPosts.cache, commentsOf);
    c := afterComments.cache;
    forall id | id in CachedComments(c) ensures exists p :: p in CachedPosts(c) && p.id == id {
      CountedCommentsKeys(CachedPosts(c), commentsOf, id);
      var i :| 0 <= i < |CachedPosts(c)| && CachedPosts(c)[i].id == id && commentsOf(i, id).Some?;
      assert CachedPosts(c)[i] in CachedPosts(c);
    }
  }
}
