/** Worked examples of the queries on small caches. */
module Scenarios {
  import opened Wrappers
  import opened Objects
  import opened Sorting
  import opened Store
  import opened Queries
  import opened Refresh

  const PostA1 := Post(1, Some("a"), "")
  const PostA2 := Post(2, Some("a"), "")
  const PostB3 := Post(3, Some("b"), "")

  /** Two posts by user `a`, then one by user `b`. */
  function ThreePosts(a: string, b: string): seq<Post> {
    [Post(1, Some(a), ""), Post(2, Some(a), ""), Post(3, Some(b), "")]
  }

  /** The first post opens the count of `a`. */
  lemma {:induction false} TallyOne(a: string, b: string)
    ensures Tally(ThreePosts(a, b)[..1]).keys == [a]
    ensures Tally(ThreePosts(a, b)[..1]).Get(a) == Some(1)
  {
    var posts := ThreePosts(a, b)[..1];
    assert posts[..0] == [];
    TallyStep(posts);
  }

  /** The second post by `a` raises its count in place. */
  lemma {:induction false} TallyTwo(a: string, b: string)
    ensures Tally(ThreePosts(a, b)[..2]).keys == [a]
    ensures Tally(ThreePosts(a, b)[..2]).Get(a) == Some(2)
  {
    var posts := ThreePosts(a, b)[..2];
    assert posts[..1] == ThreePosts(a, b)[..1];
    TallyStep(posts);
    TallyOne(a, b);
  }

  /** Two posts by `a` and one by a different user `b` give `a` two posts and
      `b` one, in first-seen order. */
  lemma {:induction false} TallyExample(a: string, b: string)
    requires a != b
    ensures Tally(ThreePosts(a, b)).keys == [a, b]
    ensures Tally(ThreePosts(a, b)).Get(a) == Some(2) && Tally(ThreePosts(a, b)).Get(b) == Some(1)
  {
    var posts := ThreePosts(a, b);
    var prefix := posts[..|posts| - 1];
    assert prefix == posts[..2];
    TallyTwo(a, b);
    TallyValid(prefix);
    assert b !in Tally(prefix).fields;
    assert UserKey(posts[|posts| - 1]) == b;
    TallyNewKey(posts);
  }

  /** With those counts `a` ranks before `b`. */
  lemma {:induction false} RankedExample(a: string, b: string)
    requires a != b
    ensures Tally(ThreePosts(a, b)).Valid()
    ensures Ranked(Tally(ThreePosts(a, b))) == [(a, 2), (b, 1)]
  {
    TallyExample(a, b);
    TallyValid(ThreePosts(a, b));
    var entries := Tally(ThreePosts(a, b)).Entries();
    var ea: (string, nat), eb: (string, nat) := (a, 2), (b, 1);
    assert entries == [ea, eb] by {
      assert entries[0] == ea && entries[1] == eb;
    }
    assert SortDesc([ea, eb], EntryCount) == [ea, eb] by {
      assert [ea, eb][..1] == [ea];
      assert SortDesc([ea], EntryCount) == [ea];
      assert Insert([ea], eb, EntryCount) == [ea, eb];
    }
  }

  /** `a` is listed first with two posts and `b` second with one, each named
      from the `users` document. */
  lemma {:induction false} TopUsersExample(a: string, b: string, users: Users)
    requires a != b
    ensures TopUsers(ThreePosts(a, b), users) == [TopUser(a, users.Get(a), 2), TopUser(b, users.Get(b), 1)]
  {
    RankedExample(a, b);
  }

  /** Comment counts 3, 5 and 5: both posts with five comments are popular. */
  lemma {:induction false} PopularExample()
    ensures Popular([PostA1, PostA2, PostB3], map[1 := 3, 2 := 5, 3 := 5]) == [PostA2, PostB3]
  {
    var counts: CommentCounts := map[1 := 3, 2 := 5, 3 := 5];
    var max := MaxCount(counts);
    assert 2 in counts;
    assert max.Some?;
    assert max == Some(5) by {
      assert counts[2] <= max.value;
    }
    var posts := [PostA1, PostA2, PostB3];
    assert posts[..2] == [PostA1, PostA2] && posts[..2][..1] == [PostA1];
    assert !Matches(PostA1, counts, max) && Matches(PostA2, counts, max) && Matches(PostB3, counts, max);
    assert Popular([PostA1], counts) == [];
    assert Popular([PostA1, PostA2], counts) == [PostA2];
  }

  /** On a cache where nothing was ever written (or everything expired),
      `fetchPosts` stores `[]`, and both `GET /users` and `GET /posts` answer
      `[]`. */
  method EmptyCacheAnswers(postsOf: string -> Option<seq<Post>>)
    returns (stored: Option<seq<Post>>, top: seq<TopUser>, latest: Response<seq<Post>>, popular: Response<seq<Post>>)
    ensures stored == Some([])
    ensures top == []
    ensures latest == Ok([]) && popular == Ok([])
  {
    var refreshed := FetchPosts(EmptyCache, postsOf);
    stored := refreshed.cache.posts;
    top := GetUsers(EmptyCache);
    latest := GetPosts(EmptyCache, Some("latest"));
    popular := GetPosts(EmptyCache, Some("popular"));
  }
}
