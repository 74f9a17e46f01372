/** The read-only query handlers: `GET /users` (the five users with the most
    posts) and `GET /posts?type=...` (the five latest posts, or the most
    commented posts). They read the cache and never call the remote API. */
module Queries {
  import opened Wrappers
  import opened Seqs
  import opened Objects
  import opened Sorting
  import opened Store

  /** How many users `GET /users` ranks (`slice(0, 5)`). */
  const TopUserCount: nat := 5

  /** How many posts `type=latest` returns (`slice(0, 5)`). */
  const LatestCount: nat := 5

  const BadRequest: nat := 400
  const InvalidTypeMessage := "Invalid type parameter. Use 'latest' or 'popular'."

  /** A handler's answer: a JSON body, or an error status with a message. */
  datatype Response<T> = Ok(body: T) | Error(status: nat, message: string)

  // ---------------------------------------------------------------------
  // GET /users

  /** The property key `postCounts[post.userid]` uses: a post without a
      `userid` property is counted under the key "undefined". */
  function UserKey(p: Post): (k: string)
    ensures p.userid.Some? ==> k == p.userid.value
    ensures p.userid.None? ==> k == "undefined"
  {
    p.userid.GetOr("undefined")
  }

  /** The grouping key of every post, post by post. */
  function UserKeys(posts: seq<Post>): (ks: seq<string>)
    ensures |ks| == |posts|
    ensures forall i :: 0 <= i < |posts| ==> ks[i] == UserKey(posts[i])
  {
    seq(|posts|, i requires 0 <= i < |posts| => UserKey(posts[i]))
  }

  /** `postCounts` after `posts.forEach(post => postCounts[post.userid] =
      (postCounts[post.userid] || 0) + 1)`. */
  function Tally(posts: seq<Post>): (postCounts: Object<nat>)
    ensures |postCounts.keys| <= |posts|
    decreases |posts|
  {
    if posts == [] then Empty()
    else
      var postCounts := Tally(posts[..|posts| - 1]);
      var k := UserKey(posts[|posts| - 1]);
      postCounts.Put(k, postCounts.Get(k).GetOr(0) + 1)
  }

  /** `postCounts` lists each key once, and exactly the keys it has. */
  lemma {:induction false} TallyValid(posts: seq<Post>)
    ensures Tally(posts).Valid()
    decreases |posts|
  {
    if posts != [] {
      TallyValid(posts[..|posts| - 1]);
    }
  }

  /** The last post adds one to its user key's count in the tally of the
      posts before it. */
  lemma {:induction false} TallyStep(posts: seq<Post>)
    requires posts != []
    ensures Tally(posts) == Tally(posts[..|posts| - 1]).Put(UserKey(posts[|posts| - 1]), Tally(posts[..|posts| - 1]).Get(UserKey(posts[|posts| - 1])).GetOr(0) + 1)
  {
  }

  /** A post whose user key is not yet counted appends that key with the
      count one, and leaves every other count. */
  lemma {:induction false} TallyNewKey(posts: seq<Post>)
    requires posts != []
    requires UserKey(posts[|posts| - 1]) !in Tally(posts[..|posts| - 1]).fields
    ensures Tally(posts).keys == Tally(posts[..|posts| - 1]).keys + [UserKey(posts[|posts| - 1])]
    ensures Tally(posts).Get(UserKey(posts[|posts| - 1])) == Some(1)
    ensures forall k :: k != UserKey(posts[|posts| - 1]) ==> Tally(posts).Get(k) == Tally(posts[..|posts| - 1]).Get(k)
  {
    TallyStep(posts);
  }

  /** The `forEach` loop that fills `postCounts` in place. */
  method CountPosts(posts: seq<Post>) returns (postCounts: Object<nat>)
    ensures postCounts == Tally(posts)
  {
    postCounts := Empty();
    for i := 0 to |posts|
      invariant postCounts == Tally(posts[..i])
    {
      assert posts[..i + 1][..i] == posts[..i];
      var k := UserKey(posts[i]);
      postCounts := postCounts.Put(k, postCounts.Get(k).GetOr(0) + 1);
    }
    assert posts[..|posts|] == posts;
  }

  /** `postCounts` has a key exactly for each user key that occurs in the
      posts, and its value is the number of posts with that key. */
  lemma {:induction false} TallyCounts(posts: seq<Post>)
    ensures forall k :: k in Tally(posts).fields <==> k in UserKeys(posts)
    ensures forall k :: k in Tally(posts).fields ==> Tally(posts).fields[k] == multiset(UserKeys(posts))[k]
    decreases |posts|
  {
    if posts != [] {
      var p', last := posts[..|posts| - 1], posts[|posts| - 1];
      TallyCounts(p');
      assert UserKeys(posts) == UserKeys(p') + [UserKey(last)];
    }
  }

  function EntryCount(e: (string, nat)): int {
    e.1
  }

  /** `Object.entries(postCounts).sort((a, b) => b[1] - a[1]).slice(0, 5)`. */
  function Ranked(postCounts: Object<nat>): (r: seq<(string, nat)>)
    requires postCounts.Valid()
    ensures |r| == if |postCounts.keys| < TopUserCount then |postCounts.keys| else TopUserCount
  {
    SortDescPermutation(postCounts.Entries(), EntryCount);
    Take(SortDesc(postCounts.Entries(), EntryCount), TopUserCount)
  }

  /** Each ranked entry is a key of `postCounts` paired with its value. */
  lemma {:induction false} RankedEntries(postCounts: Object<nat>)
    requires postCounts.Valid()
    ensures forall i :: 0 <= i < |Ranked(postCounts)| ==>
      var e := Ranked(postCounts)[i]; e.0 in postCounts.fields && e.1 == postCounts.fields[e.0]
  {
    var entries := postCounts.Entries();
    var sorted := SortDesc(entries, EntryCount);
    SortDescPermutation(entries, EntryCount);
    forall i | 0 <= i < |Ranked(postCounts)|
      ensures Ranked(postCounts)[i].0 in postCounts.fields
      ensures Ranked(postCounts)[i].1 == postCounts.fields[Ranked(postCounts)[i].0]
    {
      assert Ranked(postCounts)[i] == sorted[i];
      assert sorted[i] in multiset(entries);
      var j :| 0 <= j < |entries| && entries[j] == sorted[i];
    }
  }

  /** The ranked entries come by non-increasing count. */
  lemma {:induction false} RankedOrdered(postCounts: Object<nat>)
    requires postCounts.Valid()
    ensures forall i, j :: 0 <= i < j < |Ranked(postCounts)| ==> Ranked(postCounts)[i].1 >= Ranked(postCounts)[j].1
  {
    var sorted := SortDesc(postCounts.Entries(), EntryCount);
    SortDescSorted(postCounts.Entries(), EntryCount);
    forall i, j | 0 <= i < j < |Ranked(postCounts)| ensures Ranked(postCounts)[i].1 >= Ranked(postCounts)[j].1 {
      assert Ranked(postCounts)[i] == sorted[i] && Ranked(postCounts)[j] == sorted[j];
      assert EntryCount(sorted[i]) >= EntryCount(sorted[j]);
    }
  }

  /** No key is ranked twice. */
  lemma {:induction false} RankedDistinct(postCounts: Object<nat>)
    requires postCounts.Valid()
    ensures forall i, j :: 0 <= i < j < |Ranked(postCounts)| ==> Ranked(postCounts)[i].0 != Ranked(postCounts)[j].0
  {
    var entries := postCounts.Entries();
    var sorted := SortDesc(entries, EntryCount);
    SortDescPermutation(entries, EntryCount);
    assert NoDuplicates(entries) by {
      forall a, b | 0 <= a < b < |entries| ensures entries[a] != entries[b] {
        assert entries[a].0 == postCounts.keys[a] && entries[b].0 == postCounts.keys[b];
      }
    }
    PermutationNoDuplicates(entries, sorted);
    forall i, j | 0 <= i < j < |Ranked(postCounts)| ensures Ranked(postCounts)[i].0 != Ranked(postCounts)[j].0 {
      assert Ranked(postCounts)[i] == sorted[i] && Ranked(postCounts)[j] == sorted[j];
      assert sorted[i] in multiset(entries) && sorted[j] in multiset(entries);
      var a :| 0 <= a < |entries| && entries[a] == sorted[i];
      var b :| 0 <= b < |entries| && entries[b] == sorted[j];
      assert sorted[i] != sorted[j];
      assert a != b;
    }
  }

  /** A key that is not ranked has a count no larger than any ranked one, and
      then all five places are taken. */
  lemma {:induction false} RankedComplete(postCounts: Object<nat>, k: string)
    requires postCounts.Valid() && k in postCounts.fields
    ensures
      || (exists i :: 0 <= i < |Ranked(postCounts)| && Ranked(postCounts)[i].0 == k)
      || (&& |Ranked(postCounts)| == TopUserCount
          && forall i :: 0 <= i < |Ranked(postCounts)| ==> postCounts.fields[k] <= Ranked(postCounts)[i].1)
  {
    var entries := postCounts.Entries();
    var sorted := SortDesc(entries, EntryCount);
    var r := Ranked(postCounts);
    var j :| 0 <= j < |postCounts.keys| && postCounts.keys[j] == k;
    var e := entries[j];
    if e in r {
      var i :| 0 <= i < |r| && r[i] == e;
      assert r[i].0 == k;
    } else {
      UnrankedOutranked(postCounts, e);
    }
  }

  /** An entry that did not make the cut is outranked by all five ranked ones. */
  lemma {:induction false} UnrankedOutranked(postCounts: Object<nat>, e: (string, nat))
    requires postCounts.Valid() && e in postCounts.Entries() && e !in Ranked(postCounts)
    ensures |Ranked(postCounts)| == TopUserCount
    ensures forall i :: 0 <= i < |Ranked(postCounts)| ==> e.1 <= Ranked(postCounts)[i].1
  {
    var entries := postCounts.Entries();
    var sorted := SortDesc(entries, EntryCount);
    var r := Ranked(postCounts);
    SortDescPermutation(entries, EntryCount);
    SortDescSorted(entries, EntryCount);
    TakeDominates(sorted, TopUserCount, EntryCount);
    assert e in multiset(sorted) - multiset(r) by {
      assert e in multiset(entries);
    }
    forall i | 0 <= i < |r| ensures e.1 <= r[i].1 {
      assert r[i] in r;
      assert EntryCount(e) <= EntryCount(r[i]);
    }
  }

  /** One element of the `GET /users` answer; `name` is `None` for a user id
      the `users` document does not have. */
  datatype TopUser = TopUser(id: string, name: Option<string>, postCount: nat)

  /** `.map(([id, count]) => ({ id, name: users[id], post_count: count }))`. */
  function Named(ranked: seq<(string, nat)>, users: Users): (r: seq<TopUser>)
    ensures |r| == |ranked|
    ensures forall i :: 0 <= i < |r| ==> r[i] == TopUser(ranked[i].0, users.Get(ranked[i].0), ranked[i].1)
  {
    seq(|ranked|, i requires 0 <= i < |ranked| => TopUser(ranked[i].0, users.Get(ranked[i].0), ranked[i].1))
  }

  /** What `GET /users` answers for the cached posts and users. */
  function TopUsers(posts: seq<Post>, users: Users): (r: seq<TopUser>)
    ensures |r| <= TopUserCount
    ensures posts == [] ==> r == []
  {
    TallyValid(posts);
    Named(Ranked(Tally(posts)), users)
  }

  /** The `GET /users` handler. */
  method GetUsers(cache: Cache) returns (r: seq<TopUser>)
    ensures r == TopUsers(CachedPosts(cache), CachedUsers(cache))
  {
    var posts := CachedPosts(cache);
    var postCounts := CountPosts(posts);
    TallyValid(posts);
    var users := CachedUsers(cache);
    r := Named(Ranked(postCounts), users);
  }

  /** At most five users, by non-increasing post count. */
  lemma {:induction false} TopUsersOrdered(posts: seq<Post>, users: Users)
    ensures |TopUsers(posts, users)| <= TopUserCount
    ensures forall i, j :: 0 <= i < j < |TopUsers(posts, users)| ==>
      TopUsers(posts, users)[i].postCount >= TopUsers(posts, users)[j].postCount
  {
    TallyValid(posts);
    RankedOrdered(Tally(posts));
  }

  /** Each listed user has exactly the number of cached posts that carry its
      id as `userid`, at least one, and its name is looked up in `users`. */
  lemma {:induction false} TopUsersCounts(posts: seq<Post>, users: Users)
    ensures forall i :: 0 <= i < |TopUsers(posts, users)| ==>
      var u := TopUsers(posts, users)[i];
      && u.id in UserKeys(posts)
      && u.postCount == multiset(UserKeys(posts))[u.id]
      && u.name == users.Get(u.id)
  {
    TallyCounts(posts);
    TallyValid(posts);
    RankedEntries(Tally(posts));
  }

  /** No user is listed twice. */
  lemma {:induction false} TopUsersDistinct(posts: seq<Post>, users: Users)
    ensures forall i, j :: 0 <= i < j < |TopUsers(posts, users)| ==>
      TopUsers(posts, users)[i].id != TopUsers(posts, users)[j].id
  {
    TallyValid(posts);
    RankedDistinct(Tally(posts));
  }

  /** No user is left out unfairly: every user key with posts is listed, or
      five users are listed and each of them has at least as many posts. */
  lemma {:induction false} TopUsersComplete(posts: seq<Post>, users: Users, k: string)
    requires k in UserKeys(posts)
    ensures
      || (exists i :: 0 <= i < |TopUsers(posts, users)| && TopUsers(posts, users)[i].id == k)
      || (&& |TopUsers(posts, users)| == TopUserCount
          && forall i :: 0 <= i < |TopUsers(posts, users)| ==>
               multiset(UserKeys(posts))[k] <= TopUsers(posts, users)[i].postCount)
  {
    var postCounts := Tally(posts);
    TallyValid(posts);
    TallyCounts(posts);
    RankedComplete(postCounts, k);
    var r := TopUsers(posts, users);
    if exists i :: 0 <= i < |Ranked(postCounts)| && Ranked(postCounts)[i].0 == k {
      var i :| 0 <= i < |Ranked(postCounts)| && Ranked(postCounts)[i].0 == k;
      assert r[i].id == k;
    }
  }

  /** Ties keep entry order: the ranked entries with a given count are the
      first ones with that count in `Object.entries(postCounts)`. */
  lemma {:induction false} RankedStable(postCounts: Object<nat>, count: int)
    requires postCounts.Valid()
    ensures WithKey(Ranked(postCounts), EntryCount, count) <= WithKey(postCounts.Entries(), EntryCount, count)
  {
    var sorted := SortDesc(postCounts.Entries(), EntryCount);
    SortDescStable(postCounts.Entries(), EntryCount, count);
    var n := |Ranked(postCounts)|;
    assert Ranked(postCounts) == sorted[..n];
    WithKeyPrefix(sorted, n, EntryCount, count);
  }

  /** When no cached post has a `userid` property, every post counts for the
      single key "undefined". */
  lemma {:induction false} TallyWithoutUserid(posts: seq<Post>)
    requires posts != []
    requires forall i :: 0 <= i < |posts| ==> posts[i].userid.None?
    ensures Tally(posts) == Object(["undefined"], map["undefined" := |posts|])
    decreases |posts|
  {
    var prefix, last := posts[..|posts| - 1], posts[|posts| - 1];
    assert UserKey(last) == "undefined";
    if prefix == [] {
      assert Tally(posts) == Empty<nat>().Put("undefined", 1);
    } else {
      assert forall i :: 0 <= i < |prefix| ==> prefix[i] == posts[i];
      TallyWithoutUserid(prefix);
      var before := Object(["undefined"], map["undefined" := |prefix|]);
      assert Tally(posts).keys == before.keys;
      assert Tally(posts).fields == before.fields["undefined" := |posts|];
    }
  }

  /** An object with a single key ranks that key alone. */
  lemma {:induction false} RankedSingle(k: string, n: nat)
    ensures Object([k], map[k := n]).Valid() && Ranked(Object([k], map[k := n])) == [(k, n)]
  {
    var postCounts: Object<nat> := Object([k], map[k := n]);
    var e: (string, nat) := (k, n);
    assert postCounts.Valid();
    assert postCounts.Entries() == [e] by {
      assert postCounts.Entries()[0] == e;
    }
    assert SortDesc([e], EntryCount) == [e] by {
      assert [e][..0] == [];
    }
  }

  lemma {:induction false} TopUsersWithoutUserid(posts: seq<Post>, users: Users)
    requires posts != []
    requires forall i :: 0 <= i < |posts| ==> posts[i].userid.None?
    ensures TopUsers(posts, users) == [TopUser("undefined", users.Get("undefined"), |posts|)]
  {
    TallyWithoutUserid(posts);
    RankedSingle("undefined", |posts|);
  }

  // ---------------------------------------------------------------------
  // GET /posts?type=latest

  function PostId(p: Post): int {
    p.id
  }

  /** `posts.sort((a, b) => b.id - a.id).slice(0, 5)`: five posts, or all of
      them when fewer are cached. */
  function Latest(posts: seq<Post>): (r: seq<Post>)
    ensures |r| == if |posts| < LatestCount then |posts| else LatestCount
  {
    SortDescPermutation(posts, PostId);
    Take(SortDesc(posts, PostId), LatestCount)
  }

  /** The latest posts come by non-increasing id. */
  lemma {:induction false} LatestOrdered(posts: seq<Post>)
    ensures SortedDesc(Latest(posts), PostId)
  {
    var sorted := SortDesc(posts, PostId);
    SortDescSorted(posts, PostId);
    forall i, j | 0 <= i < j < |Latest(posts)| ensures PostId(Latest(posts)[i]) >= PostId(Latest(posts)[j]) {
      assert Latest(posts)[i] == sorted[i] && Latest(posts)[j] == sorted[j];
    }
  }

  /** The latest posts are drawn from the cached posts, each at most as often
      as it is cached. */
  lemma {:induction false} LatestFromCache(posts: seq<Post>)
    ensures multiset(Latest(posts)) <= multiset(posts)
  {
    var sorted := SortDesc(posts, PostId);
    SortDescPermutation(posts, PostId);
    assert sorted == Latest(posts) + sorted[|Latest(posts)|..];
  }

  /** No cached post left out has a larger id than a post returned. */
  lemma {:induction false} LatestDominates(posts: seq<Post>)
    ensures forall q: Post, p: Post :: q in multiset(posts) - multiset(Latest(posts)) && p in Latest(posts) ==> q.id <= p.id
  {
    var sorted := SortDesc(posts, PostId);
    SortDescPermutation(posts, PostId);
    SortDescSorted(posts, PostId);
    TakeDominates(sorted, LatestCount, PostId);
    assert multiset(posts) - multiset(Latest(posts)) == multiset(sorted) - multiset(Take(sorted, LatestCount));
    forall q: Post, p: Post | q in multiset(posts) - multiset(Latest(posts)) && p in Latest(posts) ensures q.id <= p.id {
      assert PostId(q) <= PostId(p);
    }
  }

  /** Posts that share an id come out in their cached order. */
  lemma {:induction false} LatestStable(posts: seq<Post>, id: int)
    ensures WithKey(Latest(posts), PostId, id) <= WithKey(posts, PostId, id)
  {
    var sorted := SortDesc(posts, PostId);
    SortDescStable(posts, PostId, id);
    assert Latest(posts) == sorted[..|Latest(posts)|];
    WithKeyPrefix(sorted, |Latest(posts)|, PostId, id);
  }

  // ---------------------------------------------------------------------
  // GET /posts?type=popular

  /** No element of `s` is above `x`. */
  predicate Bounds(x: nat, s: set<nat>) {
    forall y :: y in s ==> y <= x
  }

  lemma {:induction false} SetHasMax(s: set<nat>)
    requires s != {}
    ensures exists x :: x in s && Bounds(x, s)
    decreases |s|
  {
    var x :| x in s;
    var rest := s - {x};
    if rest == {} {
      assert s == {x};
      assert Bounds(x, s);
    } else {
      SetHasMax(rest);
      var m :| m in rest && Bounds(m, rest);
      var top := if x > m then x else m;
      forall y | y in s ensures y <= top {
        if y != x {
          assert y in rest;
        }
      }
      assert top in s && Bounds(top, s);
    }
  }

  /** `Object.values(comments)`, as a set: the maximum does not depend on order. */
  function CountValues(counts: CommentCounts): (vals: set<nat>)
    ensures forall id :: id in counts ==> counts[id] in vals
    ensures forall v :: v in vals ==> exists id :: id in counts && counts[id] == v
  {
    set id | id in counts :: counts[id]
  }

  lemma {:induction false} CountValuesEmpty(counts: CommentCounts)
    ensures CountValues(counts) == {} <==> counts == map[]
  {
  }

  function MaxOf(s: set<nat>): (r: nat)
    requires s != {}
    ensures r in s && forall y :: y in s ==> y <= r
  {
    SetHasMax(s);
    var x :| x in s && Bounds(x, s);
    x
  }

  /** `Math.max(...Object.values(comments))`; `None` is the `-Infinity` of an
      empty map. */
  function MaxCount(counts: CommentCounts): (r: Option<nat>)
    ensures r.None? <==> counts == map[]
    ensures r.Some? ==> exists id :: id in counts && counts[id] == r.value
    ensures r.Some? ==> forall id :: id in counts ==> counts[id] <= r.value
  {
    CountValuesEmpty(counts);
    var vals := CountValues(counts);
    if vals == {} then None else Some(MaxOf(vals))
  }

  /** A post has the most comments when it has an entry in the comment map
      and no entry is larger. */
  ghost predicate MostCommented(p: Post, counts: CommentCounts) {
    p.id in counts && forall id :: id in counts ==> counts[id] <= counts[p.id]
  }

  /** `comments[post.id] === maxComments`: a post without an entry reads
      `undefined` and never matches, and nothing equals `-Infinity`. */
  function Matches(p: Post, counts: CommentCounts, max: Option<nat>): (b: bool)
    ensures b ==> p.id in counts
    ensures max == MaxCount(counts) ==> (b <==> MostCommented(p, counts))
  {
    max.Some? && p.id in counts && counts[p.id] == max.value
  }

  /** `posts.filter(post => comments[post.id] === maxComments)`. */
  function Popular(posts: seq<Post>, counts: CommentCounts): (r: seq<Post>)
    ensures |r| <= |posts|
    ensures forall i :: 0 <= i < |r| ==> MostCommented(r[i], counts)
  {
    var max := MaxCount(counts);
    Filter(posts, p => Matches(p, counts, max))
  }

  /** `type=popular` returns exactly the cached posts with the most comments,
      each as often as it is cached. */
  lemma {:induction false} PopularExact(posts: seq<Post>, counts: CommentCounts, p: Post)
    ensures multiset(Popular(posts, counts))[p] == if MostCommented(p, counts) then multiset(posts)[p] else 0
  {
    var max := MaxCount(counts);
    FilterCount(posts, q => Matches(q, counts, max), p);
    if p.id in counts && max.Some? && counts[p.id] != max.value {
      var id :| id in counts && counts[id] == max.value;
      assert counts[id] > counts[p.id];
    }
  }

  /** The popular posts come in cached order: filtering a concatenation is
      concatenating the filtered parts. */
  lemma {:induction false} PopularInCachedOrder(a: seq<Post>, b: seq<Post>, counts: CommentCounts)
    ensures Popular(a + b, counts) == Popular(a, counts) + Popular(b, counts)
  {
    FilterAppend(a, b, p => Matches(p, counts, MaxCount(counts)));
  }

  /** With no comment counts at all the answer is empty. */
  lemma {:induction false} PopularWithoutComments(posts: seq<Post>)
    ensures Popular(posts, map[]) == []
  {
    forall p ensures multiset(Popular(posts, map[]))[p] == 0 {
      PopularExact(posts, map[], p);
    }
    assert multiset(Popular(posts, map[])) == multiset{};
  }

  // ---------------------------------------------------------------------
  // GET /posts

  /** The `GET /posts` handler; `queryType` is the `type` query parameter,
      `None` when it is missing. */
  method GetPosts(cache: Cache, queryType: Option<string>) returns (r: Response<seq<Post>>)
    ensures queryType == Some("latest") ==> r == Ok(Latest(CachedPosts(cache)))
    ensures queryType == Some("popular") ==> r == Ok(Popular(CachedPosts(cache), CachedComments(cache)))
    ensures queryType != Some("latest") && queryType != Some("popular") ==> r == Error(BadRequest, InvalidTypeMessage)
  {
    var posts := CachedPosts(cache);
    if queryType == Some("latest") {
      var a := new Post[|posts|](i requires 0 <= i < |posts| => posts[i]);
      assert a[..] == posts;
      SortInPlace(a, PostId);
      var n := if a.Length < LatestCount then a.Length else LatestCount;
      assert a[..] == SortDesc(posts, PostId);
      assert a[..n] == Take(SortDesc(posts, PostId), LatestCount);
      r := Ok(a[..n]);
      return;
    }
    if queryType == Some("popular") {
      var comments := CachedComments(cache);
      r := Ok(Popular(posts, comments));
      return;
    }
    r := Error(BadRequest, InvalidTypeMessage);
  }
}
