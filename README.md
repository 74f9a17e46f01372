# Social media analytics cache: model of `Q1/server.js`

The server keeps three documents in a Redis cache and answers queries from them:

- `users`: a JSON object that maps user id to display name.
- `posts`: one array of post records.
- `comments`: a JSON object that maps post id to its number of comments.

Three refresh procedures fill these documents from a remote API. `fetchUsers`
fills `users`. `fetchPosts` fetches every cached user's posts. `fetchComments`
fetches every cached post's comments and counts them. An hourly job runs the
three in order. Two read-only handlers compute views over the cache.
`GET /users` gives the five users with the most posts. `GET /posts?type=latest`
gives the five posts with the largest ids. `GET /posts?type=popular` gives
every post with the largest comment count. Any other `type` gets a 400.

The model works over an abstract cache, the datatype `Store.Cache`. It has one
optional, already-decoded value per key. An absent value stands for a key that
was never written or whose one-hour expiry has passed, and every reader takes
it as empty. A JavaScript object whose key order can be observed (the `users`
document, the `postCounts` accumulator) is an `Objects.Object`. That is a
dictionary plus its key enumeration order. A new key goes last, and an
overwritten key keeps its place. The cached `users` document, `Store.Users`, is a
well-formed object: each key is listed once, as in any decoded JSON object, so
`fetchPosts` requests each user once. Every remote request is an oracle parameter.
Its `None` means the request threw.

Modules:

- `Wrappers`: `Option`.
- `Seqs`: `slice(0, n)` and `filter`.
- `Objects`: JavaScript objects.
- `Sorting`: `Array.prototype.sort` with a descending numeric comparator. It is
  a stable sort, specified by insertion, with an in-place array version.
- `Store`: the records and the cache.
- `Queries`: the two GET handlers.
- `Refresh`: the refresh pipeline and the hourly cycle.
- `Scenarios`: worked examples.

Where the code and its documented intent part ways, the model follows the code:

- Posts are grouped by their lower-case `userid` property. A post without one
  is counted under the key `"undefined"`, and that key is what JavaScript makes
  of `postCounts[undefined]`. So posts that spell the field `userId` all fall
  into one group (`Queries.TopUsersWithoutUserid`).
- Both rankings are non-increasing, not strictly decreasing. Equal post counts
  and repeated post ids tie, and ties keep their input order because the sort
  is stable.
- `Math.max` over an empty comment map is `-Infinity`. No count equals it, so
  `type=popular` then answers `[]`. The maximum is `Option<nat>`, with `None`
  for that case.
- The maximum is taken over every cached comment count, including counts for
  posts that are no longer cached. A post is popular only when its own count
  equals that maximum.

## Model

| member | source | states |
|---|---|---|
| `Store.CachedUsers` | Q1/server.js:130 | reading `users` (here and at line 47) gives the stored object, or `{}` when the document is absent |
| `Store.CachedPosts` | Q1/server.js:123 | reading `posts` (here and at lines 75 and 142) gives the stored array, or `[]` when the document is absent |
| `Store.CachedComments` | Q1/server.js:149 | reading `comments` gives the stored map, or `{}` when the document is absent |
| `Objects.Object.Get` | Q1/server.js:127 | a property read (here and `users[id]` at line 134) finds a value exactly when the key is present, and then it is that key's value; otherwise it is `undefined` (`None`) |
| `Objects.Object.Put` | Q1/server.js:127 | a property write sets that key and leaves every other key; an existing key keeps the key order unchanged, a new key is appended last, and well-formedness is preserved |
| `Objects.Object.Entries` | Q1/server.js:131 | `Object.entries` lists one pair per key in enumeration order, each pairing the key with its own value |
| `Objects.Empty` | Q1/server.js:124 | the literal `{}` has no keys and no values and is well-formed |
| `Seqs.Take` | Q1/server.js:133 | `slice(0, n)` (here and at line 145) keeps min(n, length) elements, and they are a prefix of the input |
| `Seqs.Filter` | Q1/server.js:151 | `filter` returns no more elements than its input and only elements that pass the test; characterised further by `Seqs.FilterAppend` and `Seqs.FilterCount` through `Queries.PopularExact` |
| `Queries.UserKey` | Q1/server.js:127 | the grouping key is the post's `userid`, or `"undefined"` when the post has none |
| `Queries.Tally` | Q1/server.js:124-128 | defines `postCounts` after the `forEach`, with no more keys than posts; characterised by `Queries.TallyCounts` and `Queries.TallyValid` |
| `Queries.TallyValid` | Q1/server.js:124-128 | `postCounts` lists each key once, and exactly the keys that have a count |
| `Queries.CountPosts` | Q1/server.js:124-128 | the `forEach` loop leaves `postCounts` equal to the specification `Tally` of the cached posts |
| `Queries.TallyCounts` | Q1/server.js:124-128 | `postCounts` has a key exactly for each user key that occurs in the posts, and each value is the number of posts with that key |
| `Queries.Ranked` | Q1/server.js:131-133 | defines the sorted and sliced entries, min(5, number of keys) of them; characterised by `Queries.RankedEntries`, `Queries.RankedOrdered`, `Queries.RankedDistinct`, `Queries.RankedComplete` and `Queries.RankedStable` |
| `Queries.RankedEntries` | Q1/server.js:131-133 | each ranked entry is a key of `postCounts` paired with its own count |
| `Queries.RankedOrdered` | Q1/server.js:132 | the ranked entries come by non-increasing count |
| `Queries.RankedDistinct` | Q1/server.js:131-133 | no key is ranked twice |
| `Queries.RankedComplete` | Q1/server.js:131-133 | a key that is not ranked has a count no larger than every ranked count, and then five entries are ranked |
| `Queries.RankedStable` | Q1/server.js:131-133 | ties keep entry order: the ranked entries with a given count are a prefix of the `Object.entries` entries with that count |
| `Queries.Named` | Q1/server.js:134 | the `map` keeps length and position, and turns each entry into its id, `users[id]` (`None` when absent) and its count |
| `Queries.TopUsers` | Q1/server.js:124-134 | defines the `/users` answer: at most five users, none for an empty cache; characterised by the `Queries.TopUsers...` lemmas |
| `Queries.GetUsers` | Q1/server.js:122-137 | the `/users` handler answers `TopUsers` of the cached posts and users, treating absent documents as empty |
| `Queries.TopUsersOrdered` | Q1/server.js:131-133 | at most five users, in non-increasing post count |
| `Queries.TopUsersCounts` | Q1/server.js:124-134 | each listed user's `post_count` is the number of cached posts whose `userid` is its id (at least one), and its `name` is `users[id]`, `None` when absent |
| `Queries.TopUsersDistinct` | Q1/server.js:127-133 | no user id is listed twice |
| `Queries.TopUsersComplete` | Q1/server.js:131-133 | every user key with posts is either listed, or five users are listed and each has at least as many posts |
| `Queries.TopUsersWithoutUserid` | Q1/server.js:126-134 | when no post has a `userid` property, the answer is the single entry `"undefined"` with every post counted |
| `Queries.Latest` | Q1/server.js:145 | defines the `type=latest` answer, min(5, number of posts) posts; characterised by `Queries.LatestOrdered`, `Queries.LatestFromCache`, `Queries.LatestDominates` and `Queries.LatestStable` |
| `Queries.LatestOrdered` | Q1/server.js:145 | the latest posts come by non-increasing id |
| `Queries.LatestFromCache` | Q1/server.js:145 | the latest posts are drawn from the cache, each at most as often as it is cached |
| `Queries.LatestDominates` | Q1/server.js:145 | no cached post left out has a larger id than a post returned |
| `Queries.LatestStable` | Q1/server.js:145 | posts with equal ids come out in cached order, as a prefix of those posts |
| `Queries.MaxCount` | Q1/server.js:150 | the maximum comment count is `None` exactly for an empty map, and otherwise it is a value of the map that no value exceeds |
| `Queries.MaxOf` | Q1/server.js:150 | `Math.max` over a non-empty set of counts is an element of the set that no element exceeds |
| `Queries.CountValues` | Q1/server.js:150 | `Object.values(comments)` as a set: every value of the map is in it, and every element is some key's value |
| `Queries.Matches` | Q1/server.js:151 | a post matches only if its id has a count, and given the real maximum it matches exactly when no count is larger than its own |
| `Queries.Popular` | Q1/server.js:150-151 | defines the `type=popular` answer: no longer than the cached posts, and every post in it has the most comments; characterised by `Queries.PopularExact` |
| `Queries.PopularExact` | Q1/server.js:148-154 | `type=popular` returns each cached post whose id has a count and no larger count exists, as often as it is cached, and no other post |
| `Queries.PopularInCachedOrder` | Q1/server.js:151 | the popular posts keep the cached order: filtering a concatenation concatenates the filtered parts |
| `Queries.PopularWithoutComments` | Q1/server.js:149-151 | an empty comment map gives an empty answer |
| `Queries.GetPosts` | Q1/server.js:140-157 | `latest` answers the sorted top five, `popular` answers the popular posts, and any other or missing `type` answers status 400 with the fixed message |
| `Sorting.SortInPlace` | Q1/server.js:145 | the in-place array sort leaves the array equal to the stable descending sort of its old contents |
| `Sorting.SortDesc` | Q1/server.js:132 | defines the stable non-increasing order that the comparators here and at line 145 give; characterised by `Sorting.SortDescPermutation`, `Sorting.SortDescSorted` and `Sorting.SortDescStable` |
| `Sorting.SortDescPermutation` | Q1/server.js:131-133 | the sort is a permutation of its input |
| `Sorting.SortDescSorted` | Q1/server.js:131-133 | the sort's output has non-increasing keys |
| `Sorting.SortDescStable` | Q1/server.js:131-133 | the sort is stable: for each key, the elements with that key keep their input order |
| `Sorting.TakeDominates` | Q1/server.js:133 | cutting a sorted sequence after n elements leaves out nothing with a larger key than any element kept |
| `Refresh.FetchUsers` | Q1/server.js:27-41 | a failed users request returns `{}` and leaves the cache unchanged; a success stores and returns exactly the fetched users; `posts` and `comments` are never touched |
| `Refresh.FetchUsersIdempotent` | Q1/server.js:30-36 | refreshing twice with the same remote answer leaves the same cache as refreshing once |
| `Refresh.GatheredPosts` | Q1/server.js:50-60 | defines `allPosts` after the loop: every post in it came from a listed user whose request succeeded; characterised by `Refresh.GatheredPostsFrom` and `Refresh.GatheredPostsAppend` |
| `Refresh.FetchPosts` | Q1/server.js:44-64 | the result is the posts gathered over the cached user keys in enumeration order (`[]` when `users` is absent), and the cache changes only in `posts`, which is set to exactly that result |
| `Refresh.GatheredPostsAppend` | Q1/server.js:50-60 | each user contributes independently: gathering over two runs of users concatenates the two results |
| `Refresh.FailedUserAddsNothing` | Q1/server.js:51-59 | a user whose request failed adds no posts and the loop carries on |
| `Refresh.GatheredPostsFrom` | Q1/server.js:50-60 | a post is gathered exactly when some listed user's request succeeded and returned it |
| `Refresh.CountedComments` | Q1/server.js:78-87 | defines `commentCounts` after the loop, with no more keys than cached posts; characterised by `Refresh.CountedCommentsKeys` and `Refresh.CountedCommentsLastWins` |
| `Refresh.FetchComments` | Q1/server.js:72-91 | the result is the comment-count map built over the cached posts, and the cache changes only in `comments`, which is set to exactly that map |
| `Refresh.CountedCommentsKeys` | Q1/server.js:78-87 | the map has a key exactly for each post id whose comments request succeeded |
| `Refresh.CountedCommentsLastWins` | Q1/server.js:83 | each value is the comment count of an answered request for that id, and no later request for the same id was answered |
| `Refresh.RefreshCycle` | Q1/server.js:160-166 | one hourly run refreshes users, then posts for the users now cached, then comments for the posts now cached, so every counted id is a cached post's id |
| `Scenarios.TallyExample` | Q1/server.js:124-128 | two posts by `a` and then one by a different user `b` give the keys `a`, `b` in that order, with counts 2 and 1 |
| `Scenarios.RankedExample` | Q1/server.js:131-133 | with those counts the ranking is `(a, 2)` then `(b, 1)` |
| `Scenarios.TopUsersExample` | Q1/server.js:122-137 | for any two distinct user ids `a` and `b` and any `users` document, two posts by `a` and one by `b` list `a` (named `users[a]`, 2 posts) before `b` (named `users[b]`, 1 post) |
| `Scenarios.PopularExample` | Q1/server.js:148-154 | with comment counts 3, 5 and 5, the posts with ids 2 and 3 are popular |
| `Scenarios.EmptyCacheAnswers` | Q1/server.js:44-64 | on a cache where nothing was written, `fetchPosts` stores `[]`, and `GET /users`, `GET /posts?type=latest` and `GET /posts?type=popular` answer `[]` |

## Left out

- The Express application, route registration, the welcome route, the three `/refresh-*` routes and `app.listen` (Q1/server.js:7-8, 99-119, 169-171). This is HTTP plumbing. The refresh routes only wrap a refresh procedure's result in a message, and the handlers are modelled as values.
- axios, the bearer-token header and the base URL (Q1/server.js:11-12, 30-32, 52-54, 80-82). This is network I/O, replaced by oracle parameters. The comments oracle takes the request's position as well as the post id, so a repeated post id may get different answers.
- The Redis connection and the 3600-second expiry (Q1/server.js:13-21, 34, 62, 89). This is an external store and wall-clock time. An expired key is the same as an absent one.
- The cron schedule and overlapping runs (Q1/server.js:160). This is time and concurrency. `Refresh.RefreshCycle` models one run on its own.
- JSON encoding and decoding. Stored values are already typed. So the outer `catch` blocks of `fetchPosts` and `fetchComments` (Q1/server.js:65-68, 92-95) are not modelled, because they only fire when a cache read, a parse or a write fails. An unparseable document is not modelled either.
- The key order of `Object.entries` and `for ... in` for integer-like keys, which JavaScript enumerates first, in ascending order. The model uses insertion order. Also left out are special property names such as `__proto__`, and `console` logging.
- Comment-count keys are the post ids as integers, where JavaScript uses their string forms. The two agree for integer ids. Non-numeric ids, which would make the comparator `b.id - a.id` produce `NaN`, are out of scope.
- `Queries.RankedStable`: tie order is stated on the ranked entries, before names are attached. The mapping to `TopUser` keeps positions (`Queries.Named`).
- The two cache reads of each handler (Q1/server.js:123 and 130, 142 and 149) are separate awaits, and an hourly refresh may write between them. Each handler takes one `Store.Cache` value. No invariant ties its three fields together, so any mix of an old and a new document is itself a `Cache` value, and every property proved holds for it.
