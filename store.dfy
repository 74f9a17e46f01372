/** The cached documents and the record types they hold. The cache holds
    three documents, `users`, `posts` and `comments`, each already decoded
    from its JSON text. A document that was never written or whose expiry has
    passed is absent, and every reader takes an absent document as empty. */
module Store {
  import opened Wrappers
  import opened Objects

  /** A post as the query handlers see it. `userid` is the post's lower-case
      `userid` property (`None` when the record has no such property; in
      particular a record that spells it `userId`). `content` stands for the
      remaining fields, which the server only passes through. */
  datatype Post = Post(id: int, userid: Option<string>, content: string)

  /** The `users` document: user id to display name, in key order. It is a
      decoded JSON object, so no key is listed twice. */
  type Users = o: Object<string> | o.Valid() witness Object([], map[])

  /** The `comments` document: post id to number of comments. */
  type CommentCounts = map<int, nat>

  datatype Cache = Cache(users: Option<Users>, posts: Option<seq<Post>>, comments: Option<CommentCounts>)

  /** The cache before anything was written (or after every key expired). */
  const EmptyCache := Cache(None, None, None)

  /** `JSON.parse(get("users") || "{}")`. */
  function CachedUsers(c: Cache): (u: Users)
    ensures c.users.None? ==> u == Empty()
    ensures c.users.Some? ==> u == c.users.value
  {
    c.users.GetOr(Empty())
  }

  /** `JSON.parse(get("posts") || "[]")`. */
  function CachedPosts(c: Cache): (ps: seq<Post>)
    ensures c.posts.None? ==> ps == []
    ensures c.posts.Some? ==> ps == c.posts.value
  {
    c.posts.GetOr([])
  }

  /** `JSON.parse(get("comments") || "{}")`. */
  function CachedComments(c: Cache): (m: CommentCounts)
    ensures c.comments.None? ==> m == map[]
    ensures c.comments.Some? ==> m == c.comments.value
  {
    c.comments.GetOr(map[])
  }
}
