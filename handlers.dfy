/** What each handler does, as a function of the store before the request: the response,
    the store afterwards, and the object-store calls it makes on the way. The handler
    methods in module Worker are proved to behave exactly as these functions say. */
module Handlers {
  import opened Comments
  import opened Cascade
  import opened Requests
  import Router

  const Unauthorized := "Unauthorized"
  const MissingBlogId := "Missing blog ID"
  const InvalidContentType := "Invalid Content-Type"
  const InvalidComment := "Invalid Comment"
  const CommentAdded := "Comment added"
  const MissingIds := "Missing blog ID or comment ID"
  const NoCommentsFound := "No comments found"
  const CommentNotFound := "Comment not found"
  const CommentDeleted := "Comment deleted"

  datatype Outcome = Outcome(response: Response, store: Store, accesses: seq<Access>)

  /** The comments stored for `key`, or none if the key is absent. */
  function Stored(store: Store, key: string): seq<Comment> {
    if key in store then store[key] else []
  }

  /** Listing: a missing or empty blog id is refused before the store is touched;
      otherwise one read, and the stored array (empty if absent) comes back unchanged. */
  function GetComments(store: Store, blog: Option<string>): (o: Outcome)
    ensures o.store == store
    ensures o.response.status == 400 <==> !Present(blog)
    ensures !Present(blog) ==> o.response.body == Text(MissingBlogId) && o.accesses == []
    ensures Present(blog) ==>
              && o.response.status == 200
              && o.accesses == [Read(KeyOf(blog.value))]
              && (KeyOf(blog.value) in store ==> o.response.body == Listing(store[KeyOf(blog.value)]))
              && (KeyOf(blog.value) !in store ==> o.response.body == Listing([]))
  {
    if !Present(blog) then
      Outcome(Response(400, Text(MissingBlogId)), store, [])
    else
      var key := KeyOf(blog.value);
      Outcome(Response(200, Listing(Stored(store, key))), store, [Read(key)])
  }

  /** Insert: authentication first, then the blog id, the Content-Type and the two
      required body fields, each refused in that order without touching the store.
      Otherwise one read and one write that appends exactly the new comment. */
  function InsertComment(store: Store, authenticated: bool, blog: Option<string>,
                         contentType: Option<string>, body: Payload, uuid: string, now: int): (o: Outcome)
    ensures !authenticated ==> o == Outcome(Response(401, Text(Unauthorized)), store, [])
    ensures authenticated && !Present(blog) ==> o == Outcome(Response(400, Text(MissingBlogId)), store, [])
    ensures authenticated && Present(blog) && !JsonContentType(contentType) ==>
              o == Outcome(Response(400, Text(InvalidContentType)), store, [])
    ensures authenticated && Present(blog) && JsonContentType(contentType)
            && !(Present(body.content) && Present(body.username)) ==>
              o == Outcome(Response(400, Text(InvalidComment)), store, [])
    ensures o.response.status == 200 <==>
              authenticated && Present(blog) && JsonContentType(contentType)
              && Present(body.content) && Present(body.username)
    ensures o.response.status == 200 ==>
              var key := KeyOf(blog.value);
              var before := Stored(store, key);
              var added := Comment(uuid, body.content.value, body.rid, body.username.value, now);
              && o.response.body == Text(CommentAdded)
              && WellFormed(added)
              && o.store.Keys == store.Keys + {key}
              && |o.store[key]| == |before| + 1
              && o.store[key][..|before|] == before
              && o.store[key][|before|] == added
              && (forall k :: k in store && k != key ==> o.store[k] == store[k])
              && o.accesses == [Read(key), Write(key, o.store[key])]
  {
    if !authenticated then
      Outcome(Response(401, Text(Unauthorized)), store, [])
    else if !Present(blog) then
      Outcome(Response(400, Text(MissingBlogId)), store, [])
    else if !JsonContentType(contentType) then
      Outcome(Response(400, Text(InvalidContentType)), store, [])
    else if !Present(body.content) || !Present(body.username) then
      Outcome(Response(400, Text(InvalidComment)), store, [])
    else
      var key := KeyOf(blog.value);
      var added := Comment(uuid, body.content.value, body.rid, body.username.value, now);
      var after := Stored(store, key) + [added];
      Outcome(Response(200, Text(CommentAdded)), store[key := after], [Read(key), Write(key, after)])
  }

  /** Delete: authentication first, then both ids; a blog with no stored document and a
      target that matches nothing are both 404 with a read and no write. Otherwise the
      target and its direct replies are dropped and the shorter array is written back. */
  function DeleteComment(store: Store, authenticated: bool, blog: Option<string>, cid: Option<string>): (o: Outcome)
    ensures !authenticated ==> o == Outcome(Response(401, Text(Unauthorized)), store, [])
    ensures authenticated && !(Present(blog) && Present(cid)) ==>
              o == Outcome(Response(400, Text(MissingIds)), store, [])
    ensures authenticated && Present(blog) && Present(cid) && KeyOf(blog.value) !in store ==>
              o == Outcome(Response(404, Text(NoCommentsFound)), store, [Read(KeyOf(blog.value))])
    ensures authenticated && Present(blog) && Present(cid) && KeyOf(blog.value) in store
            && (forall c :: c in store[KeyOf(blog.value)] ==> Survives(c, cid.value)) ==>
              o == Outcome(Response(404, Text(CommentNotFound)), store, [Read(KeyOf(blog.value))])
    ensures o.response.status == 200 <==>
              && authenticated && Present(blog) && Present(cid) && KeyOf(blog.value) in store
              && exists c :: c in store[KeyOf(blog.value)] && !Survives(c, cid.value)
    ensures o.response.status != 200 ==> o.store == store
    ensures o.response.status == 200 ==>
              var key := KeyOf(blog.value);
              && o.response.body == Text(CommentDeleted)
              && o.store == store[key := Prune(store[key], cid.value)]
              && (forall c :: c in o.store[key] <==> c in store[key] && Survives(c, cid.value))
              && |o.store[key]| < |store[key]|
              && o.accesses == [Read(key), Write(key, o.store[key])]
  {
    if !authenticated then
      Outcome(Response(401, Text(Unauthorized)), store, [])
    else if !Present(blog) || !Present(cid) then
      Outcome(Response(400, Text(MissingIds)), store, [])
    else
      var key := KeyOf(blog.value);
      if key !in store then
        Outcome(Response(404, Text(NoCommentsFound)), store, [Read(key)])
      else
        var kept := Prune(store[key], cid.value);
        PruneMembers(store[key], cid.value);
        PruneUnchanged(store[key], cid.value);
        if |kept| == |store[key]| then
          Outcome(Response(404, Text(CommentNotFound)), store, [Read(key)])
        else
          Outcome(Response(200, Text(CommentDeleted)), store[key := kept], [Read(key), Write(key, kept)])
  }

  /** The entry point: route, then run the chosen handler with the parameters it reads. */
  function Serve(store: Store, request: Request, ctx: Context): (o: Outcome)
    ensures Router.Route(request.path, request.verb).Reject? ==>
              var d := Router.Route(request.path, request.verb);
              o == Outcome(Response(d.status, Text(d.message)), store, [])
    ensures o.store != store ==> request.verb in {"POST", "DELETE"}
    ensures store.Keys <= o.store.Keys
    ensures o.store != store ==>
              var blog := QueryGet(request.query, "blog");
              && blog.Some? && KeyOf(blog.value) in o.store
              && o.store == store[KeyOf(blog.value) := o.store[KeyOf(blog.value)]]
    ensures forall k, c :: k in o.store && c in o.store[k] ==>
              (k in store && c in store[k]) || (c.cid == ctx.uuid && c.time == ctx.now && WellFormed(c))
  {
    var blog := QueryGet(request.query, "blog");
    var d := Router.Route(request.path, request.verb);
    if d.Reject? then
      Outcome(Response(d.status, Text(d.message)), store, [])
    else if d.handler == Router.GetComments then
      GetComments(store, blog)
    else if d.handler == Router.InsertComment then
      InsertComment(store, ctx.authenticated, blog, request.contentType, request.body, ctx.uuid, ctx.now)
    else
      DeleteComment(store, ctx.authenticated, blog, QueryGet(request.query, "cid"))
  }
}
