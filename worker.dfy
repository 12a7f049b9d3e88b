/** The worker as it runs: an object-store bucket whose contents the handlers read,
    change in memory and overwrite, and the request entry point that routes to them.
    Each method is proved to do exactly what the matching function of Handlers says. */
module Worker {
  import opened Comments
  import opened Cascade
  import opened Requests
  import Router
  import Handlers

  /** The object-store bucket, holding one decoded comment array per object key.
      `log` records every get and put made on it, in order. */
  class Bucket {
    var objects: Store
    ghost var log: seq<Access>

    constructor (initial: Store)
      ensures objects == initial && log == []
    {
      objects := initial;
      log := [];
    }

    /** Fetch the document under `key`; None when there is no such object. */
    method Load(key: string) returns (data: Option<seq<Comment>>)
      modifies this`log
      ensures data == if key in objects then Some(objects[key]) else None
      ensures log == old(log) + [Read(key)]
    {
      log := log + [Read(key)];
      data := if key in objects then Some(objects[key]) else None;
    }

    /** Overwrite the document under `key` with `comments`, whatever was there. */
    method Put(key: string, comments: seq<Comment>)
      modifies this
      ensures objects == old(objects)[key := comments]
      ensures log == old(log) + [Write(key, comments)]
    {
      objects := objects[key := comments];
      log := log + [Write(key, comments)];
    }
  }

  method HandleGetComments(bucket: Bucket, request: Request) returns (response: Response)
    modifies bucket`log
    ensures var o := Handlers.GetComments(old(bucket.objects), QueryGet(request.query, "blog"));
      response == o.response && bucket.objects == o.store && bucket.log == old(bucket.log) + o.accesses
  {
    var blog := QueryGet(request.query, "blog");
    if !Present(blog) {
      return Response(400, Text(Handlers.MissingBlogId));
    }
    var key := KeyOf(blog.value);
    var data := bucket.Load(key);
    var comments := if data.Some? then data.value else [];
    response := Response(200, Listing(comments));
  }

  method HandleInsertComment(bucket: Bucket, request: Request, ctx: Context) returns (response: Response)
    modifies bucket
    ensures var o := Handlers.InsertComment(old(bucket.objects), ctx.authenticated, QueryGet(request.query, "blog"),
                                            request.contentType, request.body, ctx.uuid, ctx.now);
      response == o.response && bucket.objects == o.store && bucket.log == old(bucket.log) + o.accesses
  {
    if !ctx.authenticated {
      return Response(401, Text(Handlers.Unauthorized));
    }
    var blog := QueryGet(request.query, "blog");
    if !Present(blog) {
      return Response(400, Text(Handlers.MissingBlogId));
    }
    var contentType := if request.contentType.Some? then request.contentType.value else "";
    if !Contains(contentType, "application/json") {
      return Response(400, Text(Handlers.InvalidContentType));
    }
    var payload := request.body;
    if !Present(payload.content) || !Present(payload.username) {
      return Response(400, Text(Handlers.InvalidComment));
    }
    var key := KeyOf(blog.value);
    var comment := Comment(ctx.uuid, payload.content.value, payload.rid, payload.username.value, ctx.now);
    var data := bucket.Load(key);
    var comments := if data.Some? then data.value else [];
    comments := comments + [comment];
    bucket.Put(key, comments);
    response := Response(200, Text(Handlers.CommentAdded));
  }

  method HandleDeleteComment(bucket: Bucket, request: Request, ctx: Context) returns (response: Response)
    modifies bucket
    ensures var o := Handlers.DeleteComment(old(bucket.objects), ctx.authenticated,
                                            QueryGet(request.query, "blog"), QueryGet(request.query, "cid"));
      response == o.response && bucket.objects == o.store && bucket.log == old(bucket.log) + o.accesses
  {
    if !ctx.authenticated {
      return Response(401, Text(Handlers.Unauthorized));
    }
    var blog := QueryGet(request.query, "blog");
    var cid := QueryGet(request.query, "cid");
    if !Present(blog) || !Present(cid) {
      return Response(400, Text(Handlers.MissingIds));
    }
    var key := KeyOf(blog.value);
    var data := bucket.Load(key);
    if data.None? {
      return Response(404, Text(Handlers.NoCommentsFound));
    }
    var comments := data.value;
    var initialLength := |comments|;
    comments := Prune(comments, cid.value);
    if |comments| == initialLength {
      return Response(404, Text(Handlers.CommentNotFound));
    }
    bucket.Put(key, comments);
    response := Response(200, Text(Handlers.CommentDeleted));
  }

  /** The request entry point: routes the request and runs at most one handler. */
  method Fetch(bucket: Bucket, request: Request, ctx: Context) returns (response: Response)
    modifies bucket
    ensures var o := Handlers.Serve(old(bucket.objects), request, ctx);
      response == o.response && bucket.objects == o.store && bucket.log == old(bucket.log) + o.accesses
  {
    var route := Router.Route(request.path, request.verb);
    if route.Reject? {
      return Response(route.status, Text(route.message));
    }
    match route.handler
    case GetComments => response := HandleGetComments(bucket, request);
    case InsertComment => response := HandleInsertComment(bucket, request, ctx);
    case DeleteComment => response := HandleDeleteComment(bucket, request, ctx);
  }
}
