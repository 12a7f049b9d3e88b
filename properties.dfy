/** Properties that relate several requests to one another. */
module Properties {
  import opened Comments
  import opened Cascade
  import opened Requests
  import opened Handlers
  import Router

  /** Every stored comment has non-empty content and author. */
  predicate AllWellFormed(store: Store) {
    forall k, c :: k in store && c in store[k] ==> WellFormed(c)
  }

  /** No request ever stores a comment with empty content or author, so a store
      that holds only well-formed comments keeps holding only well-formed ones. */
  lemma ServePreservesWellFormed(store: Store, request: Request, ctx: Context)
    requires AllWellFormed(store)
    ensures AllWellFormed(Serve(store, request, ctx).store)
  {
  }

  /** A valid insert appends exactly one comment to the blog's array. */
  lemma InsertAppends(store: Store, blog: string, contentType: Option<string>, body: Payload, uuid: string, now: int)
    requires blog != ""
    requires JsonContentType(contentType) && Present(body.content) && Present(body.username)
    ensures var o := InsertComment(store, true, Some(blog), contentType, body, uuid, now);
            var added := Comment(uuid, body.content.value, body.rid, body.username.value, now);
            o.response == Response(200, Text(CommentAdded))
            && o.store == store[KeyOf(blog) := Stored(store, KeyOf(blog)) + [added]]
  {
  }

  /** Deleting the last comment of an array whose other comments all survive writes back
      the array without it. */
  lemma {:induction false} DeleteLast(store: Store, blog: string, before: seq<Comment>, added: Comment)
    requires blog != "" && added.cid != ""
    requires forall c :: c in before ==> Survives(c, added.cid)
    ensures var o := DeleteComment(store[KeyOf(blog) := before + [added]], true, Some(blog), Some(added.cid));
            o.response == Response(200, Text(CommentDeleted)) && o.store == store[KeyOf(blog) := before]
  {
    var key := KeyOf(blog);
    var after := before + [added];
    var s := store[key := after];
    assert forall i :: 0 <= i < |before| ==> Survives(before[i], added.cid) by {
      forall i | 0 <= i < |before| ensures Survives(before[i], added.cid) {
        assert before[i] in before;
      }
    }
    PruneUnchanged(before, added.cid);
    PruneAppend(before, [added], added.cid);
    assert Prune([added], added.cid) == [];
    assert Prune(after, added.cid) == before;
    assert key in s && s[key] == after && |before| != |after|;
    assert DeleteComment(s, true, Some(blog), Some(added.cid))
        == Outcome(Response(200, Text(CommentDeleted)), s[key := before], [Read(key), Write(key, before)]);
    assert s[key := before] == store[key := before];
  }

  /** Deleting a freshly inserted comment right after inserting it succeeds and puts
      the blog's comments back as they were (an absent blog is left with an empty array).
      This needs the new identifier to match no cid and no rid already stored for the blog. */
  lemma InsertThenDeleteRestores(store: Store, blog: string, contentType: Option<string>,
                                 body: Payload, uuid: string, now: int)
    requires blog != "" && uuid != ""
    requires JsonContentType(contentType) && Present(body.content) && Present(body.username)
    requires forall c :: c in Stored(store, KeyOf(blog)) ==> Survives(c, uuid)
    ensures var ins := InsertComment(store, true, Some(blog), contentType, body, uuid, now);
            var del := DeleteComment(ins.store, true, Some(blog), Some(uuid));
            && ins.response == Response(200, Text(CommentAdded))
            && del.response == Response(200, Text(CommentDeleted))
            && del.store == store[KeyOf(blog) := Stored(store, KeyOf(blog))]
  {
    InsertAppends(store, blog, contentType, body, uuid, now);
    DeleteLast(store, blog, Stored(store, KeyOf(blog)),
               Comment(uuid, body.content.value, body.rid, body.username.value, now));
  }

  /** Deleting the same comment twice: the second request finds nothing to remove,
      answers 404 and leaves the store as the first one left it. */
  lemma DeleteTwiceNotFound(store: Store, blog: Option<string>, cid: Option<string>)
    requires DeleteComment(store, true, blog, cid).response.status == 200
    ensures var first := DeleteComment(store, true, blog, cid);
            var second := DeleteComment(first.store, true, blog, cid);
            second.response == Response(404, Text(CommentNotFound)) && second.store == first.store
  {
    PruneIdempotent(store[KeyOf(blog.value)], cid.value);
  }

  /** A request for one blog never changes what listing another blog returns. */
  lemma ServeIsolatesBlogs(store: Store, request: Request, ctx: Context, other: string)
    requires QueryGet(request.query, "blog") != Some(other)
    ensures GetComments(Serve(store, request, ctx).store, Some(other)).response
              == GetComments(store, Some(other)).response
  {
    var blog := QueryGet(request.query, "blog");
    var after := Serve(store, request, ctx).store;
    if after != store {
      var key := KeyOf(blog.value);
      if key == KeyOf(other) {
        KeyOfInjective(blog.value, other);
      }
      assert after == store[key := after[key]];
      assert Stored(after, KeyOf(other)) == Stored(store, KeyOf(other));
    }
  }

  /** Listing changes nothing, so two listings with nothing in between agree. */
  lemma ListingIsRepeatable(store: Store, request: Request, ctx1: Context, ctx2: Context)
    requires request.verb == "GET"
    ensures var first := Serve(store, request, ctx1);
            Serve(first.store, request, ctx2) == Serve(store, request, ctx2)
  {
  }

  const NoBody := Payload(None, None, None)

  function PostHi(blog: string): Request {
    Request("/insertComment", "POST", [("blog", blog)], Some("application/json"), Payload(Some("hi"), Some("bob"), None))
  }

  function List(blog: string): Request {
    Request("/getComments", "GET", [("blog", blog)], None, NoBody)
  }

  function Delete(blog: string, cid: string): Request {
    Request("/deleteComment", "DELETE", [("blog", blog), ("cid", cid)], None, NoBody)
  }

  lemma PostHiAppends(store: Store, blog: string, ctx: Context)
    requires blog != "" && ctx.authenticated
    ensures var o := Serve(store, PostHi(blog), ctx);
            && o.response == Response(200, Text(CommentAdded))
            && o.store == store[KeyOf(blog) := Stored(store, KeyOf(blog)) + [Comment(ctx.uuid, "hi", None, "bob", ctx.now)]]
  {
    assert Router.Route("/insertComment", "POST") == Router.Dispatch(Router.InsertComment);
    assert QueryGet(PostHi(blog).query, "blog") == Some(blog);
    assert JsonContentType(Some("application/json")) by {
      assert OccursAt("application/json", "application/json", 0);
    }
  }

  lemma ListReturnsStored(store: Store, blog: string, ctx: Context)
    requires blog != ""
    ensures var o := Serve(store, List(blog), ctx);
            o.response == Response(200, Listing(Stored(store, KeyOf(blog)))) && o.store == store
  {
    assert Router.Route("/getComments", "GET") == Router.Dispatch(Router.GetComments);
    assert QueryGet(List(blog).query, "blog") == Some(blog);
  }

  lemma DeleteRemoves(store: Store, blog: string, cid: string, ctx: Context, victim: Comment)
    requires blog != "" && cid != "" && ctx.authenticated
    requires KeyOf(blog) in store && victim in store[KeyOf(blog)] && !Survives(victim, cid)
    ensures var o := Serve(store, Delete(blog, cid), ctx);
            o.response == Response(200, Text(CommentDeleted))
            && o.store == store[KeyOf(blog) := Prune(store[KeyOf(blog)], cid)]
  {
    assert Router.Route("/deleteComment", "DELETE") == Router.Dispatch(Router.DeleteComment);
    assert QueryGet(Delete(blog, cid).query, "blog") == Some(blog);
    assert QueryGet(Delete(blog, cid).query, "cid") == Some(cid);
  }

  /** Insert a comment into a blog with no comments, list it, delete it by its cid,
      and list again. */
  lemma InsertListDeleteScenario(store: Store, uuid: string, now: int)
    requires KeyOf("abc") !in store && uuid != ""
    ensures var ctx := Context(true, uuid, now);
            var s1 := Serve(store, PostHi("abc"), ctx);
            var s2 := Serve(s1.store, List("abc"), ctx);
            var s3 := Serve(s2.store, Delete("abc", uuid), ctx);
            var s4 := Serve(s3.store, List("abc"), ctx);
            && s1.response == Response(200, Text(CommentAdded))
            && s2.response == Response(200, Listing([Comment(uuid, "hi", None, "bob", now)]))
            && s3.response == Response(200, Text(CommentDeleted))
            && s4.response == Response(200, Listing([]))
  {
    var ctx := Context(true, uuid, now);
    var key := KeyOf("abc");
    var c := Comment(uuid, "hi", None, "bob", now);
    PostHiAppends(store, "abc", ctx);
    var s1 := Serve(store, PostHi("abc"), ctx);
    assert s1.store == store[key := [c]];
    ListReturnsStored(s1.store, "abc", ctx);
    var s2 := Serve(s1.store, List("abc"), ctx);
    assert s2.store[key] == [c];
    DeleteRemoves(s2.store, "abc", uuid, ctx, c);
    assert Prune([c], uuid) == [];
    var s3 := Serve(s2.store, Delete("abc", uuid), ctx);
    assert s3.store == s2.store[key := []];
    ListReturnsStored(s3.store, "abc", ctx);
  }

  /** An unknown path is 404 and a registered path with the wrong method is 405;
      neither touches the store. */
  lemma MisroutedScenario(store: Store, ctx: Context)
    ensures var o := Serve(store, Request("/unknownPath", "GET", [], None, NoBody), ctx);
            o.response.status == 404 && o.store == store && o.accesses == []
    ensures var o := Serve(store, Request("/getComments", "POST", [], None, NoBody), ctx);
            o.response.status == 405 && o.store == store && o.accesses == []
  {
    assert Router.Route("/unknownPath", "GET").status == 404;
    assert Router.Route("/getComments", "POST").status == 405;
  }
}
