/** The routes table and the decision the request entry point takes on it. */
module Router {

  datatype Handler = GetComments | InsertComment | DeleteComment

  /** Either call a handler, or answer at once with a status and a message. */
  datatype Decision = Dispatch(handler: Handler) | Reject(status: int, message: string)

  const MethodNotAllowed := "Method Not Allowed"
  const NotFound := "Not Found"

  /** The routes table: path, then verb, to the handler registered for them. */
  const Routes: map<string, map<string, Handler>> := map[
    "/getComments" := map["GET" := GetComments],
    "/insertComment" := map["POST" := InsertComment],
    "/deleteComment" := map["DELETE" := DeleteComment]
  ]

  /** The one (path, verb) pair each handler is registered under. */
  function Endpoint(h: Handler): (string, string) {
    match h
    case GetComments => ("/getComments", "GET")
    case InsertComment => ("/insertComment", "POST")
    case DeleteComment => ("/deleteComment", "DELETE")
  }

  /** Route selection: a registered pair dispatches, a registered path with any
      other verb is refused with 405, any other path with 404. Paths and methods
      are compared exactly, case included. */
  function Route(path: string, verb: string): (d: Decision)
    ensures d.Dispatch? <==> exists h :: Endpoint(h) == (path, verb)
    ensures d.Dispatch? ==> Endpoint(d.handler) == (path, verb)
    ensures d == Reject(405, MethodNotAllowed) <==>
              (exists h :: Endpoint(h).0 == path) && forall h :: Endpoint(h) != (path, verb)
    ensures d == Reject(404, NotFound) <==> forall h :: Endpoint(h).0 != path
  {
    assert forall h :: Endpoint(h).0 in Routes && Routes[Endpoint(h).0] == map[Endpoint(h).1 := h];
    if path in Routes && verb in Routes[path] then
      assert Endpoint(Routes[path][verb]) == (path, verb);
      Dispatch(Routes[path][verb])
    else if path in Routes then
      assert Endpoint(GetComments).0 == path || Endpoint(InsertComment).0 == path
          || Endpoint(DeleteComment).0 == path;
      Reject(405, MethodNotAllowed)
    else
      Reject(404, NotFound)
  }
}
