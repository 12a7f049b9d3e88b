/** The records the comment service keeps in its object store and sends back. */
module Comments {

  datatype Option<+T> = None | Some(value: T)

  /** One stored comment. `rid` is the cid of the comment it replies to, if any;
      `time` is the server clock in milliseconds since the epoch. */
  datatype Comment = Comment(cid: string, content: string, rid: Option<string>, username: string, time: int)

  /** The object store, already decoded: object key to the comment array kept under it. */
  type Store = map<string, seq<Comment>>

  /** One call into the object store, in the order the handlers make them. */
  datatype Access = Read(key: string) | Write(key: string, comments: seq<Comment>)

  /** A response body is either a plain message or a JSON array of comments. */
  datatype Body = Text(message: string) | Listing(comments: seq<Comment>)

  datatype Response = Response(status: int, body: Body)

  /** JavaScript truthiness of a value that is either absent or a string:
      both absence and the empty string are falsy. */
  predicate Present(v: Option<string>) {
    v.Some? && v.value != ""
  }

  /** The object key under which the comments of one blog are stored. */
  function KeyOf(blog: string): string {
    blog + ".json"
  }

  /** Two blogs share a stored document only if they are the same blog. */
  lemma {:induction false} KeyOfInjective(a: string, b: string)
    requires KeyOf(a) == KeyOf(b)
    ensures a == b
  {
    assert |a| == |b|;
    assert a == KeyOf(a)[..|a|];
    assert b == KeyOf(b)[..|b|];
  }

  /** A comment as the insert handler builds it: non-empty text and author. */
  predicate WellFormed(c: Comment) {
    c.content != "" && c.username != ""
  }
}
