/** An incoming request, already taken apart: path, HTTP method (verb), query parameters,
    the Content-Type header and the fields of the decoded JSON body. */
module Requests {
  import opened Comments

  /** The fields the insert handler reads from the decoded request body. */
  datatype Payload = Payload(content: Option<string>, username: Option<string>, rid: Option<string>)

  /** The query string as the ordered list of (name, value) pairs it holds. */
  type Query = seq<(string, string)>

  datatype Request = Request(path: string, verb: string, query: Query, contentType: Option<string>, body: Payload)

  /** What the handlers take from outside the request: the verdict of the authentication
      check, the fresh identifier for a new comment, and the clock in milliseconds. */
  datatype Context = Context(authenticated: bool, uuid: string, now: int)

  /** The value of the first query pair named `name`, or None if there is none. */
  function QueryGet(query: Query, name: string): (r: Option<string>)
    ensures r.None? <==> forall i :: 0 <= i < |query| ==> query[i].0 != name
    ensures r.Some? ==> exists i :: 0 <= i < |query| && query[i] == (name, r.value)
                                     && forall j :: 0 <= j < i ==> query[j].0 != name
  {
    if query == [] then None
    else if query[0].0 == name then Some(query[0].1)
    else
      var r := QueryGet(query[1..], name);
      assert forall i :: 1 <= i < |query| ==> query[i] == query[1..][i - 1];
      assert r.Some? ==> exists i :: 1 <= i < |query| && query[i] == (name, r.value)
                                     && forall j :: 0 <= j < i ==> query[j].0 != name;
      r
  }

  /** `sub` occurs in `s` starting at position `i`. */
  predicate OccursAt(s: string, sub: string, i: int) {
    0 <= i && i + |sub| <= |s| && s[i..i + |sub|] == sub
  }

  /** Substring search, as JavaScript's `String.prototype.includes` (case-sensitive). */
  function Contains(s: string, sub: string): (b: bool)
    ensures b <==> exists i :: OccursAt(s, sub, i)
    decreases |s|
  {
    if |s| < |sub| then
      assert forall i :: !OccursAt(s, sub, i);
      false
    else if s[..|sub|] == sub then
      assert OccursAt(s, sub, 0);
      true
    else
      var b := Contains(s[1..], sub);
      ShiftOccurs(s, sub);
      assert !OccursAt(s, sub, 0);
      b
  }

  /** An occurrence in the tail of `s` is an occurrence in `s` one position later, and back. */
  lemma ShiftOccurs(s: string, sub: string)
    requires s != []
    ensures (exists i :: OccursAt(s[1..], sub, i)) <==> (exists i :: 1 <= i && OccursAt(s, sub, i))
  {
    forall i | 0 <= i && i + |sub| <= |s| - 1
      ensures OccursAt(s[1..], sub, i) <==> OccursAt(s, sub, i + 1)
    {
      assert s[1..][i..i + |sub|] == s[i + 1..i + 1 + |sub|];
    }
    if i :| 1 <= i && OccursAt(s, sub, i) {
      assert OccursAt(s[1..], sub, i - 1);
    }
  }

  /** The insert handler's Content-Type test: a missing header counts as the empty string. */
  predicate JsonContentType(header: Option<string>) {
    Contains(if header.Some? then header.value else "", "application/json")
  }
}
