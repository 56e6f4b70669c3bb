/** The hub's HTTP response value and its uniform error envelope (Response.java). */
module Responses {

  import opened Faults

  datatype Header = Header(name: string, value: string)

  /** A status code, a body and the headers in the order the worker sent them. */
  datatype Response = Response(statusCode: int, body: string, headers: seq<Header>)

  /** `new Response(errorMessage)`: status 200, body "ERROR: " + message, no headers. */
  function ErrorResponse(errorMessage: string): (r: Response)
    ensures r.statusCode == 200 && r.headers == []
    ensures StartsWithError(r.body) && r.body[|ErrorPrefix|..] == errorMessage
  {
    Response(200, ErrorPrefix + errorMessage, [])
  }

  const ErrorPrefix := "ERROR: "

  predicate StartsWithError(body: string) {
    |ErrorPrefix| <= |body| && body[..|ErrorPrefix|] == ErrorPrefix
  }

  /** `new Response()`: the error envelope with an empty message. */
  function EmptyErrorResponse(): (r: Response)
    ensures r.statusCode == 200 && r.body == "ERROR: " && r.headers == []
  {
    ErrorResponse("")
  }

  /** `new Response(statusCode, body)`: the given status and body, and no headers. */
  function PlainResponse(statusCode: int, body: string): (r: Response)
    ensures r.statusCode == statusCode && r.body == body && r.headers == []
  {
    Response(statusCode, body, [])
  }

  /** The error envelope is recognisable from its body alone, and the message can be read back. */
  lemma ErrorResponseRoundTrip(m1: string, m2: string)
    ensures ErrorResponse(m1) == ErrorResponse(m2) <==> m1 == m2
  {
    if ErrorResponse(m1) == ErrorResponse(m2) {
      assert m1 == ErrorResponse(m1).body[|ErrorPrefix|..];
    }
  }

  /** `getHeader(name)`: the first header in order whose name is exactly `name`, or null. */
  method GetHeader(r: Response, name: string) returns (h: Option<Header>)
    ensures h.Some? ==> exists i :: 0 <= i < |r.headers| && r.headers[i] == h.value && h.value.name == name &&
                                    forall k :: 0 <= k < i ==> r.headers[k].name != name
    ensures h.None? <==> forall i :: 0 <= i < |r.headers| ==> r.headers[i].name != name
  {
    var i := 0;
    while i < |r.headers|
      invariant 0 <= i <= |r.headers|
      invariant forall k :: 0 <= k < i ==> r.headers[k].name != name
    {
      if r.headers[i].name == name {
        return Some(r.headers[i]);
      }
      i := i + 1;
    }
    return None;
  }
}
