/** The records exchanged between the store, the proxy and the HTTP layer,
    and the `{messages: [...]}` error body. Timestamps are readings of the
    store's abstract clock; Go's `*int` is an `Option<int>`. */
module Models {
  import opened Common

  datatype Folder = Folder(
    id: int,
    name: string,
    parentId: Option<int>,
    createdAt: nat,
    updatedAt: nat)

  /** A saved request. `headers` is never absent: Go's nil map and empty map
      are the same empty map here. */
  datatype Request = Request(
    id: int,
    name: string,
    folderId: Option<int>,
    httpMethod: string,
    url: string,
    headers: map<string, string>,
    body: string,
    createdAt: nat,
    updatedAt: nat)

  /** The normalised result of one proxied call. */
  datatype Response = Response(
    statusCode: int,
    headers: map<string, string>,
    body: string,
    duration: int)

  datatype ErrorResponse = ErrorResponse(messages: seq<string>)

  /** An error body carrying exactly the one message given, whatever its text. */
  function NewErrorResponse(message: string): (r: ErrorResponse)
    ensures |r.messages| == 1
    ensures r.messages[0] == message
  {
    ErrorResponse([message])
  }

  /** An error body carrying the given messages as they are: same length, same
      order, empty strings kept. */
  function NewErrorResponseWithMessages(messages: seq<string>): (r: ErrorResponse)
    ensures |r.messages| == |messages|
    ensures forall i :: 0 <= i < |messages| ==> r.messages[i] == messages[i]
  {
    ErrorResponse(messages)
  }

  /** The single-message constructor is the many-message one applied to a
      one-element list, and an empty list stays empty. */
  lemma SingleIsSpecialCase(message: string)
    ensures NewErrorResponse(message) == NewErrorResponseWithMessages([message])
    ensures NewErrorResponseWithMessages([]).messages == []
  {
  }
}
