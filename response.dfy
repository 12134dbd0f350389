/** WsRpcResponse: the outbound envelope `{path, responseKey, data, error}`.
    A push names a `path`; a reply to a request echoes its `responseKey`
    and carries either `data` or `error`. The getters are the fields. */
module Responses {
  import opened Types

  datatype ResponseEnvelope = ResponseEnvelope(
    path: Option<string>,
    responseKey: Option<string>,
    data: Option<Json>,
    error: Option<Json>)

  class WsRpcResponse {
    var path: Option<string>
    var responseKey: Option<string>
    var data: Option<Json>
    var error: Option<Json>

    /** The fields of the response as the value the codec serializes. */
    function Envelope(): ResponseEnvelope
      reads this
    {
      ResponseEnvelope(path, responseKey, data, error)
    }

    /** `new WsRpcResponse(path, data)`: a push. */
    constructor Push(p: Option<string>, d: Option<Json>)
      ensures Envelope() == ResponseEnvelope(p, None, d, None)
    {
      path, responseKey, data, error := p, None, d, None;
    }

    /** `new WsRpcResponse(data)`: data only. */
    constructor WithData(d: Option<Json>)
      ensures Envelope() == ResponseEnvelope(None, None, d, None)
    {
      path, responseKey, data, error := None, None, d, None;
    }

    /** `new WsRpcResponse()`: every field null. */
    constructor ()
      ensures Envelope() == ResponseEnvelope(None, None, None, None)
    {
      path, responseKey, data, error := None, None, None, None;
    }

    method SetPath(p: Option<string>)
      modifies this
      ensures path == p
      ensures responseKey == old(responseKey) && data == old(data) && error == old(error)
    {
      path := p;
    }

    method SetData(d: Option<Json>)
      modifies this
      ensures data == d
      ensures path == old(path) && responseKey == old(responseKey) && error == old(error)
    {
      data := d;
    }

    method SetResponseKey(k: Option<string>)
      modifies this
      ensures responseKey == k
      ensures path == old(path) && data == old(data) && error == old(error)
    {
      responseKey := k;
    }

    method SetError(e: Option<Json>)
      modifies this
      ensures error == e
      ensures path == old(path) && responseKey == old(responseKey) && data == old(data)
    {
      error := e;
    }
  }
}
