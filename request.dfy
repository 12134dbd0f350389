/** WsRpcRequest: the inbound envelope `{path, responseKey, data}`. The
    codec yields it as a value; the Java bean with its setters is the
    class below, whose getters are its fields. */
module Requests {
  import opened Types

  /** A decoded request; every field may be absent (null) on the wire. */
  datatype RequestEnvelope = RequestEnvelope(path: Option<string>, responseKey: Option<string>, data: Option<Json>)

  class WsRpcRequest {
    var path: Option<string>
    var responseKey: Option<string>
    var data: Option<Json>

    /** A fresh request has every field null. */
    constructor ()
      ensures path.None? && responseKey.None? && data.None?
    {
      path, responseKey, data := None, None, None;
    }

    method SetPath(p: Option<string>)
      modifies this
      ensures path == p
      ensures responseKey == old(responseKey) && data == old(data)
    {
      path := p;
    }

    method SetResponseKey(k: Option<string>)
      modifies this
      ensures responseKey == k
      ensures path == old(path) && data == old(data)
    {
      responseKey := k;
    }

    method SetData(d: Option<Json>)
      modifies this
      ensures data == d
      ensures path == old(path) && responseKey == old(responseKey)
    {
      data := d;
    }
  }
}
