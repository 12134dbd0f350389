/** Values shared by every part of the model: Java's nullable references,
    the JSON payloads the codec reads and writes, sessions, and the
    exceptions the handler lets escape to the WebSocket container. */
module Types {

  /** A Java reference that may be null: `None` is null. */
  datatype Option<+T> = None | Some(value: T)

  /** Java's `long`. */
  newtype Long = x: int | -0x8000_0000_0000_0000 <= x < 0x8000_0000_0000_0000

  /** A payload as the JSON codec sees it: request data, handler return
      values and thrown causes are all carried as JSON. */
  datatype Json =
    | JNull
    | JBool(b: bool)
    | JNumber(n: int)
    | JString(s: string)
    | JArray(items: seq<Json>)
    | JObject(fields: seq<(string, Json)>)

  /** A WebSocket session, reduced to the id its transport assigned it:
      two live sessions are the same object exactly when their ids agree. */
  datatype Session = Session(id: string)

  /** Spring's `TextMessage`: the raw text of one inbound frame. */
  datatype TextMessage = TextMessage(payload: string)

  /** The exceptions that escape the handler's public entry points. */
  datatype Exception =
    | NullPointer                  // a null reference was dereferenced
    | NoSuchMethod                 // no handler is mapped to the request's path
    | InvocationTarget(cause: Json) // the handler itself threw `cause`
    | IllegalInvocation            // reflection refused the call (access, arguments)
    | EncodingFailed               // the codec could not serialize an outbound envelope

  /** How a call into the handler ends: normally, or by throwing. */
  datatype Status = Normal | Thrown(exception: Exception)
}
