/** The dispatcher of WsRpcHandler as values: `handleTextMessage` and
    `callMethod` map the handler table, the registry, the codec, what the
    invoked controller does and one inbound frame to the exception that
    escapes (if any), the reflective call made (if any) and the reply frame
    written back to the originating session (if any). */
module Dispatch {
  import opened Types
  import opened Identifiers
  import opened Requests
  import opened Responses
  import opened HandlerTable
  import opened Registry

  /** A value passed to one handler parameter. */
  datatype Arg =
    | SessionArg(session: Session)
    | MessageArg(message: TextMessage)
    | IdentifierArg(ident: Option<Identifier>)
    | RequestArg(request: RequestEnvelope)
    | PayloadArg(data: Option<Json>)

  /** The JSON codec: `decode(text, type)` reads a request whose data has
      the named type, `encode` writes a response; either may fail. */
  datatype Codec = Codec(
    decode: (string, string) -> Option<RequestEnvelope>,
    encode: ResponseEnvelope -> Option<string>)

  /** The data type of the first, generic decode of every frame. */
  const ObjectType: string := "java.lang.Object"

  /** One reflective call of a handler method on a controller bean. */
  datatype Invocation = Invocation(bean: BeanId, handler: HandlerMethod, args: seq<Arg>)

  /** How `Method.invoke` ends: the handler returned (null for void), the
      handler threw `cause` (an InvocationTargetException), or reflection
      itself refused the call (illegal access or argument). */
  datatype InvocationResult = Returned(value: Option<Json>) | Threw(cause: Json) | InvocationFailed

  /** What the controllers do when invoked. */
  type Behaviour = Invocation -> InvocationResult

  /** `sessions.get(session)`: the bound identifier, null when the session
      is anonymous or not registered. */
  function BoundIdentifier(m: Sessions, s: Session): Option<Identifier>
  {
    if s in m then m[s] else None
  }

  /** The value of a parameter of the given kind; a payload that cannot be
      decoded at the parameter's type yields null, whose `getData()` throws. */
  function ResolveArg(kind: ParamKind, s: Session, message: TextMessage, request: RequestEnvelope,
                      m: Sessions, codec: Codec): Option<Arg>
  {
    match kind
    case SessionParam => Some(SessionArg(s))
    case MessageParam => Some(MessageArg(message))
    case IdentifierParam => Some(IdentifierArg(BoundIdentifier(m, s)))
    case RequestParam => Some(RequestArg(request))
    case PayloadParam(t) =>
      match codec.decode(message.payload, t)
      case None => None
      case Some(r) => Some(PayloadArg(r.data))
  }

  /** `createMethodResponse(responseKey, value)`. */
  function MethodResponse(key: Option<string>, value: Option<Json>): ResponseEnvelope
  {
    ResponseEnvelope(None, key, value, None)
  }

  /** The error reply built in the InvocationTargetException handler. */
  function ErrorResponse(key: Option<string>, cause: Json): ResponseEnvelope
  {
    ResponseEnvelope(None, key, None, Some(cause))
  }

  datatype DispatchResult = DispatchResult(status: Status, invoked: Option<Invocation>, reply: Option<string>)

  /** The `try` of `callMethod` once the call has been made: a returned
      value is replied as data (an encoding failure there is caught); a
      thrown cause is replied as error (an encoding failure there escapes);
      a refused call is caught and nothing is sent. */
  function Respond(codec: Codec, request: RequestEnvelope, call: Invocation, result: InvocationResult): DispatchResult
  {
    match result
    case Returned(v) =>
      DispatchResult(Normal, Some(call), codec.encode(MethodResponse(request.responseKey, v)))
    case Threw(cause) =>
      (match codec.encode(ErrorResponse(request.responseKey, cause))
       case None => DispatchResult(Thrown(EncodingFailed), Some(call), None)
       case Some(text) => DispatchResult(Normal, Some(call), Some(text)))
    case InvocationFailed =>
      DispatchResult(Normal, Some(call), None)
  }

  /** `callMethod`: resolve every argument (an undecodable payload throws
      before any call), invoke, respond. */
  function CallOutcome(h: HandlerMethod, bean: BeanId, s: Session, message: TextMessage, request: RequestEnvelope,
                      m: Sessions, codec: Codec, behaviour: Behaviour): DispatchResult
  {
    if exists i | 0 <= i < |h.params| :: ResolveArg(h.params[i], s, message, request, m, codec).None? then
      DispatchResult(Thrown(NullPointer), None, None)
    else
      var args := seq(|h.params|, i requires 0 <= i < |h.params| =>
                        ResolveArg(h.params[i], s, message, request, m, codec).value);
      var call := Invocation(bean, h, args);
      Respond(codec, request, call, behaviour(call))
  }

  /** Once every argument is resolved, `callMethod` invokes the handler with
      exactly those arguments and responds to what it does. */
  lemma CallWithResolvedArguments(h: HandlerMethod, bean: BeanId, s: Session, message: TextMessage,
                                  request: RequestEnvelope, m: Sessions, codec: Codec, behaviour: Behaviour,
                                  args: seq<Arg>)
    requires |args| == |h.params|
    requires forall i | 0 <= i < |h.params| :: Some(args[i]) == ResolveArg(h.params[i], s, message, request, m, codec)
    ensures CallOutcome(h, bean, s, message, request, m, codec, behaviour) ==
              Respond(codec, request, Invocation(bean, h, args), behaviour(Invocation(bean, h, args)))
  {
    var expected := seq(|h.params|, i requires 0 <= i < |h.params| =>
                          ResolveArg(h.params[i], s, message, request, m, codec).value);
    assert args == expected;
  }

  /** `handleTextMessage`: decode generically (a failed decode is null and
      the path lookup throws), look the path up, then invoke a
      zero-parameter handler directly, letting its exceptions escape and
      sending nothing, or go through `callMethod`. */
  function HandleOutcome(handlers: Table, controllers: map<string, BeanId>, m: Sessions, codec: Codec,
                    behaviour: Behaviour, s: Session, message: TextMessage): DispatchResult
    requires Backed(handlers, controllers)
  {
    match codec.decode(message.payload, ObjectType)
    case None => DispatchResult(Thrown(NullPointer), None, None)
    case Some(request) =>
      if request.path.None? || request.path.value !in handlers then
        DispatchResult(Thrown(NoSuchMethod), None, None)
      else
        var h := handlers[request.path.value];
        var bean := controllers[h.declaringClass];
        if |h.params| == 0 then
          var call := Invocation(bean, h, []);
          match behaviour(call)
          case Returned(_) => DispatchResult(Normal, Some(call), None)
          case Threw(cause) => DispatchResult(Thrown(InvocationTarget(cause)), Some(call), None)
          case InvocationFailed => DispatchResult(Thrown(IllegalInvocation), Some(call), None)
        else
          CallOutcome(h, bean, s, message, request, m, codec, behaviour)
  }

  /** A frame the codec cannot read makes `handleTextMessage` throw a
      NullPointerException; nothing is invoked and nothing is sent. */
  lemma UndecodableFrameThrows(handlers: Table, controllers: map<string, BeanId>, m: Sessions, codec: Codec,
                               behaviour: Behaviour, s: Session, message: TextMessage)
    requires Backed(handlers, controllers)
    requires codec.decode(message.payload, ObjectType).None?
    ensures HandleOutcome(handlers, controllers, m, codec, behaviour, s, message) == DispatchResult(Thrown(NullPointer), None, None)
  {
  }

  /** A path with no handler throws NoSuchMethodException; nothing is
      invoked and nothing is sent. */
  lemma UnknownPathThrows(handlers: Table, controllers: map<string, BeanId>, m: Sessions, codec: Codec,
                          behaviour: Behaviour, s: Session, message: TextMessage)
    requires Backed(handlers, controllers)
    requires codec.decode(message.payload, ObjectType).Some?
    requires var p := codec.decode(message.payload, ObjectType).value.path; p.None? || p.value !in handlers
    ensures HandleOutcome(handlers, controllers, m, codec, behaviour, s, message) == DispatchResult(Thrown(NoSuchMethod), None, None)
  {
  }

  /** A zero-parameter handler is invoked once with no arguments on its
      controller's bean and no reply is ever sent; what it throws escapes. */
  lemma ZeroParameterHandlerNeverReplies(handlers: Table, controllers: map<string, BeanId>, m: Sessions, codec: Codec,
                                         behaviour: Behaviour, s: Session, message: TextMessage)
    requires Backed(handlers, controllers)
    requires codec.decode(message.payload, ObjectType).Some?
    requires var p := codec.decode(message.payload, ObjectType).value.path; p.Some? && p.value in handlers
    requires handlers[codec.decode(message.payload, ObjectType).value.path.value].params == []
    ensures var h := handlers[codec.decode(message.payload, ObjectType).value.path.value];
      var d := HandleOutcome(handlers, controllers, m, codec, behaviour, s, message);
      var call := Invocation(controllers[h.declaringClass], h, []);
      && d.invoked == Some(call)
      && d.reply.None?
      && (d.status.Thrown? <==> !behaviour(call).Returned?)
  {
  }

  /** When a handler with parameters is reached, argument `i` is chosen by
      the kind of parameter `i` and the handler is called once with them,
      unless some payload parameter cannot be decoded, in which case the
      NullPointerException escapes before any call. */
  lemma CallReceivesResolvedArguments(handlers: Table, controllers: map<string, BeanId>, m: Sessions, codec: Codec,
                                      behaviour: Behaviour, s: Session, message: TextMessage)
    requires Backed(handlers, controllers)
    requires codec.decode(message.payload, ObjectType).Some?
    requires var p := codec.decode(message.payload, ObjectType).value.path; p.Some? && p.value in handlers
    requires handlers[codec.decode(message.payload, ObjectType).value.path.value].params != []
    ensures var request := codec.decode(message.payload, ObjectType).value;
      var h := handlers[request.path.value];
      var d := HandleOutcome(handlers, controllers, m, codec, behaviour, s, message);
      && (d.invoked.None? <==> exists i | 0 <= i < |h.params| :: h.params[i].PayloadParam? &&
                                  codec.decode(message.payload, h.params[i].typeName).None?)
      && (d.invoked.None? ==> d == DispatchResult(Thrown(NullPointer), None, None))
      && (d.invoked.Some? ==>
            && d.invoked.value.bean == controllers[h.declaringClass]
            && d.invoked.value.handler == h
            && |d.invoked.value.args| == |h.params|
            && forall i | 0 <= i < |h.params| ::
                 Some(d.invoked.value.args[i]) == ResolveArg(h.params[i], s, message, request, m, codec))
  {
    var request := codec.decode(message.payload, ObjectType).value;
    var h := handlers[request.path.value];
    forall i | 0 <= i < |h.params|
      ensures ResolveArg(h.params[i], s, message, request, m, codec).None? <==>
                h.params[i].PayloadParam? && codec.decode(message.payload, h.params[i].typeName).None?
    {
    }
  }

  /** Every reply answers the request it was computed from: it goes only to
      the originating session, has no path, echoes the request's
      `responseKey`, and carries either the handler's return value as data
      or, when the handler threw, its cause as error and no data. A handler
      with parameters that returns is always answered with its value, unless
      that reply cannot be encoded; one that throws is always answered with
      its cause, and when that error reply cannot be encoded the encoding
      failure escapes instead; a call refused by reflection, or whose
      success reply cannot be encoded, sends nothing and throws nothing. */
  lemma ReplyIsCorrelated(handlers: Table, controllers: map<string, BeanId>, m: Sessions, codec: Codec,
                          behaviour: Behaviour, s: Session, message: TextMessage)
    requires Backed(handlers, controllers)
    ensures var d := HandleOutcome(handlers, controllers, m, codec, behaviour, s, message);
      d.reply.Some? ==>
        && d.invoked.Some?
        && codec.decode(message.payload, ObjectType).Some?
        && var request := codec.decode(message.payload, ObjectType).value;
           match behaviour(d.invoked.value)
           case Returned(v) =>
             codec.encode(ResponseEnvelope(None, request.responseKey, v, None)) == d.reply
           case Threw(cause) =>
             codec.encode(ResponseEnvelope(None, request.responseKey, None, Some(cause))) == d.reply
           case InvocationFailed => false
    ensures var d := HandleOutcome(handlers, controllers, m, codec, behaviour, s, message);
      d.invoked.Some? && |d.invoked.value.handler.params| > 0 ==>
        && codec.decode(message.payload, ObjectType).Some?
        && var request := codec.decode(message.payload, ObjectType).value;
           match behaviour(d.invoked.value)
           case Returned(v) => d.status == Normal && d.reply == codec.encode(MethodResponse(request.responseKey, v))
           case Threw(cause) =>
             && d.reply == codec.encode(ErrorResponse(request.responseKey, cause))
             && (d.status == Normal <==> d.reply.Some?)
             && (d.reply.None? ==> d.status == Thrown(EncodingFailed))
           case InvocationFailed => d.status == Normal && d.reply.None?
  {
  }
}
