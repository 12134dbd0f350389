/** WsRpcHandler: the text WebSocket handler that keeps the session
    registry, rebuilds the handler table on every context refresh,
    dispatches inbound frames to controller methods and pushes outbound
    frames to sessions. Each method is proved against the value-level
    definitions of the Registry, HandlerTable, Dispatch and Routing
    modules. */
module Handler {
  import opened Types
  import opened Identifiers
  import opened Requests
  import opened Responses
  import opened Sockets
  import opened Registry
  import opened HandlerTable
  import opened Dispatch
  import opened Routing

  /** The path of the push that tells a new session its id. */
  const CreateResponseKey: string := "createResponseKey"

  /** The push sent to a session right after it connects. */
  function SessionAnnouncement(s: Session): ResponseEnvelope
  {
    ResponseEnvelope(Some(CreateResponseKey), None, Some(JString(s.id)), None)
  }

  /** The frame a dispatch writes back to the originating session, if any. */
  function Reply(open: set<Session>, failing: set<Session>, s: Session, reply: Option<string>): seq<Delivery>
  {
    if reply.Some? then Written(open, failing, s, reply.value) else []
  }

  /** The reflective calls a dispatch makes: none or one. */
  function Calls(d: DispatchResult): seq<Invocation>
  {
    if d.invoked.Some? then [d.invoked.value] else []
  }

  class WsRpcHandler {
    /** Each connected session and the identifier bound to it. */
    var sessions: Sessions
    /** Controller class name to its bean. */
    var controllers: map<string, BeanId>
    /** `SimpleName.methodName` to the handler method. */
    var handlers: Table
    /** The sessions' side of the connection. */
    const transport: Transport
    /** The JSON mapper. */
    const codec: Codec
    /** The reflective calls made so far, in order. */
    ghost var invocations: seq<Invocation>

    /** No identifier is bound to two sessions, and every handler's class
        has a bean to invoke it on. */
    ghost predicate Valid()
      reads this
    {
      UniqueBindings(sessions) && Backed(handlers, controllers)
    }

    constructor (transport: Transport, codec: Codec)
      ensures Valid()
      ensures this.transport == transport && this.codec == codec
      ensures sessions == map[] && controllers == map[] && handlers == map[] && invocations == []
    {
      this.transport := transport;
      this.codec := codec;
      sessions, controllers, handlers := map[], map[], map[];
      invocations := [];
    }

    /** `afterConnectionEstablished`: register `s` as anonymous, then push
        its id under `createResponseKey`. */
    method AfterConnectionEstablished(s: Session) returns (status: Status)
      requires Valid()
      modifies this, transport
      ensures Valid()
      ensures sessions == old(sessions)[s := None]
      ensures handlers == old(handlers) && controllers == old(controllers) && invocations == old(invocations)
      ensures transport.open == old(transport.open) && transport.failing == old(transport.failing)
      ensures transport.closeCalls == old(transport.closeCalls)
      ensures match codec.encode(SessionAnnouncement(s))
        case None => status == Thrown(EncodingFailed) && transport.outbox == old(transport.outbox)
        case Some(text) =>
          status == Normal && transport.outbox == old(transport.outbox) + Written(transport.open, transport.failing, s, text)
    {
      sessions := sessions[s := None];
      var announcement := new WsRpcResponse.Push(Some(CreateResponseKey), Some(JString(s.id)));
      status := SendTo(announcement, [s]);
      if codec.encode(SessionAnnouncement(s)).Some? {
        DeliveriesToOne(transport.open, transport.failing, s, codec.encode(SessionAnnouncement(s)).value);
      }
    }

    /** `afterConnectionClosed`: forget `s` and its binding. */
    method AfterConnectionClosed(s: Session)
      requires Valid()
      modifies this
      ensures Valid()
      ensures sessions == old(sessions) - {s}
      ensures handlers == old(handlers) && controllers == old(controllers) && invocations == old(invocations)
    {
      sessions := sessions - {s};
    }

    /** `onApplicationEvent`: clear both tables, then for every controller
        bean map its class to it and every public declared method to its
        path. */
    method OnApplicationEvent(beans: seq<Controller>)
      requires Valid()
      modifies this
      ensures Valid()
      ensures handlers == BuildTable(beans) && controllers == BuildControllers(beans)
      ensures sessions == old(sessions) && invocations == old(invocations)
    {
      controllers := map[];
      handlers := map[];
      var i := 0;
      while i < |beans|
        invariant 0 <= i <= |beans|
        invariant handlers == BuildTable(beans[..i])
        invariant controllers == BuildControllers(beans[..i])
        invariant sessions == old(sessions) && invocations == old(invocations)
      {
        var c := beans[i];
        PartialTableBounds(beans, i);
        controllers := controllers[c.className := c.bean];
        var j := 0;
        while j < |c.methods|
          invariant 0 <= j <= |c.methods|
          invariant handlers == PartialTable(beans, i, j)
          invariant controllers == BuildControllers(beans[..i + 1])
          invariant sessions == old(sessions) && invocations == old(invocations)
        {
          var m := c.methods[j];
          PartialTableStep(beans, i, j);
          if m.isPublic {
            var fullPath := c.simpleName + "." + m.name;
            handlers := handlers[fullPath := HandlerMethod(c.className, m.name, m.params)];
          }
          j := j + 1;
        }
        i := i + 1;
      }
      assert beans[..i] == beans;
      TableIsBacked(beans);
    }

    /** `setSessionIdentifier`, with the null check the source lacks (see
        `Registry.AnonymousSessionBlocksEviction`): when another session
        already holds `ident`, the first such entry in iteration order is
        closed (only if `s` is open) and removed; anonymous entries are
        skipped; then `s` is bound to `ident`. */
    method SetSessionIdentifier(s: Session, ident: Option<Identifier>, order: seq<Session>)
      requires Valid() && Enumerates(order, sessions)
      modifies this, transport
      ensures Valid()
      ensures handlers == old(handlers) && controllers == old(controllers) && invocations == old(invocations)
      ensures transport.failing == old(transport.failing) && transport.outbox == old(transport.outbox)
      ensures var r := BindNullSafe(old(sessions), order, s, ident);
        var closes := r.evicted.Some? && s in old(transport.open);
        && sessions == r.sessions
        && transport.closeCalls == old(transport.closeCalls) + (if closes then [r.evicted.value] else [])
        && transport.open == (if closes then old(transport.open) - {r.evicted.value} else old(transport.open))
    {
      ScanNullSafeFindsHolder(sessions, order, s, ident);
      if ContainsValue(sessions, ident) {
        var toRemove: Option<Session> := None;
        var i := 0;
        while i < |order|
          invariant 0 <= i <= |order|
          invariant ScanNullSafe(sessions, order, s, ident) == ScanNullSafe(sessions, order[i..], s, ident)
          invariant sessions == old(sessions) && handlers == old(handlers) && controllers == old(controllers)
          invariant invocations == old(invocations)
          invariant transport.open == old(transport.open) && transport.failing == old(transport.failing)
          invariant transport.outbox == old(transport.outbox) && transport.closeCalls == old(transport.closeCalls)
          invariant toRemove.None?
        {
          var k := order[i];
          var v := sessions[k];
          assert order[i..][1..] == order[i + 1..];
          if v.Some? && Equals(v.value, AsObject(ident)) && k != s {
            toRemove := Some(k);
            if s in transport.open {
              transport.Close(k);
            }
            break;
          }
          i := i + 1;
        }
        if toRemove.Some? {
          sessions := sessions - {toRemove.value};
        }
      }
      sessions := sessions[s := ident];
      BindNullSafeKeepsOneSessionPerIdentifier(old(sessions), order, s, ident);
    }

    /** The argument loop of `callMethod`: parameter `i` gets the session,
        the frame, the bound identifier, the request or the payload decoded
        at its type; `ok` is false when some payload cannot be decoded,
        where `getData()` on the null request throws. */
    method ResolveArguments(h: HandlerMethod, s: Session, message: TextMessage, request: RequestEnvelope)
      returns (args: array<Arg>, ok: bool)
      ensures ok <==> forall i | 0 <= i < |h.params| :: ResolveArg(h.params[i], s, message, request, sessions, codec).Some?
      ensures ok ==> && args.Length == |h.params|
                     && forall i | 0 <= i < |h.params| :: Some(args[i]) == ResolveArg(h.params[i], s, message, request, sessions, codec)
    {
      args := new Arg[|h.params|];
      var i := 0;
      while i < args.Length
        invariant 0 <= i <= args.Length == |h.params|
        invariant forall j | 0 <= j < i :: Some(args[j]) == ResolveArg(h.params[j], s, message, request, sessions, codec)
      {
        var kind := h.params[i];
        if kind == SessionParam {
          args[i] := SessionArg(s);
        } else if kind == MessageParam {
          args[i] := MessageArg(message);
        } else if kind == IdentifierParam {
          args[i] := IdentifierArg(if s in sessions then sessions[s] else None);
        } else if kind == RequestParam {
          args[i] := RequestArg(request);
        } else {
          var parsed := codec.decode(message.payload, kind.typeName);
          if parsed.None? {
            return args, false;
          }
          args[i] := PayloadArg(parsed.value.data);
        }
        i := i + 1;
      }
      ok := true;
    }

    /** `createMethodResponse`: a reply carrying `data` under `key`. */
    method CreateMethodResponse(key: Option<string>, data: Option<Json>) returns (r: WsRpcResponse)
      ensures fresh(r)
      ensures r.Envelope() == MethodResponse(key, data)
    {
      r := new WsRpcResponse.WithData(data);
      r.SetResponseKey(key);
    }

    /** `callMethod`: resolve the arguments, invoke the handler on its
        controller's bean, then reply with the result or the thrown cause. */
    method CallMethod(h: HandlerMethod, s: Session, message: TextMessage, request: RequestEnvelope,
                      behaviour: Behaviour) returns (status: Status)
      requires h.declaringClass in controllers
      modifies this, transport
      ensures var d := CallOutcome(h, old(controllers)[h.declaringClass], s, message, request, old(sessions), codec, behaviour);
        && status == d.status
        && invocations == old(invocations) + Calls(d)
        && transport.outbox == old(transport.outbox) + Reply(old(transport.open), old(transport.failing), s, d.reply)
      ensures sessions == old(sessions) && handlers == old(handlers) && controllers == old(controllers)
      ensures transport.open == old(transport.open) && transport.failing == old(transport.failing)
      ensures transport.closeCalls == old(transport.closeCalls)
    {
      var args, ok := ResolveArguments(h, s, message, request);
      if !ok {
        return Thrown(NullPointer);
      }
      var call := Invocation(controllers[h.declaringClass], h, args[..]);
      CallWithResolvedArguments(h, call.bean, s, message, request, sessions, codec, behaviour, args[..]);
      invocations := invocations + [call];
      match behaviour(call)
      case Returned(v) =>
        var response := CreateMethodResponse(request.responseKey, v);
        var sent := SendTo(response, [s]);
        if codec.encode(response.Envelope()).Some? {
          DeliveriesToOne(transport.open, transport.failing, s, codec.encode(response.Envelope()).value);
        }
        status := Normal;
      case Threw(cause) =>
        var response := new WsRpcResponse();
        response.SetResponseKey(request.responseKey);
        response.SetError(Some(cause));
        assert response.Envelope() == ErrorResponse(request.responseKey, cause);
        status := SendTo(response, [s]);
        if codec.encode(response.Envelope()).Some? {
          DeliveriesToOne(transport.open, transport.failing, s, codec.encode(response.Envelope()).value);
        }
      case InvocationFailed =>
        status := Normal;
    }

    /** `handleTextMessage`: decode the frame, look up its path, invoke. */
    method HandleTextMessage(s: Session, message: TextMessage, behaviour: Behaviour) returns (status: Status)
      requires Valid()
      modifies this, transport
      ensures Valid()
      ensures var d := HandleOutcome(handlers, controllers, sessions, codec, behaviour, s, message);
        && status == d.status
        && invocations == old(invocations) + Calls(d)
        && transport.outbox == old(transport.outbox) + Reply(transport.open, transport.failing, s, d.reply)
      ensures sessions == old(sessions) && handlers == old(handlers) && controllers == old(controllers)
      ensures transport.open == old(transport.open) && transport.failing == old(transport.failing)
      ensures transport.closeCalls == old(transport.closeCalls)
    {
      var request := codec.decode(message.payload, ObjectType);
      if request.None? {
        return Thrown(NullPointer);
      }
      var req := request.value;
      if req.path.Some? && req.path.value in handlers {
        var h := handlers[req.path.value];
        if |h.params| == 0 {
          var call := Invocation(controllers[h.declaringClass], h, []);
          invocations := invocations + [call];
          match behaviour(call)
          case Returned(_) =>
            status := Normal;
          case Threw(cause) =>
            status := Thrown(InvocationTarget(cause));
          case InvocationFailed =>
            status := Thrown(IllegalInvocation);
        } else {
          status := CallMethod(h, s, message, req, behaviour);
        }
      } else {
        status := Thrown(NoSuchMethod);
      }
    }

    /** The private `sendTo(session, textMessage)`: write when open; a
        closed session is skipped and a failing write is caught. */
    method SendFrame(s: Session, text: string)
      modifies transport
      ensures transport.outbox == old(transport.outbox) + Written(old(transport.open), old(transport.failing), s, text)
      ensures transport.open == old(transport.open) && transport.failing == old(transport.failing)
      ensures transport.closeCalls == old(transport.closeCalls)
    {
      if s in transport.open {
        var sent := transport.SendMessage(s, text);
      }
    }

    /** `sendTo(session, convertMessage(message))`: encode (a failure
        escapes before the write), then write. */
    method SendEncoded(message: WsRpcResponse, s: Session) returns (status: Status)
      modifies transport
      ensures transport.open == old(transport.open) && transport.failing == old(transport.failing)
      ensures transport.closeCalls == old(transport.closeCalls)
      ensures match codec.encode(message.Envelope())
        case None => status == Thrown(EncodingFailed) && transport.outbox == old(transport.outbox)
        case Some(text) =>
          status == Normal && transport.outbox == old(transport.outbox) + Written(transport.open, transport.failing, s, text)
    {
      var text := codec.encode(message.Envelope());
      if text.None? {
        return Thrown(EncodingFailed);
      }
      SendFrame(s, text.value);
      status := Normal;
    }

    /** `sendTo(message, sessions...)`: encode once per target and write;
        an encoding failure escapes at the first target. */
    method SendTo(message: WsRpcResponse, targets: seq<Session>) returns (status: Status)
      modifies transport
      ensures transport.open == old(transport.open) && transport.failing == old(transport.failing)
      ensures transport.closeCalls == old(transport.closeCalls)
      ensures match codec.encode(message.Envelope())
        case None =>
          && transport.outbox == old(transport.outbox)
          && (targets == [] ==> status == Normal)
          && (targets != [] ==> status == Thrown(EncodingFailed))
        case Some(text) =>
          status == Normal && transport.outbox == old(transport.outbox) + Deliveries(transport.open, transport.failing, targets, text)
    {
      ghost var encoded := codec.encode(message.Envelope());
      var i := 0;
      while i < |targets|
        invariant 0 <= i <= |targets|
        invariant transport.open == old(transport.open) && transport.failing == old(transport.failing)
        invariant transport.closeCalls == old(transport.closeCalls)
        invariant encoded.None? ==> i == 0 && transport.outbox == old(transport.outbox)
        invariant encoded.Some? ==>
                    transport.outbox == old(transport.outbox) + Deliveries(transport.open, transport.failing, targets[..i], encoded.value)
      {
        status := SendEncoded(message, targets[i]);
        if status != Normal {
          return;
        }
        assert targets[..i + 1] == targets[..i] + [targets[i]];
        DeliveriesStep(transport.open, transport.failing, targets[..i], targets[i], encoded.value);
        i := i + 1;
      }
      assert targets[..i] == targets;
      status := Normal;
    }

    /** `sendToAll`: encode once (a failure escapes before any write), then
        write to every registered session in iteration order. */
    method SendToAll(message: WsRpcResponse, order: seq<Session>) returns (status: Status)
      requires Enumerates(order, sessions)
      modifies transport
      ensures transport.open == old(transport.open) && transport.failing == old(transport.failing)
      ensures transport.closeCalls == old(transport.closeCalls)
      ensures match codec.encode(message.Envelope())
        case None => status == Thrown(EncodingFailed) && transport.outbox == old(transport.outbox)
        case Some(text) =>
          status == Normal && transport.outbox == old(transport.outbox) + Deliveries(transport.open, transport.failing, order, text)
    {
      var text := codec.encode(message.Envelope());
      if text.None? {
        return Thrown(EncodingFailed);
      }
      var i := 0;
      while i < |order|
        invariant 0 <= i <= |order|
        invariant transport.open == old(transport.open) && transport.failing == old(transport.failing)
        invariant transport.closeCalls == old(transport.closeCalls)
        invariant transport.outbox == old(transport.outbox) + Deliveries(transport.open, transport.failing, order[..i], text.value)
      {
        SendFrame(order[i], text.value);
        assert order[..i + 1] == order[..i] + [order[i]];
        DeliveriesStep(transport.open, transport.failing, order[..i], order[i], text.value);
        i := i + 1;
      }
      assert order[..i] == order;
      status := Normal;
    }

    /** The stream filter of `sendTo(identifiers, message)`: the entries,
        in iteration order, whose identifier the list contains. */
    method ListedSessions(ids: seq<Option<Identifier>>, order: seq<Session>) returns (targets: seq<Session>)
      requires Enumerates(order, sessions)
      ensures targets == IdentifierTargets(sessions, order, ids)
    {
      targets := [];
      var i := 0;
      while i < |order|
        invariant 0 <= i <= |order|
        invariant targets == IdentifierTargets(sessions, order[..i], ids)
      {
        IdentifierTargetsStep(sessions, order, i, ids);
        if Listed(sessions, ids, order[i]) {
          targets := targets + [order[i]];
        }
        i := i + 1;
      }
      assert order[..i] == order;
    }

    /** `sendTo(identifiers, message)`: filter the entries, then encode and
        write for each one left; an encoding failure escapes at the first.
        The filter reads no state the writes change, so filtering first
        and writing afterwards is what the lazy stream does. */
    method SendToIdentifiers(ids: seq<Option<Identifier>>, message: WsRpcResponse, order: seq<Session>)
      returns (status: Status)
      requires Enumerates(order, sessions)
      modifies transport
      ensures transport.open == old(transport.open) && transport.failing == old(transport.failing)
      ensures transport.closeCalls == old(transport.closeCalls)
      ensures match codec.encode(message.Envelope())
        case None =>
          && transport.outbox == old(transport.outbox)
          && (IdentifierTargets(sessions, order, ids) == [] ==> status == Normal)
          && (IdentifierTargets(sessions, order, ids) != [] ==> status == Thrown(EncodingFailed))
        case Some(text) =>
          && status == Normal
          && transport.outbox == old(transport.outbox) +
               Deliveries(transport.open, transport.failing, IdentifierTargets(sessions, order, ids), text)
    {
      var targets := ListedSessions(ids, order);
      status := SendTo(message, targets);
    }

    /** `callAll(method, data)`: push `data` under path `name` to every
        registered session. */
    method CallAll(name: string, data: Option<Json>, order: seq<Session>) returns (status: Status)
      requires Enumerates(order, sessions)
      modifies transport
      ensures transport.open == old(transport.open) && transport.failing == old(transport.failing)
      ensures transport.closeCalls == old(transport.closeCalls)
      ensures match codec.encode(ResponseEnvelope(Some(name), None, data, None))
        case None => status == Thrown(EncodingFailed) && transport.outbox == old(transport.outbox)
        case Some(text) =>
          status == Normal && transport.outbox == old(transport.outbox) + Deliveries(transport.open, transport.failing, order, text)
    {
      var push := new WsRpcResponse.Push(Some(name), data);
      status := SendToAll(push, order);
    }

    /** `call(method, data, sessions...)`: push `data` under path `name` to
        the given sessions. */
    method Call(name: string, data: Option<Json>, targets: seq<Session>) returns (status: Status)
      modifies transport
      ensures transport.open == old(transport.open) && transport.failing == old(transport.failing)
      ensures transport.closeCalls == old(transport.closeCalls)
      ensures match codec.encode(ResponseEnvelope(Some(name), None, data, None))
        case None =>
          && transport.outbox == old(transport.outbox)
          && (targets == [] ==> status == Normal)
          && (targets != [] ==> status == Thrown(EncodingFailed))
        case Some(text) =>
          status == Normal && transport.outbox == old(transport.outbox) + Deliveries(transport.open, transport.failing, targets, text)
    {
      var push := new WsRpcResponse.Push(Some(name), data);
      status := SendTo(push, targets);
    }

    /** `call(method, data, identifiers...)`: push `data` under path `name`
        to the sessions bound to the given identifiers. */
    method CallIdentifiers(name: string, data: Option<Json>, ids: seq<Option<Identifier>>, order: seq<Session>)
      returns (status: Status)
      requires Enumerates(order, sessions)
      modifies transport
      ensures transport.open == old(transport.open) && transport.failing == old(transport.failing)
      ensures transport.closeCalls == old(transport.closeCalls)
      ensures match codec.encode(ResponseEnvelope(Some(name), None, data, None))
        case None =>
          && transport.outbox == old(transport.outbox)
          && (IdentifierTargets(sessions, order, ids) == [] ==> status == Normal)
          && (IdentifierTargets(sessions, order, ids) != [] ==> status == Thrown(EncodingFailed))
        case Some(text) =>
          && status == Normal
          && transport.outbox == old(transport.outbox) +
               Deliveries(transport.open, transport.failing, IdentifierTargets(sessions, order, ids), text)
    {
      var push := new WsRpcResponse.Push(Some(name), data);
      status := SendToIdentifiers(ids, push, order);
    }
  }
}
