# wsrpc: a Dafny model of the WebSocket RPC handler

wsrpc is a small Spring library that runs JSON remote procedure calls over
WebSocket. The model covers its core, `WsRpcHandler`, and its three value
classes:

- **Session registry.** Every connected session maps to the identifier
  bound to it, or to null while it is anonymous. The handler registers a
  session when it connects and drops it when it disconnects.
  `setSessionIdentifier` binds an identifier to a session. It first removes
  the first other session it meets that holds an equal identifier, and
  closes that session only when the new one is open, so that an identifier
  stays on one session. As written, the loop throws NullPointerException
  before removing or closing anything when it meets an anonymous session
  first (see "## Findings").
- **Handler table.** On each context refresh the table is rebuilt from the
  controller beans. Every public declared method is mapped under
  `SimpleName.methodName`, and a later mapping overwrites an earlier one.
  Each controller class is mapped to its bean.
- **Dispatcher.** `handleTextMessage` decodes an inbound frame, looks up
  the request's path and invokes the handler.
  - A handler without parameters gets no reply.
  - For any other handler, `callMethod` fills each argument according to
    the parameter's type and invokes it. It then replies to the caller with
    the return value as `data`, or with the thrown cause as `error`. Either
    reply echoes the request's `responseKey`.
- **Router.** `sendToAll` and the `sendTo` overloads, behind `call` and
  `callAll`, push a frame to sessions. Closed sessions are skipped, and a
  failing write is caught, so it never stops delivery to the others.
- **Value classes.** `WsRpcRequest` and `WsRpcResponse` are mutable
  envelopes with setters. `WsRpcIdentifier` is an id whose `equals`
  compares ids.

## Structure

| file | module | what it holds |
|---|---|---|
| `types.dfy` | `Types` | nullable references as `Option`, JSON values, sessions, escaping exceptions |
| `identifier.dfy` | `Identifiers` | `WsRpcIdentifier` and its `equals` |
| `request.dfy` | `Requests` | class `WsRpcRequest` |
| `response.dfy` | `Responses` | class `WsRpcResponse` |
| `transport.dfy` | `Sockets` | class `Transport`: open sessions, throwing writes, frames written, `close()` calls |
| `registry.dfy` | `Registry` | the registry and the bind step, as written and null-safe, with their properties |
| `handler_table.dfy` | `HandlerTable` | the refresh as functions over the controller list, with their properties |
| `dispatch.dfy` | `Dispatch` | `handleTextMessage`/`callMethod` as a function of the frame, the state, the codec and the controllers' behaviour |
| `routing.dfy` | `Routing` | which sessions each send reaches |
| `handler.dfy` | `Handler` | class `WsRpcHandler`: the imperative methods, each proved against the functions above |

The class `Handler.WsRpcHandler` is structured as follows:

- **State.** It keeps the three HashMaps as the fields `sessions`,
  `controllers` and `handlers`. `Valid()` states two invariants: no
  non-null identifier is bound to two sessions, and every handler's class
  has a bean.
- **Proofs.** Each method's `ensures` ties its new state to a function of
  the old state: `BindNullSafe`, `BuildTable`, `HandleOutcome`,
  `Deliveries` or `IdentifierTargets`. The lemmas beside those functions
  prove what the source promises about them.
- **Abstractions.** Java `null` is `None`. Java leaves the iteration order
  of a HashMap unspecified, so every method that iterates `sessions` takes
  that order as a parameter `order`, with `Enumerates(order, sessions)`.
- **Escaping exceptions.** An exception that escapes a public entry point
  is returned as a `Status`.

## Model

| member | source | states |
|---|---|---|
| Identifiers.EqualsIffSameId | src/main/java/cz/hofmanix/wsrpc/WsRpcIdentifier.java:9-11 | two identifiers are `equals` exactly when their `getId()` values are equal |
| Identifiers.EqualsRejectsNonIdentifiers | src/main/java/cz/hofmanix/wsrpc/WsRpcIdentifier.java:10 | `equals` is false for null and for an object of another class |
| Identifiers.EqualsReflexive | src/main/java/cz/hofmanix/wsrpc/WsRpcIdentifier.java:10 | an identifier equals itself |
| Identifiers.EqualsSymmetric | src/main/java/cz/hofmanix/wsrpc/WsRpcIdentifier.java:10 | identifier equality is symmetric |
| Identifiers.EqualsTransitive | src/main/java/cz/hofmanix/wsrpc/WsRpcIdentifier.java:10 | identifier equality is transitive |
| Requests.WsRpcRequest.constructor | src/main/java/cz/hofmanix/wsrpc/WsRpcRequest.java:6-9 | a fresh request has `path`, `responseKey` and `data` null |
| Requests.WsRpcRequest.SetPath | src/main/java/cz/hofmanix/wsrpc/WsRpcRequest.java:11-17 | `getPath()` returns the value set; `responseKey` and `data` are unchanged |
| Requests.WsRpcRequest.SetResponseKey | src/main/java/cz/hofmanix/wsrpc/WsRpcRequest.java:19-25 | `getResponseKey()` returns the value set; `path` and `data` are unchanged |
| Requests.WsRpcRequest.SetData | src/main/java/cz/hofmanix/wsrpc/WsRpcRequest.java:27-33 | `getData()` returns the value set; `path` and `responseKey` are unchanged |
| Responses.WsRpcResponse.Push | src/main/java/cz/hofmanix/wsrpc/WsRpcResponse.java:12-15 | the `(path, data)` constructor sets those two fields; `responseKey` and `error` are null |
| Responses.WsRpcResponse.WithData | src/main/java/cz/hofmanix/wsrpc/WsRpcResponse.java:17-19 | the `(data)` constructor sets only `data` |
| Responses.WsRpcResponse.constructor | src/main/java/cz/hofmanix/wsrpc/WsRpcResponse.java:21-23 | the no-argument constructor leaves all four fields null |
| Responses.WsRpcResponse.SetPath | src/main/java/cz/hofmanix/wsrpc/WsRpcResponse.java:25-31 | `getPath()` returns the value set; the other three fields are unchanged |
| Responses.WsRpcResponse.SetData | src/main/java/cz/hofmanix/wsrpc/WsRpcResponse.java:33-39 | `getData()` returns the value set; the other three fields are unchanged |
| Responses.WsRpcResponse.SetResponseKey | src/main/java/cz/hofmanix/wsrpc/WsRpcResponse.java:41-47 | `getResponseKey()` returns the value set; the other three fields are unchanged |
| Responses.WsRpcResponse.SetError | src/main/java/cz/hofmanix/wsrpc/WsRpcResponse.java:49-55 | `getError()` returns the value set; the other three fields are unchanged |
| Sockets.Transport.SendMessage | src/main/java/cz/hofmanix/wsrpc/WsRpcHandler.java:231 | `sendMessage` succeeds exactly on an open, non-failing session and then appends the frame |
| Sockets.Transport.Close | src/main/java/cz/hofmanix/wsrpc/WsRpcHandler.java:119 | `close()` records the call and the session is no longer open |
| Registry.ContainsValueIsMembership | src/main/java/cz/hofmanix/wsrpc/WsRpcHandler.java:112 | `containsValue` with id-based `equals` is membership among the map's values |
| Registry.ScanStopsAtFirst | src/main/java/cz/hofmanix/wsrpc/WsRpcHandler.java:114-127 | the entry loop, as written, stops at the first entry that is null or held by another session with an equal identifier (the `break` in `finally`); it reports no holder exactly when no entry stops it |
| Registry.BindEffect | src/main/java/cz/hofmanix/wsrpc/WsRpcHandler.java:110-134 | as written, when no exception is thrown: `s` holds `ident`; at most one other session is removed, and it held `ident`; with no eviction no other session held it; every other entry is unchanged |
| Registry.BindPreservesUniqueness | src/main/java/cz/hofmanix/wsrpc/WsRpcHandler.java:112-132 | as written, when no exception is thrown, a bind keeps each non-null identifier on at most one session, and afterwards `ident` is on `s` alone |
| Registry.RebindingHolderEvictsNothing | src/main/java/cz/hofmanix/wsrpc/WsRpcHandler.java:112-132 | as written, binding an identifier to the session that already holds it either evicts no one and leaves the registry unchanged, or throws because an anonymous session is visited first |
| Registry.RebindingHolderNullSafe | src/main/java/cz/hofmanix/wsrpc/WsRpcHandler.java:112-132 | with the null check, binding an identifier to the session that already holds it never throws, evicts no one and leaves the registry unchanged |
| Registry.BindThrowsOnlyBesideAnonymousSession | src/main/java/cz/hofmanix/wsrpc/WsRpcHandler.java:112-115 | as written, the bind throws NullPointerException exactly when the identifier is already present and an anonymous entry comes before every holder in iteration order |
| Registry.BindNullIdentifier | src/main/java/cz/hofmanix/wsrpc/WsRpcHandler.java:110-134 | as written, binding null throws exactly when some session is anonymous; otherwise it unbinds `s` and evicts nothing |
| Registry.AnonymousSessionBlocksEviction | src/main/java/cz/hofmanix/wsrpc/WsRpcHandler.java:112-129 | with an anonymous session visited before the holder, the bind as written throws, while the null-safe bind evicts the holder |
| Registry.ScanNullSafeFindsHolder | src/main/java/cz/hofmanix/wsrpc/WsRpcHandler.java:114-127 | the loop with a null check returns a session exactly when some other session holds `ident`, and the one it returns is such a holder |
| Registry.BindNullSafeKeepsOneSessionPerIdentifier | src/main/java/cz/hofmanix/wsrpc/WsRpcHandler.java:110-134 | the null-safe bind never throws; `s` holds `ident`; each identifier is on at most one session; the evicted session held `ident`; with no eviction no other session held it; every other entry is unchanged |
| HandlerTable.RoutesArePublicMethods | src/main/java/cz/hofmanix/wsrpc/WsRpcHandler.java:100-106 | the inner loop puts exactly one route for each public declared method, under `SimpleName.methodName` |
| HandlerTable.AllRoutesArePublicMethods | src/main/java/cz/hofmanix/wsrpc/WsRpcHandler.java:96-107 | both loops together put exactly the public methods of all controllers |
| HandlerTable.PutsKeys | src/main/java/cz/hofmanix/wsrpc/WsRpcHandler.java:103 | after a sequence of puts, a key is present exactly when it was there before or some put used it |
| HandlerTable.PutsLastWins | src/main/java/cz/hofmanix/wsrpc/WsRpcHandler.java:103 | the value under a key is the one from the last put of that key |
| HandlerTable.PutsValuesFromRoutes | src/main/java/cz/hofmanix/wsrpc/WsRpcHandler.java:103 | every entry of a table built from empty comes from some put |
| HandlerTable.TableKeysArePublicMethods | src/main/java/cz/hofmanix/wsrpc/WsRpcHandler.java:93-108 | after a refresh the table's keys are exactly the `SimpleName.methodName` of public declared methods; non-public methods and earlier entries are absent |
| HandlerTable.TableValueIsLastRoute | src/main/java/cz/hofmanix/wsrpc/WsRpcHandler.java:96-107 | the method under a path is the last public declaration with that path, in controller then declaration order |
| HandlerTable.ControllersAreTheBeanClasses | src/main/java/cz/hofmanix/wsrpc/WsRpcHandler.java:96-99 | the controller map's keys are exactly the classes of the supplied beans |
| HandlerTable.TableIsBacked | src/main/java/cz/hofmanix/wsrpc/WsRpcHandler.java:93-108 | after a refresh, every mapped method's declaring class has a bean to invoke it on |
| Dispatch.CallWithResolvedArguments | src/main/java/cz/hofmanix/wsrpc/WsRpcHandler.java:155-173 | once every argument resolves, the handler is invoked with exactly those arguments on its controller's bean |
| Dispatch.UndecodableFrameThrows | src/main/java/cz/hofmanix/wsrpc/WsRpcHandler.java:64-65 | a frame that `parseRequest` cannot read makes `handleTextMessage` throw NullPointerException; nothing is invoked or sent |
| Dispatch.UnknownPathThrows | src/main/java/cz/hofmanix/wsrpc/WsRpcHandler.java:65-74 | a path with no handler throws NoSuchMethodException; nothing is invoked or sent |
| Dispatch.ZeroParameterHandlerNeverReplies | src/main/java/cz/hofmanix/wsrpc/WsRpcHandler.java:65-68 | a zero-parameter handler is invoked once, with no arguments, on its bean; nothing is sent; it throws exactly when the handler does not return |
| Dispatch.CallReceivesResolvedArguments | src/main/java/cz/hofmanix/wsrpc/WsRpcHandler.java:155-170 | argument `i` is the session, the frame, the bound identifier, the request, or the payload's data at parameter `i`'s type; the call is skipped with a NullPointerException exactly when some payload cannot be decoded |
| Dispatch.ReplyIsCorrelated | src/main/java/cz/hofmanix/wsrpc/WsRpcHandler.java:172-185 | a reply has no path and echoes the request's `responseKey`. It carries the return value as `data`, or, when the handler threw, its cause as `error`. A handler with parameters that returns `v` is answered with the encoding of `(null, responseKey, v, null)`, so a reply goes out unless that encoding fails. One that throws `cause` is answered with the encoding of `(null, responseKey, null, cause)`; when that encoding fails nothing is sent and the failure escapes. A call reflection refuses sends nothing and throws nothing |
| Routing.ListContainsIsMembership | src/main/java/cz/hofmanix/wsrpc/WsRpcHandler.java:223 | `identifiers.contains(value)` with id-based `equals` is list membership |
| Routing.WriteReachesOnlyAnOpenSession | src/main/java/cz/hofmanix/wsrpc/WsRpcHandler.java:228-238 | one write to a session emits at most one frame, carrying the given text to that session, and emits it exactly when the session is open and its write does not throw |
| Routing.DeliveriesReachOpenTargets | src/main/java/cz/hofmanix/wsrpc/WsRpcHandler.java:214-218 | sending to a list of targets writes a frame to a session exactly when it is a target, open and not failing, so a skipped or failing target never blocks another |
| Routing.DeliveriesOncePerTarget | src/main/java/cz/hofmanix/wsrpc/WsRpcHandler.java:214-218 | distinct targets receive at most one frame each |
| Routing.BroadcastReachesEveryOpenSession | src/main/java/cz/hofmanix/wsrpc/WsRpcHandler.java:205-212 | `sendToAll` writes the frame once to every registered session that is open and not failing, and to nothing else |
| Routing.IdentifierTargetsAreMatches | src/main/java/cz/hofmanix/wsrpc/WsRpcHandler.java:220-226 | the stream filter keeps exactly the entries whose identifier is listed, each once |
| Routing.IdentifierSendReachesBoundSessions | src/main/java/cz/hofmanix/wsrpc/WsRpcHandler.java:220-226 | `sendTo(identifiers, …)` writes the frame once to every open, non-failing session whose bound identifier is listed, and to nothing else |
| Handler.WsRpcHandler.constructor | src/main/java/cz/hofmanix/wsrpc/WsRpcHandler.java:36-46 | the handler starts with empty maps |
| Handler.WsRpcHandler.AfterConnectionEstablished | src/main/java/cz/hofmanix/wsrpc/WsRpcHandler.java:50-58 | the session becomes a key bound to null; exactly one push with path `createResponseKey` and the session id as data is written to it if it is open and the write does not fail; no other entry changes; an encoding failure escapes |
| Handler.WsRpcHandler.AfterConnectionClosed | src/main/java/cz/hofmanix/wsrpc/WsRpcHandler.java:78-84 | the session is no longer a key and every other entry is unchanged |
| Handler.WsRpcHandler.OnApplicationEvent | src/main/java/cz/hofmanix/wsrpc/WsRpcHandler.java:93-108 | both maps are rebuilt from empty and become `BuildTable` and `BuildControllers` of the beans; the registry is untouched |
| Handler.WsRpcHandler.SetSessionIdentifier | src/main/java/cz/hofmanix/wsrpc/WsRpcHandler.java:110-134 | the registry becomes the null-safe bind of the old one (see Findings). The evicted session is closed only when `s` is open, and nothing else is closed or written. The one-session-per-identifier invariant is kept |
| Handler.WsRpcHandler.ResolveArguments | src/main/java/cz/hofmanix/wsrpc/WsRpcHandler.java:156-170 | the argument array holds the resolved value of every parameter, and `ok` is false exactly when some payload parameter cannot be decoded |
| Handler.WsRpcHandler.CreateMethodResponse | src/main/java/cz/hofmanix/wsrpc/WsRpcHandler.java:199-203 | a new response with `data` and the echoed `responseKey`, and no path or error |
| Handler.WsRpcHandler.CallMethod | src/main/java/cz/hofmanix/wsrpc/WsRpcHandler.java:155-186 | the escaping exception, the calls made and the frame written back are those of `CallOutcome` |
| Handler.WsRpcHandler.HandleTextMessage | src/main/java/cz/hofmanix/wsrpc/WsRpcHandler.java:61-75 | the escaping exception, the calls made and the reply written are those of `HandleOutcome`; the registry and the tables are unchanged |
| Handler.WsRpcHandler.SendFrame | src/main/java/cz/hofmanix/wsrpc/WsRpcHandler.java:228-238 | writes the frame when the session is open; a closed session or a throwing write leaves the outbox alone and nothing escapes |
| Handler.WsRpcHandler.SendEncoded | src/main/java/cz/hofmanix/wsrpc/WsRpcHandler.java:216 | an encoding failure escapes before the write; otherwise the frame is written as by `SendFrame` |
| Handler.WsRpcHandler.SendTo | src/main/java/cz/hofmanix/wsrpc/WsRpcHandler.java:214-218 | the outbox gains `Deliveries` over the targets in order; with no targets nothing is encoded or thrown; otherwise an encoding failure escapes and nothing is written |
| Handler.WsRpcHandler.SendToAll | src/main/java/cz/hofmanix/wsrpc/WsRpcHandler.java:205-212 | an encoding failure escapes before any write; otherwise the outbox gains `Deliveries` over every registered session |
| Handler.WsRpcHandler.ListedSessions | src/main/java/cz/hofmanix/wsrpc/WsRpcHandler.java:222-223 | the filtered entries are `IdentifierTargets` of the registry |
| Handler.WsRpcHandler.SendToIdentifiers | src/main/java/cz/hofmanix/wsrpc/WsRpcHandler.java:220-226 | the outbox gains `Deliveries` over the filtered entries; with none there is nothing to encode and nothing escapes |
| Handler.WsRpcHandler.CallAll | src/main/java/cz/hofmanix/wsrpc/WsRpcHandler.java:140-143 | pushes `(name, data)` to every registered session, as `SendToAll` does |
| Handler.WsRpcHandler.Call | src/main/java/cz/hofmanix/wsrpc/WsRpcHandler.java:145-148 | pushes `(name, data)` to the given sessions, as `SendTo` does |
| Handler.WsRpcHandler.CallIdentifiers | src/main/java/cz/hofmanix/wsrpc/WsRpcHandler.java:150-153 | pushes `(name, data)` to the sessions bound to the given identifiers, as `SendToIdentifiers` does |

## Left out

- The Jackson codec. `parseRequest` and `convertMessage` are the two partial functions of `Dispatch.Codec`: `decode` (null on failure) and `encode` (a failure escapes as `EncodingFailed`). Their JSON format is not modelled.
- Spring wiring. Bean lookup by annotation, `@DependsOn` and `@Autowired` are left out; the controllers of a refresh are passed in as a list of `Controller` values.
- Reflection. `Method`, `Parameter` and `Modifier` become `HandlerMethod`, `ParamKind` and `MethodDecl.isPublic`. What `Method.invoke` does is a `Behaviour` parameter, so handler side effects and handlers that call back into the handler are not modelled.
- Overloaded handler methods. Java keeps the last `getDeclaredMethods()` entry with a given path; the model keeps the last entry of the supplied declaration order, and that order is an input.
- The WebSocket transport. Sessions are ids. `isOpen` is membership in `Transport.open`, and a throwing `sendMessage` is membership in `Transport.failing`.
- A `close()` that throws IOException is not modelled, so the model's close always succeeds. The source catches that exception and still removes the session, as the model does; only the session's open flag could differ.
- The super calls to `TextWebSocketHandler` do nothing and are left out.
- `handleTransportError` only logs, and all logging is left out.
- `synchronized` blocks and concurrent callers are left out: each method runs atomically.
- `getSessions` hands out the live map for callers to mutate; that aliasing is not modelled.
- Sessions given to `call(method, data, sessions...)` are non-null values. A null element, which would throw, is not modelled.
- Handler.WsRpcHandler.SendToIdentifiers filters all entries first and writes afterwards, where the lazy stream interleaves the two. The filter reads nothing the writes change, and every encoding yields the same result, so the outcome is the same.
- Handler.WsRpcHandler.SetSessionIdentifier models the null-safe loop from the Findings table. The code as written, which throws, is modelled by `Registry.Bind`.

## Findings

| source | as written | input that shows it | evidently intended | confidence | as-written member | corrected member |
|---|---|---|---|---|---|---|
| src/main/java/cz/hofmanix/wsrpc/WsRpcHandler.java:115 | `entry.getValue().equals(identifier)` dereferences every visited value, including the null value of a session that has not been bound yet, so the loop throws NullPointerException; the holder is then neither closed nor removed and the new session is not bound | registry `{a: null, b: id 7}` iterated `a` then `b`; `setSessionIdentifier(c, id 7)` | skip anonymous entries: the first other session holding an equal identifier is closed and removed, and `c` is bound | high; not executed | Registry.AnonymousSessionBlocksEviction | Registry.BindNullSafeKeepsOneSessionPerIdentifier |
