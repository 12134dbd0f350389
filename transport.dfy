/** The WebSocket sessions as the handler sees them: each may be open or
    not, a write to it may throw, and it can be closed. The class records
    what reached the wire and which sessions the handler closed. */
module Sockets {
  import opened Types

  /** One text frame written to a session. */
  datatype Delivery = Delivery(to: Session, text: string)

  /** What the private `sendTo(session, textMessage)` writes: the frame goes
      out when the session is open and its write does not throw; a closed
      session is skipped and a throwing write is caught and logged. */
  function Written(open: set<Session>, failing: set<Session>, s: Session, text: string): seq<Delivery>
  {
    if s in open && s !in failing then [Delivery(s, text)] else []
  }

  class Transport {
    /** Sessions whose `isOpen()` is true. */
    var open: set<Session>
    /** Sessions whose `sendMessage` throws. */
    var failing: set<Session>
    /** Frames written, in order. */
    var outbox: seq<Delivery>
    /** Sessions on which the handler called `close()`, in order. */
    var closeCalls: seq<Session>

    constructor (open: set<Session>, failing: set<Session>)
      ensures this.open == open && this.failing == failing
      ensures outbox == [] && closeCalls == []
    {
      this.open, this.failing := open, failing;
      outbox, closeCalls := [], [];
    }

    /** `session.sendMessage(text)`; `ok` is false when it throws. */
    method SendMessage(s: Session, text: string) returns (ok: bool)
      modifies this
      ensures ok <==> s in open && s !in failing
      ensures outbox == old(outbox) + (if ok then [Delivery(s, text)] else [])
      ensures open == old(open) && failing == old(failing) && closeCalls == old(closeCalls)
    {
      ok := s in open && s !in failing;
      if ok {
        outbox := outbox + [Delivery(s, text)];
      }
    }

    /** `session.close()`. */
    method Close(s: Session)
      modifies this
      ensures open == old(open) - {s}
      ensures closeCalls == old(closeCalls) + [s]
      ensures failing == old(failing) && outbox == old(outbox)
    {
      open := open - {s};
      closeCalls := closeCalls + [s];
    }
  }
}
