/** The outbound router of WsRpcHandler as values: which sessions a push
    reaches under `sendToAll`, `sendTo(message, sessions...)` and
    `sendTo(identifiers, message)`. Every target gets its own guarded write,
    so a closed or failing session never stops delivery to the others. */
module Routing {
  import opened Types
  import opened Identifiers
  import opened Registry
  import opened Sockets

  /** The frames written when `text` is sent to each of `targets` in turn. */
  function Deliveries(open: set<Session>, failing: set<Session>, targets: seq<Session>, text: string): seq<Delivery>
    decreases |targets|
  {
    if targets == [] then []
    else Deliveries(open, failing, targets[..|targets| - 1], text) + Written(open, failing, targets[|targets| - 1], text)
  }

  /** Sending to one target more appends that target's frame, if any. */
  lemma DeliveriesStep(open: set<Session>, failing: set<Session>, targets: seq<Session>, k: Session, text: string)
    ensures Deliveries(open, failing, targets + [k], text) ==
              Deliveries(open, failing, targets, text) + Written(open, failing, k, text)
  {
    assert (targets + [k])[..|targets|] == targets;
  }

  /** Sending to a single session writes what one write to it writes. */
  lemma DeliveriesToOne(open: set<Session>, failing: set<Session>, s: Session, text: string)
    ensures Deliveries(open, failing, [s], text) == Written(open, failing, s, text)
  {
    assert [s][..0] == [];
  }

  /** A write to one session emits at most one frame: the given text to that
      session, exactly when it is open and its write does not throw. */
  lemma WriteReachesOnlyAnOpenSession(open: set<Session>, failing: set<Session>, s: Session, text: string)
    ensures |Deliveries(open, failing, [s], text)| <= 1
    ensures forall d :: d in Deliveries(open, failing, [s], text) <==>
              d == Delivery(s, text) && s in open && s !in failing
  {
    DeliveriesReachOpenTargets(open, failing, [s], text);
    DeliveriesToOne(open, failing, s, text);
  }

  /** `identifiers.contains(value)` on a `List` built from an array that may
      hold nulls: a null value matches a null element, any other value
      matches an element it `equals`. */
  predicate ListContains(ids: seq<Option<Identifier>>, v: Option<Identifier>)
  {
    exists i | 0 <= i < |ids| :: if v.None? then ids[i].None? else Equals(v.value, AsObject(ids[i]))
  }

  /** The entries, in iteration order, that the stream filter of
      `sendTo(identifiers, message)` lets through. */
  function IdentifierTargets(m: Sessions, order: seq<Session>, ids: seq<Option<Identifier>>): seq<Session>
    decreases |order|
  {
    if order == [] then []
    else
      var k := order[|order| - 1];
      IdentifierTargets(m, order[..|order| - 1], ids) + (if Listed(m, ids, k) then [k] else [])
  }

  /** The stream filter: entry `k`'s identifier is in the list. */
  predicate Listed(m: Sessions, ids: seq<Option<Identifier>>, k: Session)
  {
    k in m && ListContains(ids, m[k])
  }

  /** Filtering one entry more appends that entry when it matches. */
  lemma IdentifierTargetsStep(m: Sessions, order: seq<Session>, i: nat, ids: seq<Option<Identifier>>)
    requires i < |order|
    ensures IdentifierTargets(m, order[..i + 1], ids) ==
              IdentifierTargets(m, order[..i], ids) + (if Listed(m, ids, order[i]) then [order[i]] else [])
  {
    assert order[..i + 1][..i] == order[..i];
  }

  /** Since identifier equality is id equality, `contains` is membership. */
  lemma ListContainsIsMembership(ids: seq<Option<Identifier>>, v: Option<Identifier>)
    ensures ListContains(ids, v) <==> v in ids
  {
    if v in ids {
      var i :| 0 <= i < |ids| && ids[i] == v;
    }
  }

  /** A frame reaches a session exactly when the session is a target, open
      and not failing: skipping or failing on one target never keeps the
      frame from another. */
  lemma {:induction false} DeliveriesReachOpenTargets(open: set<Session>, failing: set<Session>, targets: seq<Session>, text: string)
    ensures forall d :: d in Deliveries(open, failing, targets, text) <==>
              d.to in targets && d.to in open && d.to !in failing && d.text == text
    decreases |targets|
  {
    if targets != [] {
      var init := targets[..|targets| - 1];
      DeliveriesReachOpenTargets(open, failing, init, text);
      assert targets == init + [targets[|targets| - 1]];
    }
  }

  /** Distinct targets receive at most one frame each. */
  lemma {:induction false} DeliveriesOncePerTarget(open: set<Session>, failing: set<Session>, targets: seq<Session>, text: string)
    requires forall i, j | 0 <= i < j < |targets| :: targets[i] != targets[j]
    ensures forall i, j | 0 <= i < j < |Deliveries(open, failing, targets, text)| ::
              Deliveries(open, failing, targets, text)[i].to != Deliveries(open, failing, targets, text)[j].to
    decreases |targets|
  {
    if targets != [] {
      var init := targets[..|targets| - 1];
      var last := targets[|targets| - 1];
      DeliveriesOncePerTarget(open, failing, init, text);
      DeliveriesReachOpenTargets(open, failing, init, text);
      var ds0 := Deliveries(open, failing, init, text);
      assert last !in init;
      forall i | 0 <= i < |ds0| ensures ds0[i].to != last {
        assert ds0[i] in ds0;
      }
      var ds := Deliveries(open, failing, targets, text);
      assert ds == ds0 + Written(open, failing, last, text);
      forall i, j | 0 <= i < j < |ds| ensures ds[i].to != ds[j].to {
        if j >= |ds0| {
          assert ds[j].to == last && ds[i] == ds0[i];
          assert ds0[i].to != last;
        } else {
          assert ds[i] == ds0[i] && ds[j] == ds0[j];
        }
      }
    }
  }

  /** `sendToAll` writes the frame once to every registered session that is
      open and not failing, and to nothing else. */
  lemma BroadcastReachesEveryOpenSession(m: Sessions, order: seq<Session>, open: set<Session>, failing: set<Session>, text: string)
    requires Enumerates(order, m)
    ensures var ds := Deliveries(open, failing, order, text);
      && (forall d :: d in ds <==> d.to in m && d.to in open && d.to !in failing && d.text == text)
      && (forall i, j | 0 <= i < j < |ds| :: ds[i].to != ds[j].to)
  {
    DeliveriesReachOpenTargets(open, failing, order, text);
    DeliveriesOncePerTarget(open, failing, order, text);
  }

  /** The filter keeps exactly the listed entries whose identifier is in
      `ids`, each once. */
  lemma {:induction false} IdentifierTargetsAreMatches(m: Sessions, order: seq<Session>, ids: seq<Option<Identifier>>)
    ensures forall k :: k in IdentifierTargets(m, order, ids) <==> k in order && Listed(m, ids, k)
    ensures (forall i, j | 0 <= i < j < |order| :: order[i] != order[j]) ==>
              forall i, j | 0 <= i < j < |IdentifierTargets(m, order, ids)| ::
                IdentifierTargets(m, order, ids)[i] != IdentifierTargets(m, order, ids)[j]
    decreases |order|
  {
    if order != [] {
      var init := order[..|order| - 1];
      var last := order[|order| - 1];
      IdentifierTargetsAreMatches(m, init, ids);
      assert order == init + [last];
      var ts0 := IdentifierTargets(m, init, ids);
      var ts := IdentifierTargets(m, order, ids);
      if (forall i, j | 0 <= i < j < |order| :: order[i] != order[j]) {
        assert forall i, j | 0 <= i < j < |init| :: init[i] == order[i] && init[j] == order[j];
        assert last !in init;
        forall i, j | 0 <= i < j < |ts| ensures ts[i] != ts[j] {
          if j >= |ts0| {
            assert ts == ts0 + [last];
            assert ts[j] == last && ts[i] == ts0[i] && ts0[i] in ts0;
            assert ts0[i] in init;
          } else {
            assert ts[i] == ts0[i] && ts[j] == ts0[j];
          }
        }
      }
    }
  }

  /** `sendTo(identifiers, message)` writes the frame once to every open,
      non-failing session whose bound identifier is among `ids` (an
      anonymous session when `ids` holds a null), and to nothing else. */
  lemma IdentifierSendReachesBoundSessions(m: Sessions, order: seq<Session>, ids: seq<Option<Identifier>>,
                                           open: set<Session>, failing: set<Session>, text: string)
    requires Enumerates(order, m)
    ensures var ds := Deliveries(open, failing, IdentifierTargets(m, order, ids), text);
      && (forall d :: d in ds <==>
            d.to in m && m[d.to] in ids && d.to in open && d.to !in failing && d.text == text)
      && (forall i, j | 0 <= i < j < |ds| :: ds[i].to != ds[j].to)
  {
    var ts := IdentifierTargets(m, order, ids);
    IdentifierTargetsAreMatches(m, order, ids);
    DeliveriesReachOpenTargets(open, failing, ts, text);
    DeliveriesOncePerTarget(open, failing, ts, text);
    forall k | k in m ensures Listed(m, ids, k) <==> m[k] in ids {
      ListContainsIsMembership(ids, m[k]);
    }
  }
}
