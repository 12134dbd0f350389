/** The session registry of WsRpcHandler as values: the map from each open
    session to the identifier bound to it (null when anonymous), and the
    binding step of `setSessionIdentifier` with its collision eviction. */
module Registry {
  import opened Types
  import opened Identifiers

  type Sessions = map<Session, Option<Identifier>>

  /** At most one session is bound to any non-null identifier. */
  ghost predicate UniqueBindings(m: Sessions)
  {
    forall a, b | a in m && b in m && m[a].Some? && m[a] == m[b] :: a == b
  }

  /** `order` lists every key of `m` exactly once: the order in which the
      HashMap iterates its entries, which Java leaves unspecified. */
  ghost predicate Enumerates(order: seq<Session>, m: Sessions)
  {
    && (forall k :: k in order <==> k in m)
    && (forall i, j | 0 <= i < j < |order| :: order[i] != order[j])
  }

  /** `HashMap.containsValue(v)`: some value is `v` itself or, `v` being
      non-null, `v.equals(value)` holds. */
  predicate ContainsValue(m: Sessions, v: Option<Identifier>)
  {
    exists k | k in m :: m[k] == v || (v.Some? && Equals(v.value, AsObject(m[k])))
  }

  /** Because identifier equality is id equality, `containsValue` is plain
      membership among the values. */
  lemma ContainsValueIsMembership(m: Sessions, v: Option<Identifier>)
    ensures ContainsValue(m, v) <==> v in m.Values
  {
    if v in m.Values {
      var k :| k in m && m[k] == v;
    }
  }

  /** Entry `k` is another session than `s` holding an identifier equal to
      `ident`. */
  ghost predicate IsHolder(m: Sessions, s: Session, ident: Option<Identifier>, k: Session)
  {
    k in m && m[k].Some? && Equals(m[k].value, AsObject(ident)) && k != s
  }

  /** The entry loop of `setSessionIdentifier` stops at `k`: its value is null
      (so `getValue().equals(...)` throws) or it is a holder of `ident`. */
  ghost predicate Stops(m: Sessions, s: Session, ident: Option<Identifier>, k: Session)
  {
    k in m && (m[k].None? || IsHolder(m, s, ident, k))
  }

  datatype ScanResult = Holder(session: Session) | NoHolder | NullEntry

  /** The entry loop of `setSessionIdentifier` run over the keys in `order`:
      the first entry with a null value throws, the first other session
      holding `ident` is picked and the loop breaks. */
  function Scan(m: Sessions, order: seq<Session>, s: Session, ident: Option<Identifier>): ScanResult
    requires forall k | k in order :: k in m
    decreases |order|
  {
    if order == [] then NoHolder
    else if m[order[0]].None? then NullEntry
    else if Equals(m[order[0]].value, AsObject(ident)) && order[0] != s then Holder(order[0])
    else Scan(m, order[1..], s, ident)
  }

  /** The loop stops at the first stopping entry in `order`, and at none
      when it finds no holder. */
  lemma {:induction false} ScanStopsAtFirst(m: Sessions, order: seq<Session>, s: Session, ident: Option<Identifier>)
    requires forall k | k in order :: k in m
    ensures Scan(m, order, s, ident) == NoHolder <==>
              forall i | 0 <= i < |order| :: !Stops(m, s, ident, order[i])
    ensures Scan(m, order, s, ident).Holder? ==>
              exists i | 0 <= i < |order| ::
                && order[i] == Scan(m, order, s, ident).session
                && IsHolder(m, s, ident, order[i])
                && forall j | 0 <= j < i :: !Stops(m, s, ident, order[j])
    ensures Scan(m, order, s, ident) == NullEntry ==>
              exists i | 0 <= i < |order| ::
                && m[order[i]].None?
                && forall j | 0 <= j < i :: !Stops(m, s, ident, order[j])
    decreases |order|
  {
    if order == [] {
    } else if Stops(m, s, ident, order[0]) {
    } else {
      var rest := order[1..];
      ScanStopsAtFirst(m, rest, s, ident);
      assert forall i | 1 <= i < |order| :: order[i] == rest[i - 1];
      var r := Scan(m, order, s, ident);
      assert r == Scan(m, rest, s, ident);
      if r.Holder? {
        var i :| 0 <= i < |rest| && rest[i] == r.session && IsHolder(m, s, ident, rest[i])
                 && forall j | 0 <= j < i :: !Stops(m, s, ident, rest[j]);
        assert order[i + 1] == r.session;
        assert forall j | 0 <= j < i + 1 :: !Stops(m, s, ident, order[j]) by {
          forall j | 0 <= j < i + 1 ensures !Stops(m, s, ident, order[j]) {
            if j > 0 { assert order[j] == rest[j - 1]; }
          }
        }
      } else if r == NullEntry {
        var i :| 0 <= i < |rest| && m[rest[i]].None?
                 && forall j | 0 <= j < i :: !Stops(m, s, ident, rest[j]);
        assert m[order[i + 1]].None?;
        assert forall j | 0 <= j < i + 1 :: !Stops(m, s, ident, order[j]) by {
          forall j | 0 <= j < i + 1 ensures !Stops(m, s, ident, order[j]) {
            if j > 0 { assert order[j] == rest[j - 1]; }
          }
        }
      } else {
        assert forall i | 0 <= i < |order| :: !Stops(m, s, ident, order[i]) by {
          forall i | 0 <= i < |order| ensures !Stops(m, s, ident, order[i]) {
            if i > 0 { assert order[i] == rest[i - 1]; }
          }
        }
      }
    }
  }

  /** What `setSessionIdentifier` does to the registry: it either throws a
      NullPointerException before changing anything, or binds `s` to
      `ident` after removing at most one other session (`evicted`). */
  datatype BindOutcome = Bound(sessions: Sessions, evicted: Option<Session>) | NullDereference

  ghost function Bind(m: Sessions, order: seq<Session>, s: Session, ident: Option<Identifier>): BindOutcome
    requires forall k | k in order :: k in m
  {
    if !ContainsValue(m, ident) then Bound(m[s := ident], None)
    else match Scan(m, order, s, ident)
      case NullEntry => NullDereference
      case NoHolder => Bound(m[s := ident], None)
      case Holder(k) => Bound((m - {k})[s := ident], Some(k))
  }

  /** After a successful bind, `s` holds `ident`; the evicted session, if
      any, was another session bound to `ident` and is gone; when nothing
      was evicted no other session held `ident`; every other entry is as
      before. */
  lemma BindEffect(m: Sessions, order: seq<Session>, s: Session, ident: Option<Identifier>)
    requires Enumerates(order, m)
    requires Bind(m, order, s, ident).Bound?
    ensures var r := Bind(m, order, s, ident);
      && s in r.sessions && r.sessions[s] == ident
      && (r.evicted.Some? ==>
            && ident.Some? && r.evicted.value != s
            && r.evicted.value in m && m[r.evicted.value] == ident
            && r.evicted.value !in r.sessions)
      && (r.evicted.None? ==> forall k | k in m && k != s :: m[k] != ident)
      && (forall k | k != s && r.evicted != Some(k) ::
            (k in r.sessions <==> k in m) && (k in m ==> r.sessions[k] == m[k]))
  {
    var r := Bind(m, order, s, ident);
    ContainsValueIsMembership(m, ident);
    if ContainsValue(m, ident) {
      ScanStopsAtFirst(m, order, s, ident);
      var sc := Scan(m, order, s, ident);
      if sc.Holder? {
        var i :| 0 <= i < |order| && order[i] == sc.session && IsHolder(m, s, ident, order[i]);
      } else {
        assert sc == NoHolder;
        forall k | k in m && k != s ensures m[k] != ident {
          var i :| 0 <= i < |order| && order[i] == k;
          assert !Stops(m, s, ident, order[i]);
        }
      }
    }
  }

  /** Binding keeps every non-null identifier on at most one session, and
      afterwards a non-null `ident` resolves to `s` alone. */
  lemma BindPreservesUniqueness(m: Sessions, order: seq<Session>, s: Session, ident: Option<Identifier>)
    requires Enumerates(order, m) && UniqueBindings(m)
    requires Bind(m, order, s, ident).Bound?
    ensures UniqueBindings(Bind(m, order, s, ident).sessions)
    ensures ident.Some? ==>
              forall k | k in Bind(m, order, s, ident).sessions && Bind(m, order, s, ident).sessions[k] == ident :: k == s
  {
    var r := Bind(m, order, s, ident);
    BindEffect(m, order, s, ident);
    var m' := r.sessions;
    forall k | k in m' && k != s && ident.Some? ensures m'[k] != ident {
      if r.evicted.Some? {
        assert r.evicted.value != k;
        assert m'[k] == m[k];
        assert m[r.evicted.value] == ident;
      }
    }
  }

  /** As written, re-binding an identifier to the session that already
      holds it either evicts no one and leaves the registry as it was, or
      throws because an anonymous session is visited first. */
  lemma RebindingHolderEvictsNothing(m: Sessions, order: seq<Session>, s: Session, ident: Option<Identifier>)
    requires Enumerates(order, m) && UniqueBindings(m)
    requires s in m && m[s] == ident && ident.Some?
    ensures Bind(m, order, s, ident) == Bound(m, None) || Bind(m, order, s, ident) == NullDereference
  {
    var r := Bind(m, order, s, ident);
    if r.Bound? {
      BindEffect(m, order, s, ident);
      assert r.evicted.None?;
      assert r.sessions == m;
    }
  }

  /** The NullPointerException happens only when the identifier is already
      bound somewhere and some anonymous session is visited first; with no
      anonymous session the bind always succeeds. */
  lemma BindThrowsOnlyBesideAnonymousSession(m: Sessions, order: seq<Session>, s: Session, ident: Option<Identifier>)
    requires Enumerates(order, m)
    ensures Bind(m, order, s, ident) == NullDereference <==>
              && ContainsValue(m, ident)
              && exists i | 0 <= i < |order| ::
                   && m[order[i]].None?
                   && forall j | 0 <= j < i :: !IsHolder(m, s, ident, order[j])
  {
    ScanStopsAtFirst(m, order, s, ident);
    var sc := Scan(m, order, s, ident);
    if ContainsValue(m, ident) {
      if sc == NullEntry {
        var i :| 0 <= i < |order| && m[order[i]].None? && forall j | 0 <= j < i :: !Stops(m, s, ident, order[j]);
        assert forall j | 0 <= j < i :: !IsHolder(m, s, ident, order[j]);
      } else if sc.Holder? {
        var i :| 0 <= i < |order| && order[i] == sc.session && IsHolder(m, s, ident, order[i])
                 && forall j | 0 <= j < i :: !Stops(m, s, ident, order[j]);
        forall i' | 0 <= i' < |order| && m[order[i']].None?
          ensures exists j | 0 <= j < i' :: IsHolder(m, s, ident, order[j])
        {
          assert Stops(m, s, ident, order[i']);
          assert m[order[i]].Some?;
          assert i < i';
        }
      }
    }
  }

  /** Binding a null identifier throws exactly when some session is still
      anonymous; otherwise it unbinds `s`. */
  lemma BindNullIdentifier(m: Sessions, order: seq<Session>, s: Session)
    requires Enumerates(order, m)
    ensures (exists k | k in m :: m[k].None?) <==> Bind(m, order, s, None) == NullDereference
    ensures Bind(m, order, s, None).Bound? ==> Bind(m, order, s, None) == Bound(m[s := None], None)
  {
    ScanStopsAtFirst(m, order, s, None);
    ContainsValueIsMembership(m, None);
    var sc := Scan(m, order, s, None);
    if k :| k in m && m[k].None? {
      assert None in m.Values;
      var i :| 0 <= i < |order| && order[i] == k;
      assert Stops(m, s, None, order[i]);
    }
  }

  // ---- The evident fix: skip anonymous entries instead of dereferencing them ----

  /** The entry loop with a null check before `equals`: the first other
      session holding `ident`, if any. */
  function ScanNullSafe(m: Sessions, order: seq<Session>, s: Session, ident: Option<Identifier>): Option<Session>
    requires forall k | k in order :: k in m
    decreases |order|
  {
    if order == [] then None
    else if m[order[0]].Some? && Equals(m[order[0]].value, AsObject(ident)) && order[0] != s then Some(order[0])
    else ScanNullSafe(m, order[1..], s, ident)
  }

  /** `setSessionIdentifier` with that null check: it never throws. */
  function BindNullSafe(m: Sessions, order: seq<Session>, s: Session, ident: Option<Identifier>): BindOutcome
    requires forall k | k in order :: k in m
  {
    match ScanNullSafe(m, order, s, ident)
    case None => Bound(m[s := ident], None)
    case Some(k) => Bound((m - {k})[s := ident], Some(k))
  }

  /** The null-safe loop finds a holder exactly when one exists. */
  lemma {:induction false} ScanNullSafeFindsHolder(m: Sessions, order: seq<Session>, s: Session, ident: Option<Identifier>)
    requires forall k | k in order :: k in m
    ensures ScanNullSafe(m, order, s, ident).Some? ==>
              var k := ScanNullSafe(m, order, s, ident).value; k in order && IsHolder(m, s, ident, k)
    ensures ScanNullSafe(m, order, s, ident).None? ==>
              forall k | k in order :: !IsHolder(m, s, ident, k)
    decreases |order|
  {
    if order != [] {
      ScanNullSafeFindsHolder(m, order[1..], s, ident);
      forall k | k in order && k != order[0] ensures k in order[1..] {
        var i :| 0 <= i < |order| && order[i] == k;
        assert order[1..][i - 1] == k;
      }
    }
  }

  /** With the null check, binding always succeeds, leaves `ident` on `s`
      alone, and keeps every identifier on at most one session; the evicted
      session, if any, held `ident` and is gone, and when none is evicted
      no other session held a non-null `ident`; every other entry is as
      before. */
  lemma BindNullSafeKeepsOneSessionPerIdentifier(m: Sessions, order: seq<Session>, s: Session, ident: Option<Identifier>)
    requires Enumerates(order, m) && UniqueBindings(m)
    ensures var r := BindNullSafe(m, order, s, ident);
      && r.Bound?
      && s in r.sessions && r.sessions[s] == ident
      && UniqueBindings(r.sessions)
      && (r.evicted.Some? ==>
            && ident.Some? && r.evicted.value != s
            && r.evicted.value in m && m[r.evicted.value] == ident
            && r.evicted.value !in r.sessions)
      && (ident.Some? && r.evicted.None? ==> forall k | k in m && k != s :: m[k] != ident)
      && (forall k | k != s && r.evicted != Some(k) ::
            (k in r.sessions <==> k in m) && (k in m ==> r.sessions[k] == m[k]))
  {
    ScanNullSafeFindsHolder(m, order, s, ident);
    var r := BindNullSafe(m, order, s, ident);
    var m' := r.sessions;
    forall k | k in m' && k != s && ident.Some? ensures m'[k] != ident {
      assert m'[k] == m[k];
      assert m[k] == ident ==> IsHolder(m, s, ident, k);
    }
  }

  /** With the null check, re-binding an identifier to the session that
      already holds it never throws, evicts no one and leaves the registry
      as it was. */
  lemma RebindingHolderNullSafe(m: Sessions, order: seq<Session>, s: Session, ident: Option<Identifier>)
    requires Enumerates(order, m) && UniqueBindings(m)
    requires s in m && m[s] == ident && ident.Some?
    ensures BindNullSafe(m, order, s, ident) == Bound(m, None)
  {
    BindNullSafeKeepsOneSessionPerIdentifier(m, order, s, ident);
    var r := BindNullSafe(m, order, s, ident);
    assert r.evicted.None?;
    assert r.sessions == m;
  }

  /** As written, an anonymous session visited before the holder makes the
      bind throw, so the holder is neither closed nor removed and `s` stays
      unbound; the null-safe loop evicts the holder. */
  lemma AnonymousSessionBlocksEviction()
    ensures var a, b, c := Session("a"), Session("b"), Session("c");
      var u := Some(Identifier(7));
      var m := map[a := None, b := u];
      && Enumerates([a, b], m)
      && Bind(m, [a, b], c, u) == NullDereference
      && BindNullSafe(m, [a, b], c, u) == Bound(map[a := None, c := u], Some(b))
  {
    var a, b, c := Session("a"), Session("b"), Session("c");
    var u := Some(Identifier(7));
    var m := map[a := None, b := u];
    assert ContainsValue(m, u) by { assert m[b] == u; }
    assert Scan(m, [a, b], c, u) == NullEntry;
    assert [a, b][1..] == [b];
    assert ScanNullSafe(m, [a, b], c, u) == Some(b);
    assert (m - {b})[c := u] == map[a := None, c := u];
  }
}
