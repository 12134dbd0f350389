/** The handler table of WsRpcHandler as values: on each context refresh
    every public declared method of every controller is mapped under
    `SimpleName.methodName`, a later put overwriting an earlier one, and
    each controller class is mapped to its bean. */
module HandlerTable {
  import opened Types

  /** What a handler parameter receives, decided by its declared type. */
  datatype ParamKind =
    | SessionParam               // WebSocketSession
    | MessageParam               // TextMessage
    | IdentifierParam            // WsRpcIdentifier
    | RequestParam               // WsRpcRequest
    | PayloadParam(typeName: string) // any other type: the request data decoded at it

  /** A declared method of a controller class. */
  datatype MethodDecl = MethodDecl(name: string, isPublic: bool, params: seq<ParamKind>)

  /** A controller bean: its identity, its class (fully qualified and
      simple name) and the methods that class declares, in reflection order. */
  type BeanId = nat
  datatype Controller = Controller(bean: BeanId, className: string, simpleName: string, methods: seq<MethodDecl>)

  /** The `Method` stored in the table. */
  datatype HandlerMethod = HandlerMethod(declaringClass: string, name: string, params: seq<ParamKind>)

  type Table = map<string, HandlerMethod>
  type Route = (string, HandlerMethod)

  function PathOf(c: Controller, m: MethodDecl): string
  {
    c.simpleName + "." + m.name
  }

  function RouteOf(c: Controller, m: MethodDecl): Route
  {
    (PathOf(c, m), HandlerMethod(c.className, m.name, m.params))
  }

  /** The puts the inner loop performs over `ms`: one per public method. */
  function Routes(c: Controller, ms: seq<MethodDecl>): seq<Route>
    decreases |ms|
  {
    if ms == [] then []
    else
      var m := ms[|ms| - 1];
      Routes(c, ms[..|ms| - 1]) + (if m.isPublic then [RouteOf(c, m)] else [])
  }

  /** The puts both loops perform over the controllers `cs`, in order. */
  function AllRoutes(cs: seq<Controller>): seq<Route>
    decreases |cs|
  {
    if cs == [] then []
    else
      var c := cs[|cs| - 1];
      AllRoutes(cs[..|cs| - 1]) + Routes(c, c.methods)
  }

  /** `t` after `put(path, handler)` for each route of `ps` in turn. */
  function Puts(t: Table, ps: seq<Route>): Table
    decreases |ps|
  {
    if ps == [] then t
    else
      var p := ps[|ps| - 1];
      Puts(t, ps[..|ps| - 1])[p.0 := p.1]
  }

  /** The handler table after a refresh over `cs`. */
  function BuildTable(cs: seq<Controller>): Table
  {
    Puts(map[], AllRoutes(cs))
  }

  /** The controller map after a refresh over `cs`: each class to its bean,
      a later bean of the same class overwriting an earlier one. */
  function BuildControllers(cs: seq<Controller>): map<string, BeanId>
    decreases |cs|
  {
    if cs == [] then map[]
    else
      var c := cs[|cs| - 1];
      BuildControllers(cs[..|cs| - 1])[c.className := c.bean]
  }

  /** Path `k` is `SimpleName.methodName` of a public declared method. */
  ghost predicate Exposed(cs: seq<Controller>, k: string)
  {
    exists i, j | 0 <= i < |cs| && 0 <= j < |cs[i].methods| ::
      cs[i].methods[j].isPublic && PathOf(cs[i], cs[i].methods[j]) == k
  }

  /** Every handler in the table belongs to a class in the controller map. */
  ghost predicate Backed(t: Table, controllers: map<string, BeanId>)
  {
    forall k | k in t :: t[k].declaringClass in controllers
  }

  /** The inner loop puts exactly the public methods of `ms`. */
  lemma {:induction false} RoutesArePublicMethods(c: Controller, ms: seq<MethodDecl>)
    ensures forall r :: r in Routes(c, ms) <==>
              exists j | 0 <= j < |ms| :: ms[j].isPublic && r == RouteOf(c, ms[j])
    decreases |ms|
  {
    if ms != [] {
      var init := ms[..|ms| - 1];
      RoutesArePublicMethods(c, init);
      assert forall j | 0 <= j < |init| :: init[j] == ms[j];
    }
  }

  /** Both loops together put exactly the public methods of all controllers. */
  lemma {:induction false} AllRoutesArePublicMethods(cs: seq<Controller>)
    ensures forall r :: r in AllRoutes(cs) <==>
              exists i, j | 0 <= i < |cs| && 0 <= j < |cs[i].methods| ::
                cs[i].methods[j].isPublic && r == RouteOf(cs[i], cs[i].methods[j])
    decreases |cs|
  {
    if cs != [] {
      var n := |cs| - 1;
      var init, c := cs[..n], cs[n];
      AllRoutesArePublicMethods(init);
      RoutesArePublicMethods(c, c.methods);
      assert AllRoutes(cs) == AllRoutes(init) + Routes(c, c.methods);
      forall r | r in AllRoutes(cs)
        ensures exists i, j | 0 <= i < |cs| && 0 <= j < |cs[i].methods| ::
                  cs[i].methods[j].isPublic && r == RouteOf(cs[i], cs[i].methods[j])
      {
        if r in AllRoutes(init) {
          var i, j :| 0 <= i < |init| && 0 <= j < |init[i].methods| &&
                      init[i].methods[j].isPublic && r == RouteOf(init[i], init[i].methods[j]);
          assert cs[i] == init[i];
        } else {
          var j :| 0 <= j < |c.methods| && c.methods[j].isPublic && r == RouteOf(c, c.methods[j]);
          assert cs[n] == c;
        }
      }
      forall r, i, j | 0 <= i < |cs| && 0 <= j < |cs[i].methods| &&
                       cs[i].methods[j].isPublic && r == RouteOf(cs[i], cs[i].methods[j])
        ensures r in AllRoutes(cs)
      {
        if i < n {
          assert init[i] == cs[i];
          assert r in AllRoutes(init);
        } else {
          assert cs[i] == c;
          assert r in Routes(c, c.methods);
        }
      }
    }
  }

  /** After the puts, a key is in the table exactly when it was there before
      or some route puts it. */
  lemma {:induction false} PutsKeys(t: Table, ps: seq<Route>)
    ensures forall k :: k in Puts(t, ps) <==> k in t || exists i | 0 <= i < |ps| :: ps[i].0 == k
    decreases |ps|
  {
    if ps != [] {
      var init := ps[..|ps| - 1];
      PutsKeys(t, init);
      assert forall i | 0 <= i < |init| :: init[i] == ps[i];
    }
  }

  /** The value under a key is the handler of the last route putting it. */
  lemma {:induction false} PutsLastWins(t: Table, ps: seq<Route>, i: nat)
    requires i < |ps|
    requires forall i' | i < i' < |ps| :: ps[i'].0 != ps[i].0
    ensures ps[i].0 in Puts(t, ps) && Puts(t, ps)[ps[i].0] == ps[i].1
    decreases |ps|
  {
    if i < |ps| - 1 {
      var init := ps[..|ps| - 1];
      assert forall i' | i < i' < |init| :: init[i'] == ps[i'];
      PutsLastWins(t, init, i);
      assert ps[|ps| - 1].0 != ps[i].0;
    }
  }

  /** Every value in the table is the handler of some route. */
  lemma {:induction false} PutsValuesFromRoutes(ps: seq<Route>)
    ensures forall k | k in Puts(map[], ps) :: exists i | 0 <= i < |ps| :: ps[i] == (k, Puts(map[], ps)[k])
    decreases |ps|
  {
    if ps != [] {
      var init := ps[..|ps| - 1];
      PutsValuesFromRoutes(init);
      forall k | k in Puts(map[], ps)
        ensures exists i | 0 <= i < |ps| :: ps[i] == (k, Puts(map[], ps)[k])
      {
        if k != ps[|ps| - 1].0 {
          var i :| 0 <= i < |init| && init[i] == (k, Puts(map[], init)[k]);
          assert ps[i] == init[i];
        } else {
          assert ps[|ps| - 1] == (k, Puts(map[], ps)[k]);
        }
      }
    }
  }

  /** A refresh maps exactly the paths `SimpleName.methodName` of public
      declared methods; non-public methods get no entry. Nothing from an
      earlier table survives, since the table is built from empty. */
  lemma TableKeysArePublicMethods(cs: seq<Controller>)
    ensures forall k :: k in BuildTable(cs) <==> Exposed(cs, k)
  {
    PutsKeys(map[], AllRoutes(cs));
    AllRoutesArePublicMethods(cs);
    var rs := AllRoutes(cs);
    forall k | k in BuildTable(cs) ensures Exposed(cs, k) {
      var n :| 0 <= n < |rs| && rs[n].0 == k;
      assert rs[n] in rs;
    }
    forall k | Exposed(cs, k) ensures k in BuildTable(cs) {
      var i, j :| 0 <= i < |cs| && 0 <= j < |cs[i].methods| &&
                  cs[i].methods[j].isPublic && PathOf(cs[i], cs[i].methods[j]) == k;
      var r := RouteOf(cs[i], cs[i].methods[j]);
      assert r in rs;
      var n :| 0 <= n < |rs| && rs[n] == r;
    }
  }

  /** The handler stored under each path is the method of the last public
      declaration with that path, in controller then declaration order. */
  lemma TableValueIsLastRoute(cs: seq<Controller>, n: nat)
    requires n < |AllRoutes(cs)|
    requires forall n' | n < n' < |AllRoutes(cs)| :: AllRoutes(cs)[n'].0 != AllRoutes(cs)[n].0
    ensures AllRoutes(cs)[n].0 in BuildTable(cs)
    ensures BuildTable(cs)[AllRoutes(cs)[n].0] == AllRoutes(cs)[n].1
  {
    PutsLastWins(map[], AllRoutes(cs), n);
  }

  lemma {:induction false} ControllersAreTheBeanClasses(cs: seq<Controller>)
    ensures forall name :: name in BuildControllers(cs) <==> exists i | 0 <= i < |cs| :: cs[i].className == name
    decreases |cs|
  {
    if cs != [] {
      var init := cs[..|cs| - 1];
      ControllersAreTheBeanClasses(init);
      assert forall i | 0 <= i < |init| :: init[i] == cs[i];
    }
  }

  /** Every handler of a refreshed table belongs to a mapped controller,
      so the dispatcher always finds the bean to invoke it on. */
  lemma TableIsBacked(cs: seq<Controller>)
    ensures Backed(BuildTable(cs), BuildControllers(cs))
  {
    var rs := AllRoutes(cs);
    PutsValuesFromRoutes(rs);
    AllRoutesArePublicMethods(cs);
    ControllersAreTheBeanClasses(cs);
    forall k | k in BuildTable(cs) ensures BuildTable(cs)[k].declaringClass in BuildControllers(cs) {
      var n :| 0 <= n < |rs| && rs[n] == (k, BuildTable(cs)[k]);
      assert rs[n] in rs;
      var i, j :| 0 <= i < |cs| && 0 <= j < |cs[i].methods| &&
                  cs[i].methods[j].isPublic && rs[n] == RouteOf(cs[i], cs[i].methods[j]);
    }
  }

  /** The table while the inner loop is at declaration `j` of controller `i`. */
  function PartialTable(cs: seq<Controller>, i: nat, j: nat): Table
    requires i < |cs| && j <= |cs[i].methods|
  {
    Puts(map[], AllRoutes(cs[..i]) + Routes(cs[i], cs[i].methods[..j]))
  }

  /** The inner loop over one declaration more: a public one is put under
      its path, any other leaves the table as it was. */
  lemma PartialTableStep(cs: seq<Controller>, i: nat, j: nat)
    requires i < |cs| && j < |cs[i].methods|
    ensures var c, m := cs[i], cs[i].methods[j];
      PartialTable(cs, i, j + 1) ==
        if m.isPublic then PartialTable(cs, i, j)[PathOf(c, m) := HandlerMethod(c.className, m.name, m.params)]
        else PartialTable(cs, i, j)
  {
    var c, m := cs[i], cs[i].methods[j];
    assert c.methods[..j + 1][..j] == c.methods[..j];
    var before := AllRoutes(cs[..i]) + Routes(c, c.methods[..j]);
    if m.isPublic {
      assert AllRoutes(cs[..i]) + Routes(c, c.methods[..j + 1]) == before + [RouteOf(c, m)];
      PutsStep(map[], before, RouteOf(c, m));
    } else {
      assert AllRoutes(cs[..i]) + Routes(c, c.methods[..j + 1]) == before;
    }
  }

  /** The outer loop: the inner loop starts from the table of the
      controllers before `i` and ends at the table of those up to `i`. */
  lemma PartialTableBounds(cs: seq<Controller>, i: nat)
    requires i < |cs|
    ensures PartialTable(cs, i, 0) == BuildTable(cs[..i])
    ensures PartialTable(cs, i, |cs[i].methods|) == BuildTable(cs[..i + 1])
    ensures BuildControllers(cs[..i + 1]) == BuildControllers(cs[..i])[cs[i].className := cs[i].bean]
  {
    assert cs[..i + 1][..i] == cs[..i];
    assert cs[i].methods[..0] == [];
    assert AllRoutes(cs[..i]) + [] == AllRoutes(cs[..i]);
    assert cs[i].methods[..|cs[i].methods|] == cs[i].methods;
  }

  /** One put more: the step of the inner loop. */
  lemma PutsStep(t: Table, ps: seq<Route>, r: Route)
    ensures Puts(t, ps + [r]) == Puts(t, ps)[r.0 := r.1]
  {
    assert (ps + [r])[..|ps|] == ps;
  }
}
