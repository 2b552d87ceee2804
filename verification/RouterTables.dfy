/**
 What every packet keeps of the router's tables: the two name indexes stay inverse
 to each other, a log sink is a live holder of its name, the default route is bound.
 */
module RouterTables {
  import opened Wrappers
  import opened RouterModel

  ghost predicate Distinct(a: seq<CompId>) {
    forall i, j :: 0 <= i < j < |a| ==> a[i] != a[j]
  }

  type Table = map<Name, seq<CompId>>

  /** What the components hold, by their own `comp->routes`. */
  function Held(s: State): map<CompId, set<Name>> {
    map c | c in s.comps :: s.comps[c].routes
  }

  /** The two indexes are inverse to each other, without empty or repeated entries. */
  ghost predicate Inverse(routes: Table, held: map<CompId, set<Name>>) {
    && (forall n :: n in routes ==> routes[n] != [] && Distinct(routes[n]))
    && (forall n, c :: n in routes && c in routes[n] ==> c in held && n in held[c])
    && (forall c, n :: c in held && n in held[c] ==> n in routes && c in routes[n])
  }

  /** `r->routes` is the exact inverse of all `comp->routes`. */
  ghost predicate TableOk(s: State) {
    Inverse(s.routes, Held(s))
  }

  /** Each log sink is a connected component that holds the name it is registered under. */
  ghost predicate SinksOk(s: State) {
    forall n :: n in s.logSinks ==> s.logSinks[n] in s.comps && n in s.comps[s.logSinks[n]].routes
  }

  ghost predicate DefaultOk(s: State) {
    s.defaultRoute.Some? ==> s.defaultRoute.value in s.routes
  }

  // ----- the removal loop

  lemma {:induction false} SwapScanAbsent(a: seq<CompId>, i: nat, comp: CompId)
    requires comp !in a[if i <= |a| then i else |a|..]
    ensures SwapScan(a, i, comp) == a
    decreases |a| - i
  {
    if i < |a| {
      assert a[i] in a[i..];
      SwapScanAbsent(a, i + 1, comp);
    }
  }

  /** Of an array without repetitions the loop removes exactly the one component. */
  lemma {:induction false} SwapScanRemoves(a: seq<CompId>, i: nat, comp: CompId)
    requires Distinct(a) && i <= |a| && comp !in a[..i]
    ensures Distinct(SwapScan(a, i, comp))
    ensures forall c :: c in SwapScan(a, i, comp) <==> c in a && c != comp
    ensures |SwapScan(a, i, comp)| == if comp in a then |a| - 1 else |a|
    decreases |a| - i
  {
    if i == |a| {
      assert a == a[..i];
    } else if a[i] != comp {
      assert a[..i + 1] == a[..i] + [a[i]];
      SwapScanRemoves(a, i + 1, comp);
    } else {
      var b := a[i := a[|a| - 1]][..|a| - 1];
      forall c ensures c in b <==> c in a && c != comp {
        if c in a && c != comp {
          var k :| 0 <= k < |a| && a[k] == c;
          assert b[if k == |a| - 1 then i else k] == c;
        }
        if c in b {
          var k :| 0 <= k < |b| && b[k] == c;
          assert c == if k == i then a[|a| - 1] else a[k];
        }
      }
      SwapScanAbsent(b, i + 1, comp);
    }
  }

  lemma RemoveRouteRemoves(routes: Table, name: Name, c: CompId)
    requires name in routes && Distinct(routes[name]) && c in routes[name]
    ensures var r := RemoveRoute(routes, name, c);
            && (name in r <==> |routes[name]| > 1)
            && r.Keys + {name} == routes.Keys
            && (forall n :: n in r && n != name ==> r[n] == routes[n])
            && (name in r ==> r[name] != [] && Distinct(r[name])
                              && forall x :: x in r[name] <==> x in routes[name] && x != c)
            && (name !in r ==> routes[name] == [c])
  {
    SwapScanRemoves(routes[name], 0, c);
  }

  // ----- the two indexes

  lemma RemoveKeepsInverse(routes: Table, held: map<CompId, set<Name>>, c: CompId, name: Name)
    requires Inverse(routes, held) && c in held && name in held[c]
    ensures Inverse(RemoveRoute(routes, name, c), held[c := held[c] - {name}])
  {
    RemoveRouteRemoves(routes, name, c);
    var r, held' := RemoveRoute(routes, name, c), held[c := held[c] - {name}];
    forall n, x | n in r && x in r[n] ensures x in held' && n in held'[x] {
      if n == name { assert x in routes[name] && x != c; } else { assert n in r.Keys + {name}; assert x in routes[n]; }
    }
    forall x, n | x in held' && n in held'[x] ensures n in r && x in r[n] {
      assert n in held[x] && n in routes && x in routes[n];
    }
  }

  lemma AddKeepsInverse(routes: Table, held: map<CompId, set<Name>>, c: CompId, name: Name)
    requires Inverse(routes, held) && c in held && name !in held[c]
    ensures Inverse(AddRoute(routes, name, c), held[c := held[c] + {name}])
  {
    var r, held' := AddRoute(routes, name, c), held[c := held[c] + {name}];
    var before := if name in routes then routes[name] else [];
    assert c !in before && r[name] == before + [c];
    forall n, x | n in r && x in r[n] ensures x in held' && n in held'[x] {
      if n == name && x != c { assert x in before; }
    }
    forall x, n | x in held' && n in held'[x] ensures n in r && x in r[n] {
      if n == name { assert x == c || x in before; }
    }
  }

  lemma AddAgainRepeats(routes: Table, held: map<CompId, set<Name>>, c: CompId, name: Name)
    requires Inverse(routes, held) && c in held && name in held[c]
    ensures !Distinct(AddRoute(routes, name, c)[name])
  {
    var k :| 0 <= k < |routes[name]| && routes[name][k] == c;
    assert AddRoute(routes, name, c)[name][k] == AddRoute(routes, name, c)[name][|routes[name]|];
  }

  lemma HeldFrame(s: State, c: CompId, ps: seq<Packet>, p: Packet)
    ensures Held(Broadcast(s, p, c)) == Held(s)
    ensures c in s.comps ==> Held(Write(s, c, ps)) == Held(s)
  {}

  lemma BoundState(s: State, c: CompId, req: BindRequest, order: seq<Name>)
    requires c in s.comps && Admit(s, req).Accepted?
    ensures var name := req.name.value;
            && Bind(s, c, req, order).routes == AddRoute(s.routes, name, c)
            && Held(Bind(s, c, req, order)) == Held(s)[c := Held(s)[c] + {name}]
  {}

  /** Binding keeps the indexes inverse exactly when it is not a second bind of a held name. */
  lemma BindKeepsTable(s: State, c: CompId, req: BindRequest, order: seq<Name>)
    requires TableOk(s) && c in s.comps
    ensures TableOk(Bind(s, c, req, order)) <==>
            !(Admit(s, req).Accepted? && req.name.value in s.comps[c].routes)
  {
    if Admit(s, req).Accepted? {
      var name := req.name.value;
      BoundState(s, c, req, order);
      if name in s.comps[c].routes {
        AddAgainRepeats(s.routes, Held(s), c, name);
      } else {
        AddKeepsInverse(s.routes, Held(s), c, name);
      }
    } else {
      assert Held(Bind(s, c, req, order)) == Held(s);
    }
  }

  lemma DropKeepsTable(s: State, c: CompId, name: Name)
    requires TableOk(s) && c in s.comps && name in s.comps[c].routes
    ensures TableOk(Drop(s, c, name)) && TableOk(Deadvertise(Drop(s, c, name), c, name))
  {
    RemoveKeepsInverse(s.routes, Held(s), c, name);
    var d := Drop(s, c, name);
    assert Held(d) == Held(s)[c := Held(s)[c] - {name}];
    HeldFrame(d, c, [], Presence(name, true));
  }

  lemma WalkTail(order: seq<Name>, names: set<Name>)
    requires WalkOrder(order, names) && order != []
    ensures WalkOrder(order[1..], names - {order[0]})
  {
    assert order == [order[0]] + order[1..];
  }

  lemma {:induction false} DropAllKeepsTable(s: State, c: CompId, order: seq<Name>)
    requires TableOk(s) && c in s.comps && WalkOrder(order, s.comps[c].routes)
    ensures TableOk(DropAll(s, c, order)) && DropAll(s, c, order).comps[c].routes == {}
    decreases |order|
  {
    if order == [] {
      assert forall n :: n in s.comps[c].routes ==> n in order;
    } else {
      assert order[0] in order;
      DropKeepsTable(s, c, order[0]);
      var s' := Deadvertise(Drop(s, c, order[0]), c, order[0]);
      WalkTail(order, s.comps[c].routes);
      DropAllKeepsTable(s', c, order[1..]);
    }
  }

  /** No component binds, with `multi`, a name it already holds. */
  ghost predicate NoRebind(s: State, e: Event)
    requires Possible(s, e)
  {
    e.Binding? && Admit(s, e.req).Accepted? ==> e.req.name.value !in s.comps[e.c].routes
  }

  /** A component without names may be registered or deregistered. */
  lemma IdleKeepsInverse(routes: Table, held: map<CompId, set<Name>>, c: CompId)
    requires Inverse(routes, held)
    ensures c !in held ==> Inverse(routes, held[c := {}])
    ensures c in held && held[c] == {} ==> Inverse(routes, held - {c})
  {
    if c in held && held[c] == {} {
      forall n, x | n in routes && x in routes[n] ensures x != c && x in held && n in held[x] {}
    }
  }

  lemma AcceptKeepsTable(s: State, c: CompId)
    requires TableOk(s) && c !in s.comps
    ensures TableOk(Accept(s, c))
  {
    IdleKeepsInverse(s.routes, Held(s), c);
    assert Held(Accept(s, c)) == Held(s)[c := {}];
  }

  lemma HeadKeepsTable(s: State, c: CompId)
    requires TableOk(s) && c in s.comps
    ensures TableOk(Head(s, c))
  {
    assert Held(Head(s, c)) == Held(s);
  }

  lemma EnterKeepsTable(s: State, c: CompId, name: Name)
    requires TableOk(s) && c in s.comps && name !in s.comps[c].routes
    ensures TableOk(Enter(s, c, name))
  {
    AddKeepsInverse(s.routes, Held(s), c, name);
    assert Held(Enter(s, c, name)) == Held(s)[c := Held(s)[c] + {name}];
  }

  lemma OpenKeepsTable(s: State, c: CompId, name: Name, aliased: bool)
    requires TableOk(s) && c in s.comps && name !in s.comps[c].routes
    ensures TableOk(Open(s, c, name, aliased))
  {
    EnterKeepsTable(s, c, name);
    HeldFrame(Enter(s, c, name), c, [], Presence(name, false));
  }

  lemma UnbindKeepsTable(s: State, c: CompId, name: Option<Name>)
    requires TableOk(s) && c in s.comps
    ensures TableOk(Unbind(s, c, name))
  {
    if name.None? {
      HeldFrame(s, c, [Reply(400)], Reply(0));
    } else if name.value !in s.comps[c].routes {
      HeldFrame(s, c, [Reply(404)], Reply(0));
    } else {
      DropKeepsTable(s, c, name.value);
      var d := Drop(s, c, name.value);
      HeldFrame(d, c, [Reply(0)], Reply(0));
      HeldFrame(Write(d, c, [Reply(0)]), c, [], Presence(name.value, true));
    }
  }

  lemma CloseKeepsTable(s: State, c: CompId, order: seq<Name>)
    requires TableOk(s) && c in s.comps && WalkOrder(order, s.comps[c].routes)
    ensures TableOk(Close(s, c, order))
  {
    DropAllKeepsTable(s, c, order);
    var d := DropAll(s, c, order);
    IdleKeepsInverse(d.routes, Held(d), c);
    assert Held(Close(s, c, order)) == Held(d) - {c};
  }

  lemma StepKeepsTable(s: State, e: Event)
    requires TableOk(s) && Possible(s, e) && NoRebind(s, e)
    ensures TableOk(Step(s, e))
  {
    match e
    case Accepting(c) => AcceptKeepsTable(s, c);
    case Heading(c) => HeadKeepsTable(s, c);
    case Opening(c, host, aliased) => OpenKeepsTable(s, c, host, aliased);
    case Binding(c, req, order) => BindKeepsTable(s, c, req, order);
    case Unbinding(c, name) => UnbindKeepsTable(s, c, name);
    case Closing(c, order) => CloseKeepsTable(s, c, order);
  }

  // ----- log sinks and the default route

  lemma {:induction false} DropAllKeepsSinks(s: State, c: CompId, order: seq<Name>)
    requires SinksOk(s) && c in s.comps
    ensures SinksOk(DropAll(s, c, order))
    ensures forall n :: n in DropAll(s, c, order).logSinks ==> n in s.logSinks && n !in order
    ensures forall n :: n in DropAll(s, c, order).logSinks ==> DropAll(s, c, order).logSinks[n] == s.logSinks[n]
    decreases |order|
  {
    if order != [] {
      DropAllKeepsSinks(Deadvertise(Drop(s, c, order[0]), c, order[0]), c, order[1..]);
    }
  }

  lemma CloseKeepsSinks(s: State, c: CompId, order: seq<Name>)
    requires SinksOk(s) && c in s.comps && WalkOrder(order, s.comps[c].routes)
    ensures SinksOk(Close(s, c, order))
    ensures forall n :: n in Close(s, c, order).logSinks ==> Close(s, c, order).logSinks[n] != c
  {
    DropAllKeepsSinks(s, c, order);
    var d := DropAll(s, c, order);
    forall n | n in d.logSinks ensures d.logSinks[n] != c {
      assert n in s.comps[s.logSinks[n]].routes;
    }
  }

  lemma UnbindKeepsSinks(s: State, c: CompId, name: Option<Name>)
    requires SinksOk(s) && c in s.comps
    ensures SinksOk(Unbind(s, c, name))
  {}

  lemma BindKeepsSinks(s: State, c: CompId, req: BindRequest, order: seq<Name>)
    requires SinksOk(s) && c in s.comps
    ensures SinksOk(Bind(s, c, req, order))
  {}

  /** No packet, not even a repeated bind, leaves a log sink behind that is closed or no longer holds its name. */
  lemma StepKeepsSinks(s: State, e: Event)
    requires SinksOk(s) && Possible(s, e)
    ensures SinksOk(Step(s, e))
  {
    match e
    case Accepting(_) =>
    case Heading(_) =>
    case Opening(_, _, _) =>
    case Binding(c, req, order) => BindKeepsSinks(s, c, req, order);
    case Unbinding(c, name) => UnbindKeepsSinks(s, c, name);
    case Closing(c, order) => CloseKeepsSinks(s, c, order);
  }

  lemma {:induction false} DropAllKeepsDefault(s: State, c: CompId, order: seq<Name>)
    requires DefaultOk(s) && c in s.comps
    ensures DefaultOk(DropAll(s, c, order))
    decreases |order|
  {
    if order != [] {
      var d := Drop(s, c, order[0]);
      assert d.routes.Keys + {order[0]} >= s.routes.Keys;
      DropAllKeepsDefault(Deadvertise(d, c, order[0]), c, order[1..]);
    }
  }

  /** A bind that records the default route and is then refused as a log sink. */
  predicate DefaultWithoutBind(s: State, e: Event) {
    e.Binding? && ReachesDefault(s, e.req) && e.req.log && !e.req.aciLog && e.req.name.value !in s.routes
  }

  /** The default route stays a bound name exactly when no such bind happens. */
  lemma StepKeepsDefault(s: State, e: Event)
    requires DefaultOk(s) && Possible(s, e)
    ensures DefaultOk(Step(s, e)) <==> !DefaultWithoutBind(s, e)
  {
    match e
    case Accepting(_) =>
    case Heading(_) =>
    case Opening(_, _, _) =>
    case Binding(c, req, order) =>
    case Unbinding(c, name) =>
      if name.Some? {
        assert Drop(s, c, name.value).routes.Keys + {name.value} >= s.routes.Keys;
      }
    case Closing(c, order) => DropAllKeepsDefault(s, c, order);
  }

  /** The removal loop on a row in which c stands at p and a second time at the end. */
  lemma {:induction false} ScanRepeated(row: seq<CompId>, i: nat, p: nat, c: CompId)
    requires Distinct(row) && i <= p < |row| && row[p] == c
    ensures SwapScan(row + [c], i, c) == row
    decreases p - i
  {
    var a := row + [c];
    if i < p {
      ScanRepeated(row, i + 1, p, c);
    } else {
      assert a[p := a[|a| - 1]][..|a| - 1] == row;
      SwapScanAbsent(row, p + 1, c);
    }
  }

  /**
   A second bind of a held name, and then an unbind: the row is as it was before the two, and names a component
   that no longer holds the name.
   */
  lemma RepeatedBindLeaks(s: State, c: CompId, req: BindRequest, order: seq<Name>)
    requires TableOk(s) && c in s.comps && Admit(s, req).Accepted? && req.name.value in s.comps[c].routes
    ensures var name := req.name.value;
            var t := Unbind(Bind(s, c, req, order), c, Some(name));
            && t.routes == s.routes && name in t.routes && c in t.routes[name]
            && c in t.comps && name !in t.comps[c].routes && !TableOk(t)
  {
    hide Bind, Unbind, Admit, SwapScan, BroadcastIn, ReachesDefault;
    var name, b := req.name.value, Bind(s, c, req, order);
    BoundState(s, c, req, order);
    assert name in Held(s)[c] && c in s.routes[name];
    assert c in Held(b) && name in Held(b)[c];
    var p :| 0 <= p < |s.routes[name]| && s.routes[name][p] == c;
    ScanRepeated(s.routes[name], 0, p, c);
    UnboundState(b, c, name);
    var t := Unbind(b, c, Some(name));
    assert s.routes[name := s.routes[name] + [c]][name := s.routes[name]] == s.routes;
    assert c in Held(t) && name !in Held(t)[c];
  }

  lemma UnboundState(s: State, c: CompId, name: Name)
    requires c in s.comps && name in s.comps[c].routes
    ensures var t := Unbind(s, c, Some(name));
            t.routes == RemoveRoute(s.routes, name, c) && Held(t) == Held(s)[c := Held(s)[c] - {name}]
  {
    HeldFrame(Drop(s, c, name), c, [Reply(0)], Reply(0));
    HeldFrame(Write(Drop(s, c, name), c, [Reply(0)]), c, [], Presence(name, true));
    assert Held(Drop(s, c, name)) == Held(s)[c := Held(s)[c] - {name}];
  }

  /** The removal loop on a row in which another component stands behind the second c. */
  lemma {:induction false} ScanRepeatedThen(row: seq<CompId>, i: nat, p: nat, c: CompId, x: CompId)
    requires Distinct(row) && i <= p < |row| && row[p] == c && x !in row
    ensures SwapScan(row + [c, x], i, c) == row[p := x]
    decreases p - i
  {
    var a := row + [c, x];
    if i < p {
      ScanRepeatedThen(row, i + 1, p, c, x);
    } else {
      assert a[p := a[|a| - 1]][..|a| - 1] == row[p := x] + [c] && x != c;
      LastIsDropped(row[p := x], p + 1, c);
    }
  }

  lemma {:induction false} LastIsDropped(others: seq<CompId>, i: nat, c: CompId)
    requires c !in others && i <= |others|
    ensures SwapScan(others + [c], i, c) == others
    decreases |others| - i
  {
    var a := others + [c];
    if i < |others| {
      LastIsDropped(others, i + 1, c);
    } else {
      assert a[i := a[|a| - 1]][..|a| - 1] == others;
    }
  }

  /** The tables can come right again: if another component binds the name in between, the unbind clears both entries. */
  lemma RepeatedBindHeals(s: State, c: CompId, req: BindRequest, order: seq<Name>,
                          x: CompId, req': BindRequest, order': seq<Name>)
    requires TableOk(s) && c in s.comps && Admit(s, req).Accepted? && req.name.value in s.comps[c].routes
    requires x in s.comps && x != c && req'.name == req.name && req.name.value !in s.comps[x].routes
    requires x in Bind(s, c, req, order).comps && Admit(Bind(s, c, req, order), req').Accepted?
    ensures var b := Bind(s, c, req, order);
            !TableOk(b) && c in Bind(b, x, req', order').comps && TableOk(Unbind(Bind(b, x, req', order'), c, req.name))
  {
    hide Bind, Unbind, Admit, AddRoute, RemoveRoute, BroadcastIn, ReachesDefault;
    var name, b := req.name.value, Bind(s, c, req, order);
    var d := Bind(b, x, req', order');
    BindKeepsTable(s, c, req, order);
    BoundState(s, c, req, order);
    BoundState(b, x, req', order');
    assert name in Held(s)[c] && x in Held(s) && name !in Held(s)[x];
    assert c in Held(d) && name in Held(d)[c];
    UnboundState(d, c, name);
    assert Held(s)[c] + {name} - {name} == Held(s)[c] - {name} && req.name == Some(name) && c in d.comps;
    HealedRow(s.routes, Held(s), c, x, name);
  }

  lemma HealedRow(routes: Table, held: map<CompId, set<Name>>, c: CompId, x: CompId, name: Name)
    requires Inverse(routes, held) && c in held && name in held[c] && x in held && x != c && name !in held[x]
    ensures Inverse(RemoveRoute(AddRoute(AddRoute(routes, name, c), name, x), name, c),
                    held[c := held[c] + {name}][x := held[x] + {name}][c := held[c] - {name}])
  {
    hide SwapScan;
    var row := routes[name];
    assert row + [c] + [x] == row + [c, x];
    var p :| 0 <= p < |row| && row[p] == c;
    ScanRepeatedThen(row, 0, p, c, x);
    Heals(routes, held, c, x, name, p);
    assert routes[name := row + [c]][name := row + [c, x]][name := row[p := x]] == routes[name := row[p := x]];
  }

  lemma Heals(routes: Table, held: map<CompId, set<Name>>, c: CompId, x: CompId, name: Name, p: nat)
    requires Inverse(routes, held) && c in held && name in held[c] && x in held && x != c && name !in held[x]
    requires name in routes && p < |routes[name]| && routes[name][p] == c
    ensures Inverse(routes[name := routes[name][p := x]],
                    held[c := held[c] + {name}][x := held[x] + {name}][c := held[c] - {name}])
  {
    var row := routes[name][p := x];
    var r, h := routes[name := row], held[c := held[c] + {name}][x := held[x] + {name}][c := held[c] - {name}];
    assert h == held[c := held[c] - {name}][x := held[x] + {name}];
    forall y ensures y in row <==> (y in routes[name] && y != c) || y == x {
      assert row[p] == x;
      if y in routes[name] && y != c {
        var k :| 0 <= k < |routes[name]| && routes[name][k] == y;
        assert row[k] == y;
      }
    }
    forall n, y | n in r && y in r[n] ensures y in h && n in h[y] {
      if n != name { assert y in routes[n]; }
    }
    forall y, n | y in h && n in h[y] ensures n in r && y in r[n] {
      if n != name { assert n in held[y]; }
    }
  }
}
