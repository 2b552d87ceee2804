/**
 router/router.c: binding, unbinding and advertising names.  Every method is proved
 to compute the function of the same purpose in RouterModel.
 */
module Router {
  import opened Wrappers
  import opened RouterModel

  /** A connected component: its names and everything written to its stream. */
  class Component {
    const id: CompId
    var legacy: bool
    var routes: set<Name>
    var sent: seq<Packet>
    ghost var mark: nat

    constructor (id: CompId)
      ensures this.id == id && !legacy
      ensures routes == {} && sent == [] && mark == 0
    {
      this.id, legacy := id, false;
      routes, sent, mark := {}, [], 0;
    }

    ghost function View(): CompView
      reads this
    {
      CompView(legacy, routes, sent, mark)
    }
  }

  class Router {
    var routes: map<Name, seq<CompId>>
    var components: map<CompId, Component>
    var defaultRoute: Option<Name>
    var logSinks: map<Name, CompId>

    ghost predicate Valid()
      reads this, components.Values
    {
      forall c :: c in components ==> components[c].id == c
    }

    /** Every holder in the table is connected; a repeated bind is what can end this. */
    ghost predicate NoDangling()
      reads this
    {
      forall n, c :: n in routes && c in routes[n] ==> c in components
    }

    ghost function View(): State
      reads this, components.Values
    {
      State(routes, map c | c in components :: components[c].View(), defaultRoute, logSinks)
    }

    constructor ()
      ensures Valid() && View() == Initial
    {
      routes, components, defaultRoute, logSinks := map[], map[], None, map[];
    }

    /** A peer connects. */
    method AcceptPeer(id: CompId)
      requires Valid() && id !in components
      modifies this`components
      ensures Valid() && components.Keys == old(components.Keys) + {id} && fresh(components[id])
      ensures View() == Step(old(View()), Accepting(id))
    {
      var comp := new Component(id);
      components := components[id := comp];
      assert View().comps == old(View()).comps[id := CompView(false, {}, [], 0)];
    }

    /** event_STREAM with the namespace of a legacy component */
    method HeadLegacy(comp: Component)
      requires Valid() && comp.id in components && components[comp.id] == comp
      requires Possible(View(), Heading(comp.id))
      modifies comp`legacy
      ensures Valid() && View() == Step(old(View()), Heading(comp.id))
    {
      comp.legacy := true;
      SameState(View(), Head(old(View()), comp.id));
    }

    method RouteAdd(name: Name, comp: CompId) returns (n: nat)
      modifies this`routes
      ensures routes == AddRoute(old(routes), name, comp)
      ensures n == |routes[name]|
    {
      var holders := if name in routes then routes[name] else [];
      holders := holders + [comp];
      routes := routes[name := holders];
      n := |holders|;
    }

    method RouteRemove(name: Name, comp: CompId)
      modifies this`routes
      ensures routes == RemoveRoute(old(routes), name, comp)
    {
      if name !in routes { return; }
      if |routes[name]| > 1 {
        var a, i := routes[name], 0;
        while i < |a|
          invariant SwapScan(a, i, comp) == SwapScan(routes[name], 0, comp)
          decreases |a| - i
        {
          if a[i] == comp {
            if i != |a| - 1 {
              a := a[i := a[|a| - 1]];
            }
            assert a == a[i := a[|a| - 1]];
            a := a[..|a| - 1];
          }
          i := i + 1;
        }
        routes := routes[name := a];
      } else {
        routes := routes - {name};
      }
    }

    method Send(comp: Component, p: Packet)
      requires Valid() && comp.id in components && components[comp.id] == comp
      modifies comp`sent
      ensures Valid() && View() == Write(old(View()), comp.id, [p])
    {
      comp.sent := comp.sent + [p];
    }

    /** A broadcast packet for one slot: not to the source and not to legacy components. */
    method BroadcastOne(comp: Component, p: Packet, src: CompId, ghost s: State, ghost done: seq<CompId>)
      requires Valid() && comp.id in components && components[comp.id] == comp
      requires (forall c :: c in done ==> c in s.comps) && comp.id in s.comps && View() == RowFold(s, done, p, src)
      modifies comp`sent
      ensures Valid() && View() == RowFold(s, done + [comp.id], p, src)
    {
      hide Write, RowFold;
      RowFoldStep(s, done + [comp.id], p, src);
      assert (done + [comp.id])[..|done|] == done;
      if comp.id != src && !comp.legacy {
        Send(comp, p);
      }
    }

    /** One row of the broadcast walk, `_router_broadcast`. */
    method BroadcastRow(name: Name, p: Packet, src: CompId)
      requires Valid() && NoDangling() && name in routes
      modifies components.Values`sent
      ensures Valid() && View() == RowFold(old(View()), routes[name], p, src)
    {
      hide RowFold;
      ghost var s := View();
      var row, i := routes[name], 0;
      RowFoldStep(s, [], p, src);
      while i < |row|
        invariant 0 <= i <= |row| && Valid()
        invariant View() == RowFold(s, row[..i], p, src)
      {
        assert row[i] in routes[name] && row[..i + 1] == row[..i] + [row[i]];
        BroadcastOne(components[row[i]], p, src, s, row[..i]);
        i := i + 1;
      }
      assert row[..i] == row;
    }

    /** `_router_advertise` */
    method Advertise(p: Packet, src: CompId)
      requires Valid() && NoDangling()
      modifies components.Values`sent
      ensures Valid() && View() == Broadcast(old(View()), p, src)
    {
      ghost var s := View();
      BroadcastNone(s, p, src);
      var todo := routes.Keys;
      while todo != {}
        invariant todo <= routes.Keys && Valid()
        invariant View() == BroadcastIn(s, routes.Keys - todo, p, src)
      {
        var name :| name in todo;
        ghost var done := routes.Keys - todo;
        RowIsNext(s, done, name, p, src);
        BroadcastRow(name, p, src);
        todo := todo - {name};
        assert routes.Keys - todo == done + {name};
      }
      assert routes.Keys - todo == routes.Keys;
    }

    /** Tell a component about all the names it does not hold; `order` is the walk order taken. */
    method AdvertiseReverse(dest: Component) returns (ghost order: seq<Name>)
      requires Valid() && dest.id in components && components[dest.id] == dest
      modifies dest`sent
      ensures WalkOrder(order, OthersNames(routes, dest.id))
      ensures Valid() && View() == Write(old(View()), dest.id, Adverts(order))
    {
      order := [];
      var todo := routes.Keys;
      while todo != {}
        invariant todo <= routes.Keys && Valid()
        invariant dest.sent == old(dest.sent) + Adverts(order)
        invariant WalkOrder(order, OthersNames(routes, dest.id) - todo)
      {
        var name :| name in todo;
        todo := todo - {name};
        if dest.id !in routes[name] {
          dest.sent := dest.sent + [Presence(name, false)];
          assert Adverts(order + [name]) == Adverts(order) + [Presence(name, false)];
          order := order + [name];
        }
      }
      assert OthersNames(routes, dest.id) - todo == OthersNames(routes, dest.id);
    }

    /** The checks of `_router_process_bind`, up to the recording of the default route and the log sink. */
    method CheckBind(comp: CompId, req: BindRequest) returns (v: Verdict)
      modifies this`defaultRoute, this`logSinks
      ensures v == Admit(old(View()), req)
      ensures defaultRoute == if ReachesDefault(old(View()), req) then req.name else old(defaultRoute)
      ensures logSinks == if v.Accepted? && req.log then old(logSinks)[req.name.value := comp] else old(logSinks)
    {
      if req.name.None? { return Refused(400); }
      var name := req.name.value;
      if !req.ownName && !req.aciBind { return Refused(403); }
      if name in routes && !req.multi { return Refused(409); }
      if req.aliased { return Refused(409); }
      if req.default {
        if !req.aciDefault { return Refused(403); }
        if defaultRoute.Some? { return Refused(409); }
        defaultRoute := Some(name);
      }
      if req.log {
        if !req.aciLog { return Refused(403); }
        logSinks := logSinks[name := comp];
      }
      return Accepted;
    }

    method EnterName(comp: Component, name: Name)
      requires Valid() && NoDangling() && comp.id in components && components[comp.id] == comp
      modifies this`routes, comp`routes, comp`mark
      ensures Valid() && NoDangling() && View() == Enter(old(View()), comp.id, name)
    {
      var n := RouteAdd(name, comp.id);
      if comp.routes == {} {
        comp.mark := |comp.sent|;
      }
      comp.routes := comp.routes + {name};
      SameState(View(), Enter(old(View()), comp.id, name));
    }

    /** event_OPEN of a legacy component, which gets its name without any check but that for an alias */
    method OpenLegacy(comp: Component, host: Name, aliased: bool)
      requires Valid() && NoDangling() && comp.id in components && components[comp.id] == comp
      requires comp.legacy && comp.routes == {}
      modifies this`routes, components.Values
      ensures Valid() && NoDangling() && components == old(components)
      ensures Possible(old(View()), Opening(comp.id, host, aliased))
      ensures View() == Step(old(View()), Opening(comp.id, host, aliased))
    {
      hide BroadcastIn, SlotsIn, AddRoute, Enter;
      if aliased { return; }
      EnterName(comp, host);
      Advertise(Presence(host, false), comp.id);
    }

    /** The accepting half: enter the name, confirm, advertise it, and introduce the others. */
    method AcceptName(comp: Component, name: Name) returns (ghost order: seq<Name>)
      requires Valid() && NoDangling() && comp.id in components && components[comp.id] == comp
      modifies this`routes, components.Values
      ensures Valid() && NoDangling() && components == old(components)
      ensures WalkOrder(order, OthersNames(AddRoute(old(routes), name, comp.id), comp.id))
      ensures View() == Write(Broadcast(Write(Enter(old(View()), comp.id, name), comp.id, [Reply(0)]),
                                        Presence(name, false), comp.id), comp.id, Adverts(order))
    {
      hide BroadcastIn, SlotsIn, WalkOrder, Adverts, OthersNames, AddRoute;
      EnterName(comp, name);
      Send(comp, Reply(0));
      Advertise(Presence(name, false), comp.id);
      order := AdvertiseReverse(comp);
    }

    /** `_router_process_bind`; `order` is the walk order of the adverts to the new component. */
    method ProcessBind(comp: Component, req: BindRequest) returns (ghost order: seq<Name>)
      requires Valid() && NoDangling() && comp.id in components && components[comp.id] == comp && !comp.legacy
      modifies this`routes, this`defaultRoute, this`logSinks, components.Values
      ensures Valid() && NoDangling() && components == old(components)
      ensures Possible(old(View()), Binding(comp.id, req, order))
      ensures View() == Step(old(View()), Binding(comp.id, req, order))
    {
      hide BroadcastIn, SlotsIn, WalkOrder, Adverts, OthersNames, AddRoute, Enter;
      ghost var s := View();
      order := [];
      var verdict := CheckBind(comp.id, req);
      ghost var s1 := if ReachesDefault(s, req) then s.(defaultRoute := req.name) else s;
      SameState(View(), if verdict.Accepted? && req.log then s1.(logSinks := s1.logSinks[req.name.value := comp.id]) else s1);
      match verdict {
        case Refused(code) => Send(comp, Reply(code));
        case Accepted => order := AcceptName(comp, req.name.value);
      }
    }

    /** The table changes for one name given up. */
    method DropName(comp: Component, name: Name)
      requires Valid() && NoDangling() && comp.id in components && components[comp.id] == comp
      modifies this`routes, this`defaultRoute, this`logSinks, comp`routes
      ensures Valid() && NoDangling()
      ensures View() == Drop(old(View()), comp.id, name)
    {
      logSinks := logSinks - {name};
      RouteRemove(name, comp.id);
      RemovesOnly(old(routes), name, comp.id);
      comp.routes := comp.routes - {name};
      if defaultRoute == Some(name) {
        defaultRoute := None;
      }
      SameState(View(), Drop(old(View()), comp.id, name));
    }

    /** `_router_process_unbind` */
    method ProcessUnbind(comp: Component, req: Option<Name>)
      requires Valid() && NoDangling() && comp.id in components && components[comp.id] == comp && !comp.legacy
      modifies this`routes, this`defaultRoute, this`logSinks, components.Values
      ensures Valid() && NoDangling() && components == old(components)
      ensures View() == Step(old(View()), Unbinding(comp.id, req))
    {
      hide BroadcastIn, RemoveRoute, Drop;
      if req.None? {
        Send(comp, Reply(400));
      } else if req.value !in comp.routes {
        Send(comp, Reply(404));
      } else {
        DropName(comp, req.value);
        Send(comp, Reply(0));
        if req.value !in routes {
          Advertise(Presence(req.value, true), comp.id);
        }
      }
    }

    /** `_router_route_unbind_walker` */
    method UnbindWalker(comp: Component, name: Name)
      requires Valid() && NoDangling() && comp.id in components && components[comp.id] == comp
      modifies this`routes, this`defaultRoute, this`logSinks, components.Values
      ensures Valid() && NoDangling()
      ensures View() == Deadvertise(Drop(old(View()), comp.id, name), comp.id, name)
    {
      DropName(comp, name);
      if name !in routes {
        Advertise(Presence(name, true), comp.id);
      }
    }

    /** The unbind walk over all names of a component, in the order taken. */
    method UnbindAll(comp: Component) returns (ghost order: seq<Name>)
      requires Valid() && NoDangling() && comp.id in components && components[comp.id] == comp
      modifies this`routes, this`defaultRoute, this`logSinks, components.Values
      ensures Valid() && WalkOrder(order, old(comp.routes))
      ensures View() == DropAll(old(View()), comp.id, order)
    {
      hide BroadcastIn, Drop, RemoveRoute, DropAll, Deadvertise, WalkOrder;
      ghost var s, names := View(), comp.routes;
      order := [];
      var todo := comp.routes;
      DropNone(s, comp.id, names);
      while todo != {}
        invariant todo <= names && Valid() && NoDangling() && components == old(components)
        invariant WalkOrder(order, names - todo)
        invariant View() == DropAll(s, comp.id, order)
        decreases todo
      {
        var name :| name in todo;
        DropAllSnoc(s, comp.id, order, name);
        UnbindWalker(comp, name);
        WalkSnoc(order, names - todo, name);
        assert names - todo + {name} == names - (todo - {name});
        todo := todo - {name};
        order := order + [name];
      }
      assert names - todo == names;
    }

    /** The close action: the unbind walk, then deregistration. */
    method CloseComponent(comp: Component) returns (ghost order: seq<Name>)
      requires Valid() && NoDangling() && comp.id in components && components[comp.id] == comp
      modifies this, components.Values
      ensures Valid() && components == old(components) - {comp.id}
      ensures Possible(old(View()), Closing(comp.id, order))
      ensures View() == Step(old(View()), Closing(comp.id, order))
    {
      hide WalkOrder, DropAll;
      ghost var s := View();
      order := UnbindAll(comp);
      components := components - {comp.id};
      SameState(View(), Close(s, comp.id, order));
    }
  }

  lemma DropNone(s: State, c: CompId, names: set<Name>)
    requires c in s.comps
    ensures DropAll(s, c, []) == s && WalkOrder([], names - names)
  {}

  lemma WalkSnoc(order: seq<Name>, names: set<Name>, name: Name)
    requires WalkOrder(order, names) && name !in names
    ensures WalkOrder(order + [name], names + {name})
  {}

  lemma {:induction false} DropAllSnoc(s: State, c: CompId, order: seq<Name>, name: Name)
    requires c in s.comps
    ensures DropAll(s, c, order + [name])
         == Deadvertise(Drop(DropAll(s, c, order), c, name), c, name)
    decreases |order|
  {
    if order == [] {
      assert [name][1..] == [];
    } else {
      assert (order + [name])[1..] == order[1..] + [name];
      DropAllSnoc(Deadvertise(Drop(s, c, order[0]), c, order[0]), c, order[1..], name);
    }
  }

  /** Removing a holder introduces no new one. */
  lemma RemovesOnly(routes: map<Name, seq<CompId>>, name: Name, comp: CompId)
    ensures forall n, c :: n in RemoveRoute(routes, name, comp) && c in RemoveRoute(routes, name, comp)[n] ==>
              n in routes && c in routes[n]
  {
    if name in routes { ScanRemovesOnly(routes[name], 0, comp); }
  }

  lemma {:induction false} ScanRemovesOnly(a: seq<CompId>, i: nat, comp: CompId)
    ensures forall c :: c in SwapScan(a, i, comp) ==> c in a
    decreases |a| - i
  {
    if i < |a| {
      if a[i] == comp {
        ScanRemovesOnly(a[i := a[|a| - 1]][..|a| - 1], i + 1, comp);
      } else {
        ScanRemovesOnly(a, i + 1, comp);
      }
    }
  }

  // ----- the broadcast walk, one write at a time

  /** Writing along one row of the table. */
  function RowFold(s: State, row: seq<CompId>, p: Packet, src: CompId): (t: State)
    requires forall c :: c in row ==> c in s.comps
    ensures t.comps.Keys == s.comps.Keys && t == s.(comps := t.comps)
    decreases |row|
  {
    if row == [] then s
    else
      var c := row[|row| - 1];
      var t := RowFold(s, row[..|row| - 1], p, src);
      if c == src || t.comps[c].legacy then t else Write(t, c, [p])
  }

  lemma RowFoldStep(s: State, row: seq<CompId>, p: Packet, src: CompId)
    requires forall c :: c in row ==> c in s.comps
    ensures RowFold(s, row, p, src) ==
      if row == [] then s
      else
        var c, t := row[|row| - 1], RowFold(s, row[..|row| - 1], p, src);
        if c == src || t.comps[c].legacy then t else Write(t, c, [p])
  {
    hide Write;
  }

  ghost function RowSlots(name: Name, row: seq<CompId>, c: CompId): set<(Name, int)> {
    set j | 0 <= j < |row| && row[j] == c :: (name, j)
  }

  lemma NextSlot(name: Name, row: seq<CompId>, c: CompId)
    requires row != []
    ensures |RowSlots(name, row, c)|
         == |RowSlots(name, row[..|row| - 1], c)| + if row[|row| - 1] == c then 1 else 0
  {
    var n := |row| - 1;
    assert RowSlots(name, row, c) == RowSlots(name, row[..n], c) + if row[n] == c then {(name, n)} else {};
  }

  lemma {:induction false} RowFoldEffect(s: State, name: Name, row: seq<CompId>, p: Packet, src: CompId, c: CompId)
    requires (forall x :: x in row ==> x in s.comps) && c in s.comps
    ensures var t := RowFold(s, row, p, src);
            t.comps[c] == if c == src || s.comps[c].legacy then s.comps[c]
                             else s.comps[c].(sent := s.comps[c].sent + Repeat(p, |RowSlots(name, row, c)|))
    decreases |row|
  {
    if row == [] {
      assert s.comps[c].sent + [] == s.comps[c].sent;
    } else {
      RowFoldEffect(s, name, row[..|row| - 1], p, src, c);
      NextSlot(name, row, c);
      var k := |RowSlots(name, row[..|row| - 1], c)|;
      assert s.comps[c].sent + Repeat(p, k) + [p] == s.comps[c].sent + Repeat(p, k + 1);
    }
  }

  lemma BroadcastNone(s: State, p: Packet, src: CompId)
    ensures BroadcastIn(s, s.routes.Keys - s.routes.Keys, p, src) == s
  {
    var t := BroadcastIn(s, s.routes.Keys - s.routes.Keys, p, src);
    forall c | c in s.comps ensures t.comps[c] == s.comps[c] {
      assert SlotsIn(s.routes, s.routes.Keys - s.routes.Keys, c) == {};
      assert s.comps[c].sent + [] == s.comps[c].sent;
    }
    assert t.comps == s.comps;
  }

  lemma RowIsNext(s: State, done: set<Name>, name: Name, p: Packet, src: CompId)
    requires name !in done && name in s.routes && forall c :: c in s.routes[name] ==> c in s.comps
    ensures RowFold(BroadcastIn(s, done, p, src), s.routes[name], p, src) == BroadcastIn(s, done + {name}, p, src)
  {
    hide RowFold, Repeat;
    var d := BroadcastIn(s, done, p, src);
    var t, u := RowFold(d, s.routes[name], p, src), BroadcastIn(s, done + {name}, p, src);
    forall c | c in s.comps ensures t.comps[c] == u.comps[c] {
      RowFoldEffect(d, name, s.routes[name], p, src, c);
      SlotsSplit(s.routes, done, name, c);
      var m, k := |SlotsIn(s.routes, done, c)|, |RowSlots(name, s.routes[name], c)|;
      RepeatSplit(p, m, k);
      assert s.comps[c].sent + Repeat(p, m) + Repeat(p, k) == s.comps[c].sent + Repeat(p, m + k);
    }
    SameState(t, u);
  }

  lemma RepeatSplit(p: Packet, m: nat, k: nat)
    ensures Repeat(p, m) + Repeat(p, k) == Repeat(p, m + k)
  {}

  lemma SlotsSplit(routes: map<Name, seq<CompId>>, done: set<Name>, name: Name, c: CompId)
    requires name !in done && name in routes
    ensures |SlotsIn(routes, done + {name}, c)| == |SlotsIn(routes, done, c)| + |RowSlots(name, routes[name], c)|
  {
    assert SlotsIn(routes, done + {name}, c) == SlotsIn(routes, done, c) + RowSlots(name, routes[name], c);
  }

  lemma SameState(s: State, t: State)
    requires s.routes == t.routes && s.defaultRoute == t.defaultRoute && s.logSinks == t.logSinks
    requires s.comps.Keys == t.comps.Keys && forall c :: c in s.comps ==> s.comps[c] == t.comps[c]
    ensures s == t
  {
    assert s.comps == t.comps;
  }
}
