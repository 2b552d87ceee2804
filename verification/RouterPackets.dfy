/**
 What one packet does to the router, in the words of the packet: which bind is let in and which answer the others
 get, what an unbind and a close take away and leave alone; and, over runs, who can hold a name.
 */
module RouterPackets {
  import opened Wrappers
  import opened RouterModel
  import opened RouterTables

  // ----- bind

  /** A refused bind writes the answer and nothing else. */
  lemma RefusedBind(s: State, c: CompId, req: BindRequest, order: seq<Name>)
    requires c in s.comps && Admit(s, req).Refused?
    ensures var t := Bind(s, c, req, order);
      && t.routes == s.routes && t.logSinks == s.logSinks && t.comps.Keys == s.comps.Keys
      && t.comps[c] == s.comps[c].(sent := s.comps[c].sent + [Reply(Admit(s, req).code)])
      && forall x :: x in s.comps && x != c ==> t.comps[x] == s.comps[x]
  {
    hide Admit, ReachesDefault;
  }

  lemma Announced(s: State, p: Packet, src: CompId)
    ensures var t := Broadcast(s, p, src);
      && t.routes == s.routes && t.logSinks == s.logSinks && t.defaultRoute == s.defaultRoute
      && t.comps.Keys == s.comps.Keys
      && (src in s.comps ==> t.comps[src] == s.comps[src])
      && forall x :: x in s.comps && x != src ==>
           t.comps[x] == if s.comps[x].legacy then s.comps[x]
                         else s.comps[x].(sent := s.comps[x].sent + Repeat(p, |Slots(s.routes, x)|))
  {
    hide SlotsIn, Repeat;
  }

  /** A bind that is let in changes the tables, and writes to the binder first the echo and then the adverts. */
  lemma AcceptedBind(s: State, c: CompId, req: BindRequest, order: seq<Name>)
    requires c in s.comps && Admit(s, req).Accepted?
    ensures var t, v, name := Bind(s, c, req, order), s.comps[c], req.name.value;
      && t.routes == s.routes[name := (if name in s.routes then s.routes[name] else []) + [c]]
      && t.logSinks == (if req.log then s.logSinks[name := c] else s.logSinks)
      && t.comps.Keys == s.comps.Keys
      && t.comps[c].routes == v.routes + {name} && t.comps[c].sent == v.sent + [Reply(0)] + Adverts(order)
      && forall x :: x in s.comps && x != c ==>
           t.comps[x] == if s.comps[x].legacy then s.comps[x]
                         else s.comps[x].(sent := s.comps[x].sent + Repeat(Presence(name, false), |Slots(t.routes, x)|))
  {
    hide Admit, ReachesDefault, Slots, Adverts, Repeat, Broadcast;
    var name := req.name.value;
    var s1 := if ReachesDefault(s, req) then s.(defaultRoute := req.name) else s;
    var d := Write(Enter(if req.log then s1.(logSinks := s1.logSinks[name := c]) else s1, c, name), c, [Reply(0)]);
    Announced(d, Presence(name, false), c);
    assert Bind(s, c, req, order) == Write(Broadcast(d, Presence(name, false), c), c, Adverts(order));
  }

  /**
   A bind enters the name in both tables exactly when a name is given, it is the component's own or "bind" is allowed,
   it is free or `multi` is set, it is no alias, a requested default route is allowed and none is set, and a requested
   log is allowed; otherwise neither table changes.
   */
  lemma BindEntersIff(s: State, c: CompId, req: BindRequest, order: seq<Name>)
    requires c in s.comps
    ensures var t := Bind(s, c, req, order);
      && t.comps.Keys == s.comps.Keys
      && if && req.name.Some? && (req.ownName || req.aciBind)
            && (req.name.value !in s.routes || req.multi) && !req.aliased
            && (req.default ==> req.aciDefault && s.defaultRoute.None?)
            && (req.log ==> req.aciLog)
         then
           && t.routes ==
              s.routes[req.name.value := (if req.name.value in s.routes then s.routes[req.name.value] else []) + [c]]
           && t.comps[c].routes == s.comps[c].routes + {req.name.value}
           && forall x :: x in s.comps && x != c ==> t.comps[x].routes == s.comps[x].routes
         else
           t.routes == s.routes && forall x :: x in s.comps ==> t.comps[x].routes == s.comps[x].routes
  {
    hide Bind, Slots;
    if Admit(s, req).Accepted? { AcceptedBind(s, c, req, order); } else { RefusedBind(s, c, req, order); }
  }

  /**
   The answer to a bind, written before anything else: 400 without a name; 403 where a right is missing that the bind
   comes to need; 409 where the name, an alias or the default route is taken; else the echo.  After a refusal nothing
   else is written to anybody.
   */
  lemma BindAnswer(s: State, c: CompId, req: BindRequest, order: seq<Name>)
    requires c in s.comps
    ensures var t, k := Bind(s, c, req, order), |s.comps[c].sent|;
      && t.comps.Keys == s.comps.Keys
      && |t.comps[c].sent| > k && t.comps[c].sent[..k] == s.comps[c].sent
      && var answer := t.comps[c].sent[k];
      && answer in {Reply(0), Reply(400), Reply(403), Reply(409)}
      && (answer == Reply(400) <==> req.name.None?)
      && (answer == Reply(403) <==>
            && req.name.Some?
            && (|| (!req.ownName && !req.aciBind)
                || (&& (req.name.value in s.routes ==> req.multi) && !req.aliased
                    && (|| (req.default && !req.aciDefault)
                        || (req.log && !req.aciLog && !(req.default && s.defaultRoute.Some?))))))
      && (answer == Reply(409) <==>
            && req.name.Some? && (req.ownName || req.aciBind)
            && (|| (req.name.value in s.routes && !req.multi) || req.aliased
                || (req.default && req.aciDefault && s.defaultRoute.Some?)))
      && (answer != Reply(0) ==>
            |t.comps[c].sent| == k + 1 && forall x :: x in s.comps && x != c ==> t.comps[x] == s.comps[x])
  {
    hide Bind, Slots, Adverts;
    if Admit(s, req).Accepted? { AcceptedBind(s, c, req, order); } else { RefusedBind(s, c, req, order); }
  }

  /**
   What a bind records: the default route when it is asked for, allowed and free and the name itself is not refused,
   even if a log sink is refused after that; a log sink when it is let in and asks for it.
   */
  lemma BindRecords(s: State, c: CompId, req: BindRequest, order: seq<Name>)
    requires c in s.comps
    ensures var t, k := Bind(s, c, req, order), |s.comps[c].sent|;
      && t.defaultRoute ==
         (if && req.name.Some? && (req.ownName || req.aciBind)
             && (req.name.value !in s.routes || req.multi) && !req.aliased
             && req.default && req.aciDefault && s.defaultRoute.None?
          then req.name else s.defaultRoute)
      && c in t.comps && |t.comps[c].sent| > k
      && t.logSinks == (if req.name.Some? && t.comps[c].sent[k] == Reply(0) && req.log
                        then s.logSinks[req.name.value := c] else s.logSinks)
  {
    hide Slots, Adverts;
    if Admit(s, req).Accepted? { AcceptedBind(s, c, req, order); } else { RefusedBind(s, c, req, order); }
  }

  /**
   Whom a bind that is let in tells what: every other native component that the name is available, once for each
   of its places in the table; the binder, after the echo, that each name of the walk is.
   */
  lemma BindTells(s: State, c: CompId, req: BindRequest, order: seq<Name>, x: CompId)
    requires c in s.comps && x in s.comps
    requires var t := Bind(s, c, req, order); c in t.comps && |s.comps[c].sent| < |t.comps[c].sent|
    requires Bind(s, c, req, order).comps[c].sent[|s.comps[c].sent|] == Reply(0)
    ensures var t := Bind(s, c, req, order);
      && req.name.Some? && x in t.comps && s.comps[x].sent <= t.comps[x].sent
      && var news := t.comps[x].sent[|s.comps[x].sent|..];
      && (x == c ==> |news| == 1 + |order| && news[0] == Reply(0)
                     && forall i :: 0 <= i < |order| ==> news[1 + i] == Presence(order[i], false))
      && (x != c && s.comps[x].legacy ==> news == [])
      && (x != c && !s.comps[x].legacy ==>
            && (forall p :: p in news ==> p == Presence(req.name.value, false))
            && |news| == |set n, i | n in t.routes && 0 <= i < |t.routes[n]| && t.routes[n][i] == x :: (n, i)|)
  {
    hide Bind, Repeat;
    if Admit(s, req).Accepted? {
      AcceptedBind(s, c, req, order);
      SlotsAre(Bind(s, c, req, order).routes, x);
    } else {
      RefusedBind(s, c, req, order);
    }
  }

  // ----- unbind and close

  /** An unbind without a name is answered 400 and one of a name that is not held 404; nothing else happens. */
  lemma UnbindRefused(s: State, c: CompId, name: Option<Name>)
    requires c in s.comps && (name.Some? ==> name.value !in s.comps[c].routes)
    ensures var t := Unbind(s, c, name);
      && t.comps.Keys == s.comps.Keys && t == s.(comps := t.comps)
      && t.comps[c] == s.comps[c].(sent := s.comps[c].sent + [Reply(if name.None? then 400 else 404)])
      && forall x :: x in s.comps && x != c ==> t.comps[x] == s.comps[x]
  {
    assert forall n :: n in s.comps[c].routes ==> name != Some(n);
  }

  /** Giving up a held name takes it from the two indexes, the sinks and the default route, and takes nothing else. */
  lemma DropTakes(s: State, c: CompId, name: Name)
    requires TableOk(s) && c in s.comps && name in s.comps[c].routes
    ensures var t := Drop(s, c, name);
      && name in s.routes
      && t.routes.Keys == (if s.routes[name] == [c] then s.routes.Keys - {name} else s.routes.Keys)
      && (forall n :: n in t.routes && n != name ==> t.routes[n] == s.routes[n])
      && (forall x :: name in t.routes ==> (x in t.routes[name] <==> x in s.routes[name] && x != c))
      && t.logSinks == s.logSinks - {name}
      && t.defaultRoute == (if s.defaultRoute == Some(name) then None else s.defaultRoute)
      && t.comps == s.comps[c := s.comps[c].(routes := s.comps[c].routes - {name})]
  {
    assert name in Held(s)[c];
    RemoveRouteRemoves(s.routes, name, c);
    if |s.routes[name]| == 1 { assert s.routes[name] == [s.routes[name][0]]; }
  }

  /** What an unbind of a held name takes, and whom it tells: the sender, and the others only if nobody is left. */
  lemma UnbindTakes(s: State, c: CompId, name: Name, x: CompId)
    requires TableOk(s) && c in s.comps && name in s.comps[c].routes && x in s.comps
    ensures var t := Unbind(s, c, Some(name));
      && name in s.routes
      && t.routes.Keys == (if s.routes[name] == [c] then s.routes.Keys - {name} else s.routes.Keys)
      && (forall n :: n in t.routes && n != name ==> t.routes[n] == s.routes[n])
      && (forall y :: name in t.routes ==> (y in t.routes[name] <==> y in s.routes[name] && y != c))
      && t.logSinks == s.logSinks - {name}
      && t.defaultRoute == (if s.defaultRoute == Some(name) then None else s.defaultRoute)
      && t.comps.Keys == s.comps.Keys
      && t.comps[x].routes == (if x == c then s.comps[x].routes - {name} else s.comps[x].routes)
      && s.comps[x].sent <= t.comps[x].sent
      && var news := t.comps[x].sent[|s.comps[x].sent|..];
      && (x == c ==> news == [Reply(0)])
      && (x != c && (s.comps[x].legacy || name in t.routes) ==> news == [])
      && (x != c && !s.comps[x].legacy && name !in t.routes ==>
            && (forall p :: p in news ==> p == Presence(name, true))
            && |news| == |set n, i | n in t.routes && 0 <= i < |t.routes[n]| && t.routes[n][i] == x :: (n, i)|)
  {
    hide Drop, Broadcast, SlotsIn, Repeat, TableOk;
    DropTakes(s, c, name);
    var d := Write(Drop(s, c, name), c, [Reply(0)]);
    if name !in d.routes {
      Announced(d, Presence(name, true), c);
      SlotsAre(d.routes, x);
    }
  }

  lemma SlotsAre(routes: Table, x: CompId)
    ensures Slots(routes, x)
         == set n, i | n in routes && 0 <= i < |routes[n]| && routes[n][i] == x :: (n, i)
  {}

  /** One step of the walk of a closing component. */
  function GiveUp(s: State, c: CompId, name: Name): State
    requires c in s.comps
  {
    Deadvertise(Drop(s, c, name), c, name)
  }

  lemma GiveUpTakes(s: State, c: CompId, name: Name)
    requires TableOk(s) && c in s.comps && name in s.comps[c].routes
    ensures var t, d := GiveUp(s, c, name), Drop(s, c, name);
      && TableOk(t) && t.routes == d.routes && t.logSinks == d.logSinks && t.defaultRoute == d.defaultRoute
      && t.comps.Keys == s.comps.Keys && t.comps[c] == s.comps[c].(routes := s.comps[c].routes - {name})
      && forall x :: x in s.comps && x != c ==>
           t.comps[x].routes == s.comps[x].routes && t.comps[x].legacy == s.comps[x].legacy
  {
    hide Drop, Broadcast, Slots, Repeat, TableOk;
    DropTakes(s, c, name);
    DropKeepsTable(s, c, name);
    Announced(Drop(s, c, name), Presence(name, true), c);
  }

  /** In the step, everybody else who holds a name is told that the name is gone, if it is. */
  lemma GiveUpTells(s: State, c: CompId, name: Name, x: CompId)
    requires TableOk(s) && c in s.comps && name in s.comps[c].routes && x in s.comps && x != c
    ensures var t := GiveUp(s, c, name);
      && name in s.routes && x in t.comps && s.comps[x].sent <= t.comps[x].sent
      && forall p :: p in t.comps[x].sent[|s.comps[x].sent|..] <==>
           p == Presence(name, true) && s.routes[name] == [c] && !s.comps[x].legacy && s.comps[x].routes != {}
  {
    hide Drop, Broadcast, Slots, TableOk;
    DropTakes(s, c, name);
    DropKeepsTable(s, c, name);
    var d := Drop(s, c, name);
    Announced(d, Presence(name, true), c);
    HoldsIffSlots(d, x);
  }

  lemma HoldsIffSlots(s: State, x: CompId)
    requires TableOk(s) && x in s.comps
    ensures |Slots(s.routes, x)| > 0 <==> s.comps[x].routes != {}
  {
    if s.comps[x].routes != {} {
      var m :| m in s.comps[x].routes;
      assert m in Held(s)[x];
      var i :| 0 <= i < |s.routes[m]| && s.routes[m][i] == x;
      assert (m, i) in Slots(s.routes, x);
    }
    if Slots(s.routes, x) != {} {
      var p :| p in Slots(s.routes, x);
      assert x in s.routes[p.0] && p.0 in Held(s)[x];
    }
  }

  lemma OneStep(s: State, c: CompId, order: seq<Name>)
    requires c in s.comps && order != []
    ensures GiveUp(s, c, order[0]).comps.Keys == s.comps.Keys
    ensures DropAll(s, c, order) == DropAll(GiveUp(s, c, order[0]), c, order[1..])
  {}

  lemma OneStepNone(s: State, c: CompId)
    requires c in s.comps
    ensures DropAll(s, c, []) == s
  {}

  lemma {:induction false} DropAllTakes(s: State, c: CompId, order: seq<Name>)
    requires TableOk(s) && c in s.comps && WalkOrder(order, s.comps[c].routes)
    ensures var t := DropAll(s, c, order);
      && t.logSinks == s.logSinks - s.comps[c].routes
      && t.defaultRoute == (if s.defaultRoute.Some? && s.defaultRoute.value in s.comps[c].routes
                            then None else s.defaultRoute)
      && t.comps.Keys == s.comps.Keys
      && forall x :: x in s.comps && x != c ==> t.comps[x].routes == s.comps[x].routes
    decreases |order|
  {
    hide Drop, GiveUp, TableOk, DropAll;
    if order == [] {
      assert DropAll(s, c, order) == s by { OneStepNone(s, c); }
      assert forall n :: n in s.comps[c].routes ==> n in order;
    } else {
      var name := order[0];
      assert name in order;
      DropTakes(s, c, name);
      GiveUpTakes(s, c, name);
      WalkTail(order, s.comps[c].routes);
      DropAllTakes(GiveUp(s, c, name), c, order[1..]);
      OneStep(s, c, order);
    }
  }

  /** Whom the walk tells what: everybody else who holds a name, of each name that only c held. */
  lemma {:induction false} DropAllTells(s: State, c: CompId, order: seq<Name>, x: CompId)
    requires TableOk(s) && c in s.comps && WalkOrder(order, s.comps[c].routes) && x in s.comps && x != c
    ensures var t := DropAll(s, c, order);
      && x in t.comps && s.comps[x].sent <= t.comps[x].sent
      && forall p :: p in t.comps[x].sent[|s.comps[x].sent|..] <==>
           && p.Presence? && p.unavail && p.from in order && p.from in s.routes && s.routes[p.from] == [c]
           && !s.comps[x].legacy && s.comps[x].routes != {}
    decreases |order|
  {
    hide Drop, GiveUp, TableOk, DropAll;
    if order == [] {
      assert DropAll(s, c, order) == s by { OneStepNone(s, c); }
    } else {
      var name, u, t := order[0], GiveUp(s, c, order[0]), DropAll(s, c, order);
      assert name in order && forall n :: n in order <==> n == name || n in order[1..];
      DropTakes(s, c, name);
      GiveUpTakes(s, c, name);
      GiveUpTells(s, c, name, x);
      WalkTail(order, s.comps[c].routes);
      DropAllTells(u, c, order[1..], x);
      OneStep(s, c, order);
      assert t.comps[x].sent[|s.comps[x].sent|..]
          == u.comps[x].sent[|s.comps[x].sent|..] + t.comps[x].sent[|u.comps[x].sent|..];
    }
  }

  /**
   What a close takes: the component itself, exactly its places in the table, the sinks of the names it held, and the
   default route if it was one of them.
   */
  lemma CloseTakes(s: State, c: CompId, order: seq<Name>)
    requires TableOk(s) && c in s.comps && WalkOrder(order, s.comps[c].routes)
    ensures var t := Close(s, c, order);
      && (forall n :: n in t.routes <==> n in s.routes && s.routes[n] != [c])
      && (forall n, y :: n in t.routes ==> (y in t.routes[n] <==> y in s.routes[n] && y != c))
      && t.logSinks == s.logSinks - s.comps[c].routes
      && t.defaultRoute == (if s.defaultRoute.Some? && s.defaultRoute.value in s.comps[c].routes
                            then None else s.defaultRoute)
      && t.comps.Keys == s.comps.Keys - {c}
      && forall x :: x in t.comps ==> t.comps[x].routes == s.comps[x].routes
  {
    hide DropAll, WalkOrder;
    DropAllTakes(s, c, order);
    CloseKeepsTable(s, c, order);
    var t := Close(s, c, order);
    forall n, y ensures n in t.routes && y in t.routes[n] <==> n in s.routes && y in s.routes[n] && y != c {
      assert y in Held(t) && n in Held(t)[y] <==> y in Held(s) && n in Held(s)[y] && y != c;
    }
    forall n ensures n in t.routes <==> n in s.routes && s.routes[n] != [c] {
      if n in t.routes { assert t.routes[n][0] in t.routes[n]; }
      if n in s.routes && s.routes[n] != [c] {
        var y := if s.routes[n][0] == c then s.routes[n][1] else s.routes[n][0];
        assert y in s.routes[n] && y != c;
      }
    }
  }

  /** Whom a close tells what: every native component that holds a name, of each name that only the closed one held. */
  lemma CloseTells(s: State, c: CompId, order: seq<Name>, x: CompId)
    requires TableOk(s) && c in s.comps && WalkOrder(order, s.comps[c].routes) && x in s.comps && x != c
    ensures var t := Close(s, c, order);
      && x in t.comps && s.comps[x].sent <= t.comps[x].sent
      && forall p :: p in t.comps[x].sent[|s.comps[x].sent|..] <==>
           && p.Presence? && p.unavail && p.from in s.comps[c].routes && p.from in s.routes && s.routes[p.from] == [c]
           && !s.comps[x].legacy && s.comps[x].routes != {}
  {
    hide DropAll;
    DropAllTells(s, c, order, x);
  }

  /** A legacy component that opens gets its name and has it announced unless it is an alias; then nothing happens. */
  lemma OpenEntersIff(s: State, c: CompId, name: Name, aliased: bool, x: CompId)
    requires c in s.comps && x in s.comps
    ensures var t := Open(s, c, name, aliased);
      && (aliased ==> t == s)
      && (!aliased ==>
            && t.routes == s.routes[name := (if name in s.routes then s.routes[name] else []) + [c]]
            && t.comps.Keys == s.comps.Keys && t.logSinks == s.logSinks && t.defaultRoute == s.defaultRoute
            && t.comps[x].routes == (if x == c then s.comps[x].routes + {name} else s.comps[x].routes)
            && s.comps[x].sent <= t.comps[x].sent
            && var news := t.comps[x].sent[|s.comps[x].sent|..];
            && (x == c || s.comps[x].legacy ==> news == [])
            && (x != c && !s.comps[x].legacy ==>
                  && (forall p :: p in news ==> p == Presence(name, false))
                  && |news| == |set n, i | n in t.routes && 0 <= i < |t.routes[n]| && t.routes[n][i] == x :: (n, i)|))
  {
    hide Broadcast, Slots, Repeat;
    Announced(Enter(s, c, name), Presence(name, false), c);
    SlotsAre(Enter(s, c, name).routes, x);
  }

  // ----- who can hold a name

  /** The event lets c hold the name. */
  ghost predicate LetsIn(s: State, e: Event, c: CompId, name: Name) {
    match e
    case Binding(b, req, _) =>
      && b == c && req.name == Some(name) && (req.ownName || req.aciBind)
      && (name !in s.routes || req.multi) && !req.aliased
      && (req.default ==> req.aciDefault && s.defaultRoute.None?) && (req.log ==> req.aciLog)
    case Opening(b, host, aliased) => b == c && host == name && !aliased
    case _ => false
  }

  /** The event ends c's hold on the name. */
  predicate LetsGo(e: Event, c: CompId, name: Name) {
    e == Unbinding(c, Some(name)) || (e.Closing? && e.c == c)
  }

  predicate Holds(s: State, c: CompId, name: Name) {
    c in s.comps && name in s.comps[c].routes
  }

  /** Whatever the table looks like. */
  lemma UnbindHolds(s: State, b: CompId, unbound: Option<Name>)
    requires b in s.comps
    ensures var t := Unbind(s, b, unbound);
      && t.comps.Keys == s.comps.Keys
      && forall x :: x in s.comps ==>
           t.comps[x].routes == if x == b && unbound.Some? then s.comps[x].routes - {unbound.value} else s.comps[x].routes
  {
    hide Broadcast, Slots, Repeat;
    if unbound.Some? && unbound.value in s.comps[b].routes {
      Announced(Write(Drop(s, b, unbound.value), b, [Reply(0)]), Presence(unbound.value, true), b);
    }
  }

  lemma CloseHolds(s: State, b: CompId, order: seq<Name>)
    requires b in s.comps
    ensures var t := Close(s, b, order);
      && t.comps.Keys == s.comps.Keys - {b}
      && forall x :: x in t.comps ==> t.comps[x].routes == s.comps[x].routes
  {
    DropAllHolds(s, b, order);
  }

  lemma {:induction false} DropAllHolds(s: State, b: CompId, order: seq<Name>)
    requires b in s.comps
    ensures var t := DropAll(s, b, order);
      t.comps.Keys == s.comps.Keys && forall x :: x in s.comps && x != b ==> t.comps[x].routes == s.comps[x].routes
    decreases |order|
  {
    hide DropAll, Broadcast, Slots, Repeat, RemoveRoute;
    if order == [] {
      OneStepNone(s, b);
    } else {
      Announced(Drop(s, b, order[0]), Presence(order[0], true), b);
      DropAllHolds(GiveUp(s, b, order[0]), b, order[1..]);
      OneStep(s, b, order);
    }
  }

  lemma StepHolds(s: State, e: Event, c: CompId, name: Name)
    requires Possible(s, e)
    ensures Holds(Step(s, e), c, name) <==> LetsIn(s, e, c, name) || (Holds(s, c, name) && !LetsGo(e, c, name))
  {
    hide Bind, Unbind, Close, Open;
    match e
    case Accepting(_) =>
    case Heading(_) =>
    case Opening(b, host, aliased) => OpenEntersIff(s, b, host, aliased, if c in s.comps then c else b);
    case Binding(b, req, order) => BindEntersIff(s, b, req, order);
    case Unbinding(b, unbound) =>
      UnbindHolds(s, b, unbound);
    case Closing(b, order) => CloseHolds(s, b, order);
  }

  lemma NobodyHolds(c: CompId, name: Name)
    ensures !Holds(Initial, c, name)
  {}

  /** The i-th event let c hold the name, and none up to the k-th has let it go. */
  ghost predicate LetInSince(states: seq<State>, events: seq<Event>, i: nat, k: nat, c: CompId, name: Name)
    requires i < k <= |events| < |states|
  {
    LetsIn(states[i], events[i], c, name) && forall j :: i < j < k ==> !LetsGo(events[j], c, name)
  }

  /** In any run a component holds a name exactly when an event let it in and none since has let it go. */
  lemma {:induction false} HoldsIff(states: seq<State>, events: seq<Event>, k: nat, c: CompId, name: Name)
    requires Run(states, events) && k < |states|
    ensures Holds(states[k], c, name) <==> exists i :: 0 <= i < k && LetInSince(states, events, i, k, c, name)
  {
    hide LetsIn, LetsGo, Holds, Step, Possible;
    if k == 0 {
      NobodyHolds(c, name);
    } else {
      var s, e := states[k - 1], events[k - 1];
      HoldsIff(states, events, k - 1, c, name);
      StepHolds(s, e, c, name);
      if LetsIn(s, e, c, name) {
        assert LetInSince(states, events, k - 1, k, c, name);
      } else if Holds(s, c, name) && !LetsGo(e, c, name) {
        var i :| 0 <= i < k - 1 && LetInSince(states, events, i, k - 1, c, name);
        assert LetInSince(states, events, i, k, c, name);
      }
      if i :| 0 <= i < k && LetInSince(states, events, i, k, c, name) {
        if i < k - 1 { assert LetInSince(states, events, i, k - 1, c, name); }
      }
    }
  }

  /** A component that may not bind other names holds a foreign name only if it opened under it. */
  lemma {:induction false} OutsiderNeverHolds(states: seq<State>, events: seq<Event>, k: nat, c: CompId, name: Name)
    requires Run(states, events) && k < |states|
    requires forall i :: 0 <= i < |events| && events[i].Binding? && events[i].c == c && events[i].req.name == Some(name)
                         ==> !events[i].req.ownName && !events[i].req.aciBind
    requires forall i :: 0 <= i < |events| && events[i].Opening? && events[i].c == c ==> events[i].host != name
    ensures c in states[k].comps ==> name !in states[k].comps[c].routes
  {
    HoldsIff(states, events, k, c, name);
  }
}
