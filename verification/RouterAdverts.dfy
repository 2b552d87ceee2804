/**
 The advertisement protocol: what each component was last told about each name,
 against which names are bound.
 */
module RouterAdverts {
  import opened Wrappers
  import opened RouterModel
  import opened RouterTables

  /** The last advert about n in a log of written packets: available, unavailable or none. */
  function LastAdvert(log: seq<Packet>, n: Name): Option<bool> {
    if log == [] then None
    else match log[|log| - 1]
      case Presence(from, unavail) =>
        if from == n then Some(!unavail) else LastAdvert(log[..|log| - 1], n)
      case Reply(_) => LastAdvert(log[..|log| - 1], n)
  }

  /** The component's last word about n, since it last began to hold names, was "available". */
  predicate Believes(v: CompView, n: Name) {
    v.mark <= |v.sent| && LastAdvert(v.sent[v.mark..], n) == Some(true)
  }

  /** A native component that holds names believes in exactly the names it does not hold. */
  ghost predicate Agrees(routes: Table, c: CompId, v: CompView) {
    && v.mark <= |v.sent|
    && (!v.legacy && v.routes != {} ==>
          forall n :: Believes(v, n) <==> n in OthersNames(routes, c))
  }

  ghost predicate Agreement(s: State) {
    forall c :: c in s.comps ==> Agrees(s.routes, c, s.comps[c])
  }

  lemma {:induction false} LastOfConcat(a: seq<Packet>, b: seq<Packet>, n: Name)
    ensures LastAdvert(a + b, n) == if LastAdvert(b, n).Some? then LastAdvert(b, n) else LastAdvert(a, n)
    decreases |b|
  {
    if b == [] {
      assert a + b == a;
    } else {
      assert (a + b)[..|a + b| - 1] == a + b[..|b| - 1];
      LastOfConcat(a, b[..|b| - 1], n);
    }
  }

  lemma {:induction false} LastOfRepeat(p: Packet, k: nat, n: Name)
    requires p.Presence?
    ensures LastAdvert(Repeat(p, k), n) == if k > 0 && p.from == n then Some(!p.unavail) else None
  {
    if k > 0 {
      LastOfRepeat(p, k - 1, n);
      LastOfConcat(Repeat(p, k - 1), [p], n);
      assert [p][..0] == [];
    }
  }

  lemma {:induction false} LastOfAdverts(order: seq<Name>, n: Name)
    ensures LastAdvert(Adverts(order), n) == if n in order then Some(true) else None
    decreases |order|
  {
    if order != [] {
      var front := order[..|order| - 1];
      assert Adverts(order)[..|order| - 1] == Adverts(front);
      assert order == front + [order[|order| - 1]];
      LastOfAdverts(front, n);
    }
  }

  lemma BelievesAfter(v: CompView, ps: seq<Packet>, n: Name)
    requires v.mark <= |v.sent|
    ensures Believes(v.(sent := v.sent + ps), n) ==
            if LastAdvert(ps, n).Some? then LastAdvert(ps, n).value else Believes(v, n)
  {
    assert (v.sent + ps)[v.mark..] == v.sent[v.mark..] + ps;
    LastOfConcat(v.sent[v.mark..], ps, n);
  }

  /** A broadcast tells each listening component one thing about one name. */
  lemma BelievesAfterBroadcast(s: State, p: Packet, src: CompId, x: CompId, n: Name)
    requires x in s.comps && s.comps[x].mark <= |s.comps[x].sent| && p.Presence?
    ensures Believes(Broadcast(s, p, src).comps[x], n) ==
            if x != src && !s.comps[x].legacy && Slots(s.routes, x) != {} && n == p.from then !p.unavail
            else Believes(s.comps[x], n)
  {
    if x != src && !s.comps[x].legacy {
      LastOfRepeat(p, |Slots(s.routes, x)|, n);
      BelievesAfter(s.comps[x], Repeat(p, |Slots(s.routes, x)|), n);
    }
  }

  lemma HoldersListen(s: State, x: CompId)
    requires TableOk(s) && x in s.comps && s.comps[x].routes != {}
    ensures Slots(s.routes, x) != {}
  {
    var m :| m in s.comps[x].routes;
    assert m in Held(s)[x];
    var i :| 0 <= i < |s.routes[m]| && s.routes[m][i] == x;
    assert (m, i) in Slots(s.routes, x);
  }

  /** A native component that keeps other names is not told that a name it shared stays bound. */
  lemma SelfDropAgreement(routes: Table, c: CompId, v: CompView, name: Name, ps: seq<Packet>)
    requires name in routes && Distinct(routes[name]) && c in routes[name]
    requires name in v.routes && Agrees(routes, c, v)
    requires forall n :: LastAdvert(ps, n).None?
    ensures Agrees(RemoveRoute(routes, name, c), c, v.(sent := v.sent + ps, routes := v.routes - {name})) <==>
            !(|routes[name]| > 1 && !v.legacy && v.routes != {name})
  {
    var v' := v.(sent := v.sent + ps, routes := v.routes - {name});
    var routes' := RemoveRoute(routes, name, c);
    RemoveRouteRemoves(routes, name, c);
    forall n ensures Believes(v', n) == Believes(v, n) {
      BelievesAfter(v, ps, n);
    }
    assert OthersNames(routes', c) ==
           if |routes[name]| > 1 then OthersNames(routes, c) + {name} else OthersNames(routes, c);
    if !v.legacy && v.routes != {name} {
      assert v'.routes != {} by {
        var m :| m in v.routes && m != name;
        assert m in v'.routes;
      }
      assert !Believes(v', name);
    }
  }

  lemma OthersDropAgreement(s: State, c: CompId, name: Name, d: State, t: State, x: CompId)
    requires TableOk(s) && c in s.comps && name in s.comps[c].routes
    requires x in s.comps && x != c && c in d.comps && Agrees(s.routes, x, s.comps[x])
    requires d.routes == RemoveRoute(s.routes, name, c) && x in d.comps && d.comps[x] == s.comps[x]
    requires TableOk(d) && t == Deadvertise(d, c, name)
    ensures Agrees(t.routes, x, t.comps[x])
  {
    assert name in Held(s)[c] && c in s.routes[name];
    RemoveRouteRemoves(s.routes, name, c);
    if !s.comps[x].legacy && s.comps[x].routes != {} {
      HoldersListen(d, x);
      forall n ensures Believes(t.comps[x], n) <==> n in OthersNames(t.routes, x) {
        if name !in d.routes {
          BelievesAfterBroadcast(d, Presence(name, true), c, x, n);
        }
      }
    }
  }

  /** What a bind does to a component other than the binder. */
  lemma OthersBindAgreement(s: State, c: CompId, name: Name, d: State, x: CompId)
    requires TableOk(d) && x in s.comps && x != c && Agrees(s.routes, x, s.comps[x])
    requires d.routes == AddRoute(s.routes, name, c) && x in d.comps && d.comps[x] == s.comps[x]
    ensures Agrees(d.routes, x, Broadcast(d, Presence(name, false), c).comps[x]) <==>
            !(!s.comps[x].legacy && s.comps[x].routes != {} && name in s.routes && x in s.routes[name])
  {
    var v' := Broadcast(d, Presence(name, false), c).comps[x];
    if !s.comps[x].legacy && s.comps[x].routes != {} {
      HoldersListen(d, x);
      forall n ensures Believes(v', n) == (n == name || n in OthersNames(s.routes, x)) {
        BelievesAfterBroadcast(d, Presence(name, false), c, x, n);
      }
      var before := if name in s.routes then s.routes[name] else [];
      assert d.routes[name] == before + [c];
      assert x in d.routes[name] <==> x in before;
      forall n ensures n in OthersNames(d.routes, x) <==>
                       if n == name then x !in before else n in OthersNames(s.routes, x) {}
      assert Believes(v', name);
      assert v'.mark <= |v'.sent| && v'.routes == s.comps[x].routes;
      if name in s.routes && x in s.routes[name] {
        assert name !in OthersNames(d.routes, x);
      }
    }
  }

  /** What a bind does to the binder itself: it is told of every name it does not hold. */
  lemma SelfBindAgreement(routes: Table, c: CompId, v: CompView, name: Name, order: seq<Name>, v': CompView)
    requires Agrees(routes, c, v) && name !in v.routes && (name in routes ==> c !in routes[name])
    requires WalkOrder(order, OthersNames(AddRoute(routes, name, c), c))
    requires v' == CompView(v.legacy, v.routes + {name}, v.sent + [Reply(0)] + Adverts(order),
                            if v.routes == {} then |v.sent| else v.mark)
    ensures Agrees(AddRoute(routes, name, c), c, v') <==>
            !(name in routes && !v.legacy && v.routes != {})
  {
    var routes' := AddRoute(routes, name, c);
    var news := [Reply(0)] + Adverts(order);
    var m := v.(mark := v'.mark);
    assert v'.sent == v.sent + news;
    assert v' == m.(sent := m.sent + news, routes := v'.routes);
    forall n ensures Believes(v', n) == (n in order || (v.routes != {} && Believes(v, n))) {
      LastOfConcat([Reply(0)], Adverts(order), n);
      LastOfAdverts(order, n);
      BelievesAfter(m, news, n);
      assert Believes(v', n) == Believes(m.(sent := m.sent + news), n);
    }
    assert c in routes'[name];
    assert OthersNames(routes', c) == OthersNames(routes, c) - {name};
    if name in routes && !v.legacy && v.routes != {} {
      assert Believes(v', name) && name !in OthersNames(routes', c);
    }
  }

  /**
   A name that gets a second holder is advertised to a component that holds it, or was already believed in by
   the new one.
   */
  ghost predicate JoinsNative(s: State, c: CompId, name: Name)
    requires c in s.comps
  {
    && name in s.routes
    && ((exists x :: x in s.routes[name] && x in s.comps && !s.comps[x].legacy)
        || (!s.comps[c].legacy && s.comps[c].routes != {}))
  }

  /** The state in which the new name is advertised. */
  function BeforeAdvert(s: State, c: CompId, req: BindRequest): State
    requires c in s.comps && Admit(s, req).Accepted?
  {
    var s1 := if ReachesDefault(s, req) then s.(defaultRoute := req.name) else s;
    var s2 := if req.log then s1.(logSinks := s1.logSinks[req.name.value := c]) else s1;
    Write(Enter(s2, c, req.name.value), c, [Reply(0)])
  }

  lemma BindParts(s: State, c: CompId, req: BindRequest, order: seq<Name>)
    requires c in s.comps && Admit(s, req).Accepted?
    ensures var t, d, v := Bind(s, c, req, order), BeforeAdvert(s, c, req), s.comps[c];
            && t.routes == d.routes == AddRoute(s.routes, req.name.value, c)
            && t.comps.Keys == s.comps.Keys == d.comps.Keys
            && (forall x :: x in s.comps && x != c ==>
                  d.comps[x] == s.comps[x]
                  && t.comps[x] == Broadcast(d, Presence(req.name.value, false), c).comps[x])
            && t.comps[c] == CompView(v.legacy, v.routes + {req.name.value}, v.sent + [Reply(0)] + Adverts(order),
                                      if v.routes == {} then |v.sent| else v.mark)
  {
    var d := BeforeAdvert(s, c, req);
    assert Bind(s, c, req, order) == Write(Broadcast(d, Presence(req.name.value, false), c), c, Adverts(order));
  }

  lemma BindHeld(s: State, c: CompId, req: BindRequest, order: seq<Name>)
    requires c in s.comps && Admit(s, req).Accepted?
    ensures Held(BeforeAdvert(s, c, req)) == Held(Bind(s, c, req, order))
  {
    var d, p := BeforeAdvert(s, c, req), Presence(req.name.value, false);
    HeldFrame(d, c, [], p);
    HeldFrame(Broadcast(d, p, c), c, Adverts(order), p);
  }

  /** A binder that knew the truth still knows it exactly when the name is new or its own first. */
  lemma BinderAgreesIff(s: State, c: CompId, req: BindRequest, order: seq<Name>)
    requires TableOk(s) && Possible(s, Binding(c, req, order)) && Agrees(s.routes, c, s.comps[c])
    requires Admit(s, req).Accepted? && req.name.value !in s.comps[c].routes
    ensures var t := Bind(s, c, req, order);
            c in t.comps && (Agrees(t.routes, c, t.comps[c]) <==> !(req.name.value in s.routes && s.comps[c].routes != {}))
  {
    hide Bind, BeforeAdvert, BroadcastIn, Believes, WalkOrder, Agrees;
    var name, t := req.name.value, Bind(s, c, req, order);
    assert name !in Held(s)[c] && (name in s.routes ==> c !in s.routes[name]);
    BindParts(s, c, req, order);
    SelfBindAgreement(s.routes, c, s.comps[c], name, order, t.comps[c]);
  }

  /** Binding keeps the agreement exactly when the name gets no such second holder. */
  lemma BindAgreement(s: State, c: CompId, req: BindRequest, order: seq<Name>)
    requires TableOk(s) && Agreement(s) && Possible(s, Binding(c, req, order))
    requires Admit(s, req).Accepted? && req.name.value !in s.comps[c].routes
    ensures Agreement(Bind(s, c, req, order)) <==> !JoinsNative(s, c, req.name.value)
  {
    hide Bind, BeforeAdvert, BroadcastIn, Believes, WalkOrder;
    var name, t, d := req.name.value, Bind(s, c, req, order), BeforeAdvert(s, c, req);
    assert name !in Held(s)[c] && (name in s.routes ==> c !in s.routes[name]);
    BindKeepsTable(s, c, req, order);
    BindParts(s, c, req, order);
    BindHeld(s, c, req, order);
    forall x | x in s.comps && x != c
      ensures Agrees(t.routes, x, t.comps[x]) <==>
              !(!s.comps[x].legacy && s.comps[x].routes != {} && name in s.routes && x in s.routes[name])
    {
      assert Agrees(s.routes, x, s.comps[x]);
      OthersBindAgreement(s, c, name, d, x);
    }
    assert Agrees(s.routes, c, s.comps[c]);
    SelfBindAgreement(s.routes, c, s.comps[c], name, order, t.comps[c]);
    if JoinsNative(s, c, name) {
      if s.comps[c].legacy || s.comps[c].routes == {} {
        var x :| x in s.routes[name] && x in s.comps && !s.comps[x].legacy;
        assert name in Held(s)[x];
        assert !Agrees(t.routes, x, t.comps[x]);
      }
    } else {
      forall x | x in t.comps ensures Agrees(t.routes, x, t.comps[x]) {}
    }
  }

  /** A native component gives up a name it shares and keeps another. */
  ghost predicate LeavesShared(s: State, c: CompId, name: Name)
    requires c in s.comps
  {
    name in s.routes && |s.routes[name]| > 1 && !s.comps[c].legacy && s.comps[c].routes != {name}
  }

  /** The state in which a name given up is taken back. */
  function BeforeDeadvert(s: State, c: CompId, name: Name): State
    requires c in s.comps
  {
    Write(Drop(s, c, name), c, [Reply(0)])
  }

  lemma UnbindParts(s: State, c: CompId, name: Name)
    requires TableOk(s) && c in s.comps && name in s.comps[c].routes
    ensures var t, d, v := Unbind(s, c, Some(name)), BeforeDeadvert(s, c, name), s.comps[c];
            && TableOk(d) && t == Deadvertise(d, c, name)
            && t.routes == d.routes == RemoveRoute(s.routes, name, c)
            && t.comps.Keys == s.comps.Keys == d.comps.Keys
            && (forall x :: x in s.comps && x != c ==> d.comps[x] == s.comps[x])
            && t.comps[c] == v.(sent := v.sent + [Reply(0)], routes := v.routes - {name})
  {
    DropKeepsTable(s, c, name);
    HeldFrame(Drop(s, c, name), c, [Reply(0)], Reply(0));
  }

  /**
   A component that leaves a name and knew the truth still knows it exactly when nobody else holds the name, or it
   keeps none.
   */
  lemma LeaverAgreesIff(s: State, c: CompId, name: Name)
    requires TableOk(s) && c in s.comps && name in s.comps[c].routes && Agrees(s.routes, c, s.comps[c])
    ensures var t := Unbind(s, c, Some(name));
            c in t.comps && (Agrees(t.routes, c, t.comps[c]) <==> !LeavesShared(s, c, name))
  {
    hide Unbind, BeforeDeadvert, Deadvertise, BroadcastIn, Agrees, RemoveRoute;
    UnbindParts(s, c, name);
    assert name in Held(s)[c] && c in s.routes[name];
    assert forall n :: LastAdvert([Reply(0)], n).None?;
    SelfDropAgreement(s.routes, c, s.comps[c], name, [Reply(0)]);
  }

  /** Everybody else who knew the truth still does. */
  lemma OthersAgreeAfterUnbind(s: State, c: CompId, name: Name, x: CompId)
    requires TableOk(s) && c in s.comps && name in s.comps[c].routes
    requires x in s.comps && x != c && Agrees(s.routes, x, s.comps[x])
    ensures var t := Unbind(s, c, Some(name)); x in t.comps && Agrees(t.routes, x, t.comps[x])
  {
    hide Unbind, BeforeDeadvert, Deadvertise, BroadcastIn, Agrees, RemoveRoute;
    UnbindParts(s, c, name);
    OthersDropAgreement(s, c, name, BeforeDeadvert(s, c, name), Unbind(s, c, Some(name)), x);
  }

  /** Unbinding keeps it exactly when a native component does not leave a name it shares while it keeps another. */
  lemma UnbindAgreement(s: State, c: CompId, name: Name)
    requires TableOk(s) && Agreement(s) && c in s.comps && name in s.comps[c].routes
    ensures Agreement(Unbind(s, c, Some(name))) <==> !LeavesShared(s, c, name)
  {
    hide Unbind, BroadcastIn, Agrees, RemoveRoute;
    var t := Unbind(s, c, Some(name));
    UnbindParts(s, c, name);
    forall x | x in s.comps && x != c ensures Agrees(t.routes, x, t.comps[x]) {
      OthersAgreeAfterUnbind(s, c, name, x);
    }
    LeaverAgreesIff(s, c, name);
  }

  /** Everybody but c is told the truth. */
  ghost predicate OthersAgree(s: State, c: CompId) {
    forall x :: x in s.comps && x != c ==> Agrees(s.routes, x, s.comps[x])
  }

  lemma {:induction false} DropAllAgreement(s: State, c: CompId, order: seq<Name>)
    requires TableOk(s) && OthersAgree(s, c)
    requires c in s.comps && WalkOrder(order, s.comps[c].routes)
    ensures OthersAgree(DropAll(s, c, order), c)
    decreases |order|
  {
    hide Agrees;
    if order != [] {
      var name, d := order[0], Drop(s, c, order[0]);
      assert name in order;
      var t := Deadvertise(d, c, name);
      DropKeepsTable(s, c, name);
      assert t.comps.Keys == s.comps.Keys;
      forall x | x in t.comps && x != c ensures Agrees(t.routes, x, t.comps[x]) {
        OthersDropAgreement(s, c, name, d, t, x);
      }
      WalkTail(order, s.comps[c].routes);
      DropAllAgreement(t, c, order[1..]);
    }
  }

  /** A close leaves everybody else with the truth, whatever names were shared. */
  lemma CloseAgreement(s: State, c: CompId, order: seq<Name>)
    requires TableOk(s) && Agreement(s) && c in s.comps && WalkOrder(order, s.comps[c].routes)
    ensures Agreement(Close(s, c, order))
  {
    hide Agrees;
    DropAllAgreement(s, c, order);
  }

  /** An event that does not cost any component the truth. */
  ghost predicate Truthful(s: State, e: Event)
    requires Possible(s, e)
  {
    match e
    case Opening(c, host, aliased) => !aliased ==> !JoinsNative(s, c, host)
    case Binding(c, req, _) => Admit(s, req).Accepted? ==> !JoinsNative(s, c, req.name.value)
    case Unbinding(c, name) => name.Some? && name.value in s.comps[c].routes ==> !LeavesShared(s, c, name.value)
    case _ => true
  }

  lemma RefusedBindAgreement(s: State, c: CompId, req: BindRequest, order: seq<Name>)
    requires Agreement(s) && c in s.comps && Admit(s, req).Refused?
    ensures Agreement(Bind(s, c, req, order))
  {
    ReplyAgreement(s, c, Admit(s, req).code);
    var s1 := if ReachesDefault(s, req) then s.(defaultRoute := req.name) else s;
    assert Bind(s, c, req, order).comps == Write(s, c, [Reply(Admit(s, req).code)]).comps;
  }

  lemma ReplyAgreement(s: State, c: CompId, code: nat)
    requires Agreement(s) && c in s.comps
    ensures Agreement(Write(s, c, [Reply(code)]))
  {
    var t := Write(s, c, [Reply(code)]);
    forall x | x in t.comps ensures Agrees(t.routes, x, t.comps[x]) {
      assert Agrees(s.routes, x, s.comps[x]);
      if x == c {
        forall n ensures Believes(t.comps[c], n) == Believes(s.comps[c], n) {
          BelievesAfter(s.comps[c], [Reply(code)], n);
        }
      }
    }
  }

  lemma AcceptAgreement(s: State, c: CompId)
    requires Agreement(s) && c !in s.comps
    ensures Agreement(Accept(s, c))
  {
    forall x | x in Accept(s, c).comps ensures Agrees(s.routes, x, Accept(s, c).comps[x]) {
      if x != c { assert Agrees(s.routes, x, s.comps[x]); }
    }
  }

  lemma HeadAgreement(s: State, c: CompId)
    requires Agreement(s) && c in s.comps && s.comps[c].routes == {}
    ensures Agreement(Head(s, c))
  {
    forall x | x in Head(s, c).comps ensures Agrees(s.routes, x, Head(s, c).comps[x]) {
      assert Agrees(s.routes, x, s.comps[x]);
    }
  }

  /** A legacy component that opens is told nothing, and costs only the native holders of its name the truth. */
  lemma OpenAgreement(s: State, c: CompId, name: Name)
    requires TableOk(s) && Agreement(s) && c in s.comps && s.comps[c].legacy && s.comps[c].routes == {}
    ensures Agreement(Open(s, c, name, false)) <==> !JoinsNative(s, c, name)
  {
    hide BroadcastIn, Believes;
    var d, t := Enter(s, c, name), Open(s, c, name, false);
    EnterKeepsTable(s, c, name);
    OpenParts(s, c, name);
    forall x | x in s.comps && x != c
      ensures Agrees(t.routes, x, t.comps[x]) <==>
              !(!s.comps[x].legacy && s.comps[x].routes != {} && name in s.routes && x in s.routes[name])
    {
      assert Agrees(s.routes, x, s.comps[x]);
      OthersBindAgreement(s, c, name, d, x);
    }
    if JoinsNative(s, c, name) {
      var x :| x in s.routes[name] && x in s.comps && !s.comps[x].legacy;
      assert name in Held(s)[x];
      assert !Agrees(t.routes, x, t.comps[x]);
    }
  }

  lemma OpenParts(s: State, c: CompId, name: Name)
    requires c in s.comps && s.comps[c].routes == {}
    ensures var t, d, v := Open(s, c, name, false), Enter(s, c, name), s.comps[c];
            && t.routes == d.routes == AddRoute(s.routes, name, c)
            && t.comps.Keys == s.comps.Keys == d.comps.Keys
            && (forall x :: x in s.comps && x != c ==>
                  d.comps[x] == s.comps[x] && t.comps[x] == Broadcast(d, Presence(name, false), c).comps[x])
            && t.comps[c] == v.(routes := {name}, mark := |v.sent|)
  {}

  /** An event other than a repeated bind keeps the agreement exactly when it is truthful. */
  lemma StepAgreementIff(s: State, e: Event)
    requires TableOk(s) && Agreement(s) && Possible(s, e) && NoRebind(s, e)
    ensures Agreement(Step(s, e)) <==> Truthful(s, e)
  {
    hide Agreement, Head, Bind, Unbind, Close, JoinsNative, BroadcastIn, Believes, WalkOrder, DropAll;
    match e
    case Accepting(c) => AcceptAgreement(s, c);
    case Heading(c) => HeadAgreement(s, c);
    case Opening(c, host, aliased) => if !aliased { OpenAgreement(s, c, host); }
    case Binding(c, req, order) =>
      if Admit(s, req).Accepted? {
        BindAgreement(s, c, req, order);
      } else {
        RefusedBindAgreement(s, c, req, order);
      }
    case Unbinding(c, name) =>
      if name.Some? && name.value in s.comps[c].routes {
        UnbindAgreement(s, c, name.value);
      } else {
        UnheldUnbind(s, c, name);
        ReplyAgreement(s, c, if name.None? then 400 else 404);
      }
    case Closing(c, order) => CloseAgreement(s, c, order);
  }

  lemma UnheldUnbind(s: State, c: CompId, name: Option<Name>)
    requires c in s.comps && (name.Some? ==> name.value !in s.comps[c].routes)
    ensures Unbind(s, c, name) == Write(s, c, [Reply(if name.None? then 400 else 404)])
  {}

  ghost predicate RouterOk(s: State) {
    TableOk(s) && SinksOk(s) && Agreement(s)
  }

  /**
   In a run without repeated binds, tables and adverts agree at every moment as long as, and only as long as,
   all events are truthful.
   */
  lemma {:induction false} RunKeepsRouterOk(states: seq<State>, events: seq<Event>, k: nat)
    requires Run(states, events) && k < |states|
    requires forall i :: 0 <= i < |events| ==> NoRebind(states[i], events[i])
    ensures (forall i :: 0 <= i <= k ==> RouterOk(states[i])) <==>
      (forall i :: 0 <= i < k ==> Truthful(states[i], events[i]))
  {
    hide Truthful, Agreement, Step;
    RunKeepsTable(states, events, k);
    InitialAgrees();
    if k > 0 {
      RunKeepsRouterOk(states, events, k - 1);
      if RouterOk(states[k - 1]) { StepAgreementIff(states[k - 1], events[k - 1]); }
    }
  }

  lemma InitialAgrees()
    ensures Agreement(Initial)
  {}

  /** Shared names only cost the adverts: without repeated binds the two indexes stay inverse in every run. */
  lemma {:induction false} RunKeepsTable(states: seq<State>, events: seq<Event>, k: nat)
    requires Run(states, events) && k < |states|
    requires forall i :: 0 <= i < |events| ==> NoRebind(states[i], events[i])
    ensures TableOk(states[k]) && SinksOk(states[k])
  {
    if k > 0 {
      RunKeepsTable(states, events, k - 1);
      StepKeepsTable(states[k - 1], events[k - 1]);
      StepKeepsSinks(states[k - 1], events[k - 1]);
    }
  }

  /** After its close no table mentions the component any more. */
  lemma CloseForgets(s: State, c: CompId, order: seq<Name>)
    requires TableOk(s) && SinksOk(s) && c in s.comps && WalkOrder(order, s.comps[c].routes)
    ensures var t := Close(s, c, order);
            && c !in t.comps
            && (forall n :: n in t.routes ==> c !in t.routes[n])
            && (forall n :: n in t.logSinks ==> t.logSinks[n] != c)
  {
    CloseKeepsTable(s, c, order);
    CloseKeepsSinks(s, c, order);
    var t := Close(s, c, order);
    forall n | n in t.routes ensures c !in t.routes[n] {
      assert c !in Held(t);
    }
  }

  /** The names a component believes in are exactly those that others hold and it does not. */
  lemma ToldTheTruth(s: State, c: CompId, n: Name)
    requires RouterOk(s) && c in s.comps && !s.comps[c].legacy && s.comps[c].routes != {}
    ensures Believes(s.comps[c], n) <==>
            n !in s.comps[c].routes && exists x :: x in s.comps && x != c && n in s.comps[x].routes
  {
    hide Believes;
    assert Agrees(s.routes, c, s.comps[c]);
    assert n in Held(s)[c] <==> n in s.comps[c].routes;
    if n in s.routes && c !in s.routes[n] {
      var x := s.routes[n][0];
      assert x in s.routes[n] && n in Held(s)[x];
    }
    if x :| x in s.comps && x != c && n in s.comps[x].routes {
      assert n in Held(s)[x] && x in s.routes[n];
    }
  }

  // ----- names with one holder

  ghost predicate Single(routes: Table) {
    forall n :: n in routes ==> |routes[n]| == 1
  }

  /** Only what nobody holds is bound. */
  ghost predicate Exclusive(s: State, e: Event) {
    && (e.Binding? && Admit(s, e.req).Accepted? ==> e.req.name.value !in s.routes)
    && (e.Opening? && !e.aliased ==> e.host !in s.routes)
  }

  lemma {:induction false} DropAllKeepsSingle(s: State, c: CompId, order: seq<Name>)
    requires Single(s.routes) && c in s.comps
    ensures Single(DropAll(s, c, order).routes)
    decreases |order|
  {
    if order != [] {
      DropAllKeepsSingle(Deadvertise(Drop(s, c, order[0]), c, order[0]), c, order[1..]);
    }
  }

  lemma StepKeepsSingle(s: State, e: Event)
    requires TableOk(s) && Single(s.routes) && Possible(s, e) && Exclusive(s, e)
    ensures Single(Step(s, e).routes) && NoRebind(s, e) && Truthful(s, e)
  {
    match e
    case Accepting(_) =>
    case Heading(_) =>
    case Opening(_, _, _) =>
    case Binding(c, req, order) =>
      if Admit(s, req).Accepted? {
        BoundState(s, c, req, order);
        assert forall m :: m in Held(s)[c] ==> m in s.routes;
      }
    case Unbinding(_, _) =>
    case Closing(c, order) => DropAllKeepsSingle(s, c, order);
  }

  /** In every run in which no name gets a second holder, tables and adverts agree at every moment. */
  lemma {:induction false} SingleHoldersAgree(states: seq<State>, events: seq<Event>, k: nat)
    requires Run(states, events) && k < |states|
    requires forall i :: 0 <= i < |events| ==> Exclusive(states[i], events[i])
    ensures RouterOk(states[k]) && Single(states[k].routes)
  {
    hide Agreement, Truthful;
    InitialAgrees();
    if k > 0 {
      var s, e := states[k - 1], events[k - 1];
      SingleHoldersAgree(states, events, k - 1);
      StepKeepsSingle(s, e);
      StepKeepsTable(s, e);
      StepKeepsSinks(s, e);
      StepAgreementIff(s, e);
    }
  }
}
