/**
 The session manager over whole runs: the global session map against the users'
 session lists, and no stale presence at any contact.
 */
module SmRuns {
  import opened Wrappers
  import opened SmModel
  import opened SmUsers
  import opened SmPresence

  /** A user as the registry sees it: every session is entered in the global map. */
  ghost predicate Entered(u: User, b: BareJid, ids: map<SmId, Jid>) {
    && u.jid == b && UserOk(u)
    && forall k :: 0 <= k < |u.sessions| ==> u.sessions[k].id in ids && ids[u.sessions[k].id] == u.sessions[k].jid
  }

  ghost predicate AllEntered(s: State) {
    forall b :: b in s.users ==> Entered(s.users[b], b, s.sessions)
  }

  ghost predicate AllLive(s: State) {
    forall id :: id in s.sessions ==> id.jid == s.sessions[id] && Live(s, id)
  }

  /** The global map is the union of the users' lists, and every loaded user has a session. */
  ghost predicate RegistryOk(s: State) {
    && AllEntered(s) && AllLive(s)
    && forall b :: b in s.users ==> s.users[b].sessions != []
  }

  /** Everything about a user but the state of its sessions. */
  ghost predicate SameShape(u: User, v: User) {
    && v.jid == u.jid && v.roster == u.roster && |v.sessions| == |u.sessions|
    && forall k :: 0 <= k < |u.sessions| ==>
         v.sessions[k].id == u.sessions[k].id && v.sessions[k].jid == u.sessions[k].jid
  }

  lemma SameShapeHas(u: User, v: User, id: SmId)
    requires SameShape(u, v)
    ensures HasSession(u, id) <==> HasSession(v, id)
  {
    if k :| 0 <= k < |u.sessions| && u.sessions[k].id == id { assert v.sessions[k].id == id; }
    if k :| 0 <= k < |v.sessions| && v.sessions[k].id == id { assert u.sessions[k].id == id; }
  }

  lemma InKeepsShape(u: User, from: Jid, to: Jid, kind: Kind)
    ensures SameShape(u, In(u, from, to, kind).user)
  {}

  lemma UpdateKeepsShape(u: User, i: nat, kind: Kind)
    requires i < |u.sessions|
    ensures SameShape(u, Update(u, i, kind).user) && SameShape(u, GoUnavailable(u, i).user)
  {
    InKeepsShape(u, u.sessions[i].jid, Bare(u.sessions[i].jid), Probe);
  }

  lemma DeliverKeepsShape(u: User, i: nat, from: Jid, to: Jid, kind: Kind)
    requires i < |u.sessions|
    ensures SameShape(u, Deliver(u, i, from, to, kind).user)
  {
    InKeepsShape(u, u.sessions[i].jid, to, kind);
  }

  lemma PktUserKeepsShape(u: User, to: Jid, from: Jid, kind: Kind)
    ensures SameShape(u, PktUser(u, to, from, kind).user)
  {
    var m := Match(u.sessions, to.resource);
    var u1 := if kind.Bounced? && m.Some? then Bounce(u, m.value, from) else u;
    assert SameShape(u, u1) && SameShape(u1, In(u1, from, to, kind).user);
  }

  lemma ReplaceUser(s: State, b: BareJid, v: User)
    requires RegistryOk(s) && b in s.users && SameShape(s.users[b], v) && UserOk(v)
    ensures RegistryOk(s.(users := s.users[b := v]))
  {
    hide UserOk, HasSession;
    var s' := s.(users := s.users[b := v]);
    assert Entered(s.users[b], b, s.sessions);
    forall id | id in s'.sessions ensures Live(s', id) {
      assert Live(s, id);
      SameShapeHas(s.users[b], v, id);
    }
  }

  // ----- a session that ends

  /** What is left of the list after session i has ended, by position. */
  lemma Survivors(u: User, i: nat)
    requires i < |u.sessions|
    ensures var v := EndGuts(u, i).user;
            && |v.sessions| == |u.sessions| - 1 && v.jid == u.jid
            && forall k :: 0 <= k < |v.sessions| ==>
                 var k' := if k < i then k else k + 1;
                 v.sessions[k].id == u.sessions[k'].id && v.sessions[k].jid == u.sessions[k'].jid
  {
    hide TopOf, AnyAvailable;
    UpdateKeepsShape(u, i, Unavailable);
    var m := if u.sessions[i].available || u.sessions[i].A != [] then GoUnavailable(u, i).user else u;
    assert EndGuts(u, i).user.sessions == Unlink(m.sessions, i);
  }

  lemma IdsDiffer(u: User, i: nat, k: nat)
    requires UserOk(u) && i < |u.sessions| && k < |u.sessions| && i != k
    ensures u.sessions[i].id != u.sessions[k].id
  {
    assert SessionOk(u, u.sessions[i]) && SessionOk(u, u.sessions[k]);
  }

  lemma EndGutsHas(u: User, i: nat, id: SmId)
    requires UserOk(u) && i < |u.sessions|
    ensures HasSession(EndGuts(u, i).user, id) <==> HasSession(u, id) && id != u.sessions[i].id
  {
    hide EndGuts, UserOk;
    Survivors(u, i);
    var v := EndGuts(u, i).user;
    if HasSession(u, id) && id != u.sessions[i].id {
      var k :| 0 <= k < |u.sessions| && u.sessions[k].id == id;
      assert v.sessions[if k < i then k else k - 1].id == id;
    }
    if HasSession(v, id) {
      var k :| 0 <= k < |v.sessions| && v.sessions[k].id == id;
      var k' := if k < i then k else k + 1;
      IdsDiffer(u, i, k');
      assert u.sessions[k'].id == id;
    }
  }

  lemma EndGutsEntered(u: User, b: BareJid, i: nat, ids: map<SmId, Jid>)
    requires Entered(u, b, ids) && i < |u.sessions|
    ensures Entered(EndGuts(u, i).user, b, ids - {u.sessions[i].id})
    ensures forall id :: HasSession(EndGuts(u, i).user, id) <==> HasSession(u, id) && id != u.sessions[i].id
  {
    EndGutsKeeps(u, i);
    Survivors(u, i);
    hide EndGuts, TopOf, AnyAvailable;
    var v := EndGuts(u, i).user;
    forall id ensures HasSession(v, id) <==> HasSession(u, id) && id != u.sessions[i].id {
      EndGutsHas(u, i, id);
    }
    hide UserOk;
    forall k | 0 <= k < |v.sessions| ensures v.sessions[k].id != u.sessions[i].id {
      assert HasSession(v, v.sessions[k].id);
    }
  }

  lemma IdsName(u: User, b: BareJid, ids: map<SmId, Jid>)
    requires Entered(u, b, ids)
    ensures forall k :: 0 <= k < |u.sessions| ==> u.sessions[k].id.jid.user == b
  {
    assert forall k :: 0 <= k < |u.sessions| ==> SessionOk(u, u.sessions[k]);
  }

  /** The other users do not notice. */
  lemma UnlinkRegistered(s: State, b: BareJid, i: nat, t: State)
    requires AllEntered(s) && AllLive(s) && b in s.users && i < |s.users[b].sessions|
    requires t == s.(users := s.users[b := EndGuts(s.users[b], i).user],
                     sessions := s.sessions - {s.users[b].sessions[i].id})
    ensures AllEntered(t) && AllLive(t)
  {
    hide UserOk, HasSession, EndGuts;
    var u := s.users[b];
    EndGutsEntered(u, b, i, s.sessions);
    IdsName(u, b, s.sessions);
    forall c | c in t.users && c != b ensures Entered(t.users[c], c, t.sessions) {
      IdsName(s.users[c], c, s.sessions);
    }
    forall id | id in t.sessions ensures Live(t, id) {
      assert Live(s, id);
    }
  }

  lemma FreeUser(t: State, b: BareJid)
    requires AllEntered(t) && AllLive(t) && b in t.users && t.users[b].sessions == []
    requires forall c :: c in t.users && c != b ==> t.users[c].sessions != []
    ensures RegistryOk(t.(users := t.users - {b}))
  {
    hide UserOk;
    var r := t.(users := t.users - {b});
    forall id | id in r.sessions ensures Live(r, id) {
      assert Live(t, id);
    }
  }

  lemma EndKeepsRegistry(s: State, id: SmId)
    requires RegistryOk(s) && Live(s, id)
    ensures RegistryOk(End(s, id).state)
  {
    hide UserOk, HasSession, EndGuts;
    var b := s.sessions[id].user;
    var i := PositionOf(s, id);
    var t := s.(users := s.users[b := EndGuts(s.users[b], i).user], sessions := s.sessions - {id});
    UnlinkRegistered(s, b, i, t);
    if t.users[b].sessions == [] {
      FreeUser(t, b);
      assert t.users - {b} == s.users - {b};
    }
  }

  // ----- a session that starts

  lemma PrependEntered(u: User, b: BareJid, x: Session, ids: map<SmId, Jid>)
    requires Entered(u, b, ids)
    requires x == Session(x.id, x.id.jid, [], [], None, false, 0) && x.jid.user == b
    requires forall k :: 0 <= k < |u.sessions| ==> u.sessions[k].jid != x.jid
    ensures Entered(u.(sessions := [x] + u.sessions), b, ids[x.id := x.jid])
    ensures forall id :: HasSession(u.(sessions := [x] + u.sessions), id) <==> HasSession(u, id) || id == x.id
  {
    hide TopOf, AnyAvailable;
    var v := u.(sessions := [x] + u.sessions);
    PrependTop(x, u.sessions);
    forall k | 0 <= k < |v.sessions| ensures SessionOk(v, v.sessions[k]) {
      if k > 0 { assert SessionOk(u, u.sessions[k - 1]); }
    }
    forall k | 0 < k < |v.sessions| ensures v.sessions[k].id != x.id {
      assert SessionOk(u, u.sessions[k - 1]);
    }
    forall id | HasSession(u, id) || id == x.id ensures HasSession(v, id) {
      if id == x.id {
        assert v.sessions[0].id == id;
      } else {
        var k :| 0 <= k < |u.sessions| && u.sessions[k].id == id;
        assert v.sessions[k + 1].id == id;
      }
    }
    forall id | HasSession(v, id) && id != x.id ensures HasSession(u, id) {
      var k :| 0 <= k < |v.sessions| && v.sessions[k].id == id;
      assert u.sessions[k - 1].id == id;
    }
  }

  lemma AddSession(t: State, b: BareJid, x: Session)
    requires AllEntered(t) && AllLive(t) && b in t.users
    requires forall c :: c in t.users && c != b ==> t.users[c].sessions != []
    requires x == Session(x.id, x.id.jid, [], [], None, false, 0) && x.jid.user == b
    requires forall k :: 0 <= k < |t.users[b].sessions| ==> t.users[b].sessions[k].jid != x.jid
    ensures RegistryOk(t.(users := t.users[b := t.users[b].(sessions := [x] + t.users[b].sessions)],
                          sessions := t.sessions[x.id := x.jid]))
  {
    hide UserOk, HasSession;
    var u := t.users[b];
    var r := t.(users := t.users[b := u.(sessions := [x] + u.sessions)], sessions := t.sessions[x.id := x.jid]);
    PrependEntered(u, b, x, t.sessions);
    forall c | c in r.users && c != b ensures Entered(r.users[c], c, r.sessions) {
      IdsName(t.users[c], c, t.sessions);
    }
    forall id | id in r.sessions ensures id.jid == r.sessions[id] && Live(r, id) {
      if id != x.id { assert Live(t, id); }
    }
  }

  lemma FreshUserRegistered(s: State, b: BareJid, roster: seq<Jid>)
    requires RegistryOk(s) && b !in s.users
    ensures AllEntered(s.(users := s.users[b := NewUser(b, roster)]))
    ensures AllLive(s.(users := s.users[b := NewUser(b, roster)]))
  {
    hide UserOk;
    var t := s.(users := s.users[b := NewUser(b, roster)]);
    NewUserOk(b, roster);
    forall id | id in t.sessions ensures Live(t, id) {
      assert Live(s, id);
    }
  }

  lemma NewUserOk(b: BareJid, roster: seq<Jid>)
    ensures UserOk(NewUser(b, roster))
  {}

  lemma StartKeepsRegistry(s: State, jid: Jid, time: int, load: Option<seq<Jid>>)
    requires RegistryOk(s)
    ensures RegistryOk(Start(s, jid, time, load).state)
  {
    hide UserOk, HasSession, EndGuts, FirstWith;
    var b, l, id := jid.user, Load(s, jid.user, load), SmId(time, jid);
    if jid.user.domain in s.hosts && l.Some? {
      var u := l.value;
      var x := Session(id, jid, [], [], None, false, 0);
      var m := FirstWith(u.sessions, jid);
      if b !in s.users {
        FreshUserRegistered(s, b, load.value);
        AddSession(s.(users := s.users[b := u]), b, x);
        assert s.users[b := u][b := u.(sessions := [x] + u.sessions)] == s.users[b := u.(sessions := [x] + u.sessions)];
      } else if m.None? {
        AddSession(s, b, x);
      } else {
        var v := EndGuts(u, m.value).user;
        var t := s.(users := s.users[b := v], sessions := s.sessions - {u.sessions[m.value].id});
        UnlinkRegistered(s, b, m.value, t);
        OneWithJid(u, b, m.value, jid, s.sessions);
        AddSession(t, b, x);
        assert t.users[b := v.(sessions := [x] + v.sessions)] == s.users[b := v.(sessions := [x] + v.sessions)];
      }
    }
  }

  lemma OneWithJid(u: User, b: BareJid, i: nat, jid: Jid, ids: map<SmId, Jid>)
    requires Entered(u, b, ids) && i < |u.sessions| && u.sessions[i].jid == jid
    ensures forall k :: 0 <= k < |EndGuts(u, i).user.sessions| ==> EndGuts(u, i).user.sessions[k].jid != jid
  {
    Survivors(u, i);
  }

  // ----- packets

  lemma FromSessionKeepsRegistry(s: State, id: SmId, from: Option<Jid>, to: Address, kind: Kind)
    requires RegistryOk(s) && Live(s, id)
    ensures RegistryOk(FromSession(s, id, from, to, kind).state)
  {
    hide UserOk, Update, Deliver;
    var b := s.sessions[id].user;
    var i := PositionOf(s, id);
    match to {
      case Broadcast =>
        UpdateKeepsShape(s.users[b], i, kind);
        UpdateKeeps(s.users[b], i, kind);
        ReplaceUser(s, b, Update(s.users[b], i, kind).user);
      case Unparsable =>
        assert s.users[b := s.users[b]] == s.users;
      case To(jid) =>
        var signed := Signed(from, s.users[b].sessions[i].jid);
        DeliverKeepsShape(s.users[b], i, signed, jid, kind);
        DeliverKeeps(s.users[b], i, signed, jid, kind);
        ReplaceUser(s, b, Deliver(s.users[b], i, signed, jid, kind).user);
    }
  }

  lemma DispatchKeepsRegistry(s: State, to: Jid, from: Jid, kind: Kind, load: Option<seq<Jid>>)
    requires RegistryOk(s)
    ensures RegistryOk(Dispatch(s, to, from, kind, load).state)
  {
    hide UserOk, PktUser;
    var l := Load(s, to.user, load);
    if Passes(s, to, kind) && l.Some? {
      var e := PktUser(l.value, to, from, kind);
      PktUserKeepsShape(l.value, to, from, kind);
      if to.user in s.users {
        PktUserKeeps(l.value, to, from, kind);
        ReplaceUser(s, to.user, e.user);
      } else {
        assert e.user.sessions == [];
        assert s.users - {to.user} == s.users;
      }
    }
  }

  /** Every event keeps the registry and the caches, with any outcome of loading a user. */
  lemma StepKeepsRegistry(s: State, e: Event)
    requires RegistryOk(s) && Possible(s, e)
    ensures RegistryOk(Step(s, e).state)
  {
    match e
    case Starting(jid, time, load) => StartKeepsRegistry(s, jid, time, load);
    case Ending(id) => EndKeepsRegistry(s, id);
    case Sending(id, from, to, kind) => FromSessionKeepsRegistry(s, id, from, to, kind);
    case Receiving(dest, from, kind, load) => DispatchKeepsRegistry(s, dest, from, kind, load);
  }

  /** No two live sessions have the same full address, and no two the same id. */
  lemma SessionsAreUnique(s: State, b: BareJid, i: nat, c: BareJid, k: nat)
    requires RegistryOk(s) && b in s.users && c in s.users
    requires i < |s.users[b].sessions| && k < |s.users[c].sessions|
    requires s.users[b].sessions[i].jid == s.users[c].sessions[k].jid
          || s.users[b].sessions[i].id == s.users[c].sessions[k].id
    ensures b == c && i == k
  {
    assert SessionOk(s.users[b], s.users[b].sessions[i]) && SessionOk(s.users[c], s.users[c].sessions[k]);
  }
}
