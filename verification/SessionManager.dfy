/**
 sm/sess.c, sm/user.c and the presence half of sm/dispatch.c: the session manager
 with its two tables, proved against SmModel.
 */
module SessionManager {
  import opened Wrappers
  import opened SmModel
  import opened SmUsers
  import opened SmRuns
  import opened Users

  /** What one user does with presence from one of its sessions. */
  function FromOne(u: User, i: nat, from: Option<Jid>, to: Address, kind: Kind): Effect
    requires i < |u.sessions|
  {
    match to
    case Broadcast => Update(u, i, kind)
    case Unparsable => Effect(u, [])
    case To(jid) => Deliver(u, i, Signed(from, u.sessions[i].jid), jid, kind)
  }

  lemma FromSessionIs(s: State, id: SmId, from: Option<Jid>, to: Address, kind: Kind)
    requires Live(s, id)
    ensures var b := s.sessions[id].user;
            var e := FromOne(s.users[b], PositionOf(s, id), from, to, kind);
            FromSession(s, id, from, to, kind) == Result(s.(users := s.users[b := e.user]), e.out)
  {}

  function Freed(users: map<BareJid, User>, b: BareJid): map<BareJid, User>
    requires b in users
  {
    if users[b].sessions == [] then users - {b} else users
  }

  lemma EndIs(s: State, id: SmId)
    requires Live(s, id)
    ensures var b := s.sessions[id].user;
            var e := EndGuts(s.users[b], PositionOf(s, id));
            End(s, id) == Result(State(s.hosts, Freed(s.users[b := e.user], b), s.sessions - {id}), e.out)
  {
    var b := s.sessions[id].user;
    assert s.users[b := EndGuts(s.users[b], PositionOf(s, id)).user] - {b} == s.users - {b};
  }

  lemma PutTwice(m: map<BareJid, User>, b: BareJid, u: User, v: User)
    ensures m[b := u][b] == u && m[b := u][b := v] == m[b := v]
  {}

  lemma DispatchIs(s: State, to: Jid, from: Jid, kind: Kind, load: Option<seq<Jid>>)
    ensures var l := Load(s, to.user, load);
            SmModel.Dispatch(s, to, from, kind, load)
            == if !Passes(s, to, kind) then Result(s, [])
               else if l.None? then Result(s, if kind.Probe? then [Routed(from, to, Unsubscribed)] else [])
               else var e := PktUser(l.value, to, from, kind);
                    Result(s.(users := Freed(s.users[to.user := e.user], to.user)), e.out)
  {
    hide Passes, PktUser;
    var l := Load(s, to.user, load);
    if Passes(s, to, kind) && l.Some? {
      var e := PktUser(l.value, to, from, kind);
      assert s.users[to.user := e.user] - {to.user} == s.users - {to.user};
    }
  }

  lemma {:induction false} FirstIsFirst(sessions: seq<Session>, jid: Jid, n: nat)
    requires n < |sessions| && sessions[n].jid == jid && FirstWith(sessions[..n], jid).None?
    ensures FirstWith(sessions, jid) == Some(n)
    decreases |sessions|
  {
    var last := |sessions| - 1;
    if n < last {
      assert sessions[..last][..n] == sessions[..n];
      FirstIsFirst(sessions[..last], jid, n);
    }
  }

  function Prepended(users: map<BareJid, User>, b: BareJid, x: Session): map<BareJid, User>
    requires b in users
  {
    users[b := users[b].(sessions := [x] + users[b].sessions)]
  }

  /** The old session of the same address ends, if there is one. */
  function Replaced(s: State, b: BareJid, jid: Jid): Result
    requires b in s.users
  {
    var u := s.users[b];
    var m := FirstWith(u.sessions, jid);
    if m.None? then Result(s, [])
    else
      var e := EndGuts(u, m.value);
      Result(s.(users := s.users[b := e.user], sessions := s.sessions - {u.sessions[m.value].id}), e.out)
  }

  function Linked(s: State, b: BareJid, x: Session): State
    requires b in s.users
  {
    s.(users := Prepended(s.users, b, x), sessions := s.sessions[x.id := x.jid])
  }

  lemma StartIs(s: State, jid: Jid, time: int, load: Option<seq<Jid>>)
    ensures var b, l := jid.user, Load(s, jid.user, load);
            var x := Session(SmId(time, jid), jid, [], [], None, false, 0);
            Start(s, jid, time, load)
            == if b.domain !in s.hosts || l.None? then Result(s, [])
               else var r := Replaced(s.(users := s.users[b := l.value]), b, jid);
                    Result(Linked(r.state, b, x), r.out)
  {
    hide EndGuts, FirstWith;
    var b, l := jid.user, Load(s, jid.user, load);
    var x := Session(SmId(time, jid), jid, [], [], None, false, 0);
    if b.domain in s.hosts && l.Some? {
      var u := l.value;
      var s1 := s.(users := s.users[b := u]);
      var m := FirstWith(u.sessions, jid);
      var v := if m.None? then u else EndGuts(u, m.value).user;
      PutTwice(s.users, b, u, v);
      PutTwice(s.users, b, v, v.(sessions := [x] + v.sessions));
      PutTwice(s.users, b, u, v.(sessions := [x] + v.sessions));
      assert Replaced(s1, b, jid).state.users == s.users[b := v];
    }
  }

  lemma LoadedDistinct(s: State, b: BareJid, load: Option<seq<Jid>>)
    requires RegistryOk(s)
    ensures Load(s, b, load).Some? ==> Distinct(Load(s, b, load).value.sessions)
  {
    if b in s.users { assert SmRuns.Entered(s.users[b], b, s.sessions); }
  }

  lemma ViewsPrepended(x: SessionRecord, records: seq<SessionRecord>)
    ensures ViewsOf([x] + records) == [x.View()] + ViewsOf(records)
  {}

  /** At most one record has the address. */
  lemma AloneWith(records: seq<SessionRecord>, jid: Jid)
    requires Distinct(ViewsOf(records))
    ensures var m := FirstWith(ViewsOf(records), jid);
            && |ViewsOf(records)| == |records|
            && (m.None? ==> forall x :: x in records ==> x.jid != jid)
            && (m.Some? ==> m.value < |records| && ViewsOf(records)[m.value].id == records[m.value].id)
            && (m.Some? ==> forall x :: x in records[..m.value] + records[m.value + 1..] ==> x.jid != jid)
  {
    forall k | 0 <= k < |records| ensures ViewsOf(records)[k].jid == records[k].jid {}
  }

  class Manager {
    const hosts: set<string>
    const wire: Wire
    var users: map<BareJid, UserRecord>
    var sessions: map<SmId, SessionRecord>
    ghost var Repr: set<SessionRecord>

    constructor (hosts: set<string>)
      ensures Valid() && this.hosts == hosts && View() == State(hosts, map[], map[]) && wire.log == []
    {
      this.hosts := hosts;
      wire := new Wire();
      users, sessions, Repr := map[], map[], {};
    }

    ghost predicate Owns(b: BareJid, u: UserRecord)
      reads this, u
    {
      && u.jid == b && u.Valid()
      && forall x :: x in u.sessions ==> x in Repr && x.jid.user == b && x.id.jid == x.jid
    }

    /** Every record is found under its own key. */
    ghost predicate Valid()
      reads this, users.Values
    {
      && (forall b :: b in users ==> Owns(b, users[b]))
      && forall id :: id in sessions ==> sessions[id].id == id
    }

    lemma Facts(b: BareJid)
      requires Valid() && b in users
      ensures Owns(b, users[b]) && users[b].jid == b && users[b].Valid()
      ensures forall x :: x in users[b].sessions ==> x in Repr && x.jid.user == b && x.id.jid == x.jid
      ensures forall c :: c in users ==> users[c].jid == c
    {}

    lemma UserViewAt(b: BareJid)
      requires Valid() && b in users
      ensures b in UserViews() && UserViews()[b] == users[b].View()
    {}

    lemma OwnsIs(b: BareJid, u: UserRecord)
      requires u.jid == b && u.Valid()
      requires forall x :: x in u.sessions ==> x in Repr && x.jid.user == b && x.id.jid == x.jid
      ensures Owns(b, u)
    {}

    /** The two tables point to the same session records. */
    ghost predicate Shared()
      reads this, users.Values
    {
      forall b, x :: b in users && x in users[b].sessions ==> x.id in sessions && sessions[x.id] == x
    }

    ghost function UserViews(): map<BareJid, User>
      requires Valid()
      reads this, users.Values, Repr
    {
      map b | b in users :: users[b].View()
    }

    ghost function View(): State
      requires Valid()
      reads this, users.Values, Repr
    {
      State(hosts, UserViews(), map id | id in sessions :: sessions[id].jid)
    }

    /** The list position of a live session, which is what its pointer stands for. */
    ghost function Index(id: SmId): nat
      requires Valid() && Live(View(), id)
      reads this, users.Values, Repr
    {
      PositionOf(View(), id)
    }

    lemma PointerIsIndex(id: SmId)
      requires Valid() && Shared() && RegistryOk(View()) && Live(View(), id)
      ensures id in sessions && sessions[id].jid == id.jid && id.jid.user in users
      ensures View().sessions[id].user == id.jid.user
      ensures Index(id) < |users[id.jid.user].sessions|
      ensures users[id.jid.user].sessions[Index(id)] == sessions[id]
    {
      hide UserOk;
      assert View().sessions[id] == id.jid;
      var x := users[id.jid.user].sessions[Index(id)];
      assert View().users[id.jid.user].sessions[Index(id)] == x.View();
      assert x.id == id && x in users[id.jid.user].sessions;
    }

    /** Nobody but one user has been touched. */
    twostate predicate Apart(b: BareJid)
      reads this, users.Values, Repr
    {
      && (forall c :: c in old(users) && c != b ==> c in users && users[c] == old(users[c]) && unchanged(users[c]))
      && (forall c :: c in users && c != b ==> c in old(users))
      && (forall x :: x in old(Repr) && x.jid.user != b ==> x in Repr && unchanged(x))
    }

    twostate lemma ApartViews(b: BareJid)
      requires old(Valid()) && Apart(b) && b in users && Owns(b, users[b])
      requires forall id :: id in sessions ==> sessions[id].id == id
      ensures Valid() && UserViews() == old(UserViews())[b := users[b].View()]
    {
      hide UserRecord.View, ViewsOf;
      ApartRecords(b);
    }

    twostate lemma ApartRecords(b: BareJid)
      requires old(Valid()) && Apart(b)
      ensures forall c :: c in users && c != b ==> Owns(c, users[c]) && users[c].View() == old(users[c].View())
    {
      forall c | c in users && c != b ensures Owns(c, users[c]) && users[c].View() == old(users[c].View()) {
        assert old(Owns(c, users[c]));
        assert forall x :: x in users[c].sessions ==> unchanged(x);
        assert ViewsOf(users[c].sessions) == old(ViewsOf(users[c].sessions));
      }
    }

    /** The `from` is reset unless it is an address of the same user. */
    method PacketFrom(user: UserRecord, sess: SessionRecord, ghost i: nat, from: Option<Jid>, to: Address, kind: Kind)
      requires user.Valid() && i < |user.sessions| && user.sessions[i] == sess
      modifies user`top, user`available, user.sessions, wire
      ensures user.Valid() && user.View() == FromOne(old(user.View()), i, from, to, kind).user
      ensures wire.log == old(wire.log) + FromOne(old(user.View()), i, from, to, kind).out
    {
      hide Update, Deliver, ViewsOf;
      ViewAt(user.sessions, i);
      var signed := sess.jid;
      if from.Some? && from.value.user == sess.jid.user { signed := from.value; }
      match to {
        case Broadcast => user.PresUpdate(sess, i, kind, wire);
        case Unparsable =>
        case To(jid) => user.PresDeliver(sess, i, signed, jid, kind, wire);
      }
    }

    /** The same for a user and a session of the table. */
    method PacketOf(user: UserRecord, sess: SessionRecord, ghost i: nat, from: Option<Jid>, to: Address, kind: Kind)
      requires Valid() && Shared() && user.jid in users && users[user.jid] == user
      requires i < |user.sessions| && user.sessions[i] == sess
      modifies users.Values, Repr, wire
      ensures Valid() && Shared()
      ensures View() == old(View()).(users := old(UserViews())[user.jid := FromOne(old(user.View()), i, from, to, kind).user])
      ensures wire.log == old(wire.log) + FromOne(old(user.View()), i, from, to, kind).out
    {
      hide FromOne, ViewsOf;
      assert Owns(user.jid, user);
      PacketFrom(user, sess, i, from, to, kind);
      assert Apart(user.jid);
      ApartViews(user.jid);
    }

    /** Presence from a live session, `_presence_in_sess`. */
    method FromClient(id: SmId, from: Option<Jid>, to: Address, kind: Kind)
      requires Valid() && Shared() && RegistryOk(View()) && Live(View(), id)
      modifies users.Values, Repr, wire
      ensures Valid() && Shared() && RegistryOk(View())
      ensures View() == FromSession(old(View()), id, from, to, kind).state
      ensures wire.log == old(wire.log) + FromSession(old(View()), id, from, to, kind).out
    {
      hide RegistryOk, FromOne, ViewsOf, HasSession, FromSession, Shared;
      ghost var i := Index(id);
      PointerIsIndex(id);
      FromSessionKeepsRegistry(View(), id, from, to, kind);
      FromSessionIs(View(), id, from, to, kind);
      var sess := sessions[id];
      var user := users[sess.jid.user];
      UserViewAt(sess.jid.user);
      PacketOf(user, sess, i, from, to, kind);
    }

    /** `_sess_end_guts`: the last presence, and unlinking from the list and the global table. */
    method Unlist(user: UserRecord, sess: SessionRecord, ghost i: nat)
      requires Valid() && Shared() && user.jid in users && users[user.jid] == user
      requires i < |user.sessions| && user.sessions[i] == sess
      modifies this, users.Values, Repr, wire
      ensures Valid() && Shared() && users == old(users) && Repr == old(Repr)
      ensures user.sessions == old(user.sessions)[..i] + old(user.sessions)[i + 1..]
      ensures View() == old(View()).(users := old(UserViews())[user.jid := EndGuts(old(user.View()), i).user],
                                     sessions := old(View()).sessions - {sess.id})
      ensures wire.log == old(wire.log) + EndGuts(old(user.View()), i).out
    {
      hide EndGuts, ViewsOf, Owns, Valid, Shared, UserViews;
      Facts(user.jid);
      RestKeepsIds(user, i);
      user.EndSession(sess, i, wire);
      OwnsIs(user.jid, user);
      sessions := sessions - {sess.id};
      assert Apart(user.jid);
      StillShared(user.jid);
    }

    /** The sessions left in one user's list are those of before that are still in the table. */
    twostate lemma StillShared(b: BareJid)
      requires old(Valid()) && old(Shared()) && Apart(b) && b in users && Owns(b, users[b])
      requires forall id :: id in sessions ==> id in old(sessions) && sessions[id] == old(sessions)[id]
      requires forall id :: id in old(sessions) && old(sessions)[id].jid.user != b ==> id in sessions
      requires forall x :: x in users[b].sessions ==> x.id in sessions && sessions[x.id] == x
      ensures Valid() && UserViews() == old(UserViews())[b := users[b].View()] && Shared()
    {
      ApartViews(b);
      forall c, x | c in users && x in users[c].sessions ensures x.id in sessions && sessions[x.id] == x {
        if c != b {
          assert old(Owns(c, users[c]));
          assert c in old(users) && x in old(users[c].sessions);
        }
      }
    }

    lemma RestKeepsIds(user: UserRecord, i: nat)
      requires Valid() && Shared() && user.jid in users && users[user.jid] == user && i < |user.sessions|
      ensures forall x :: x in user.sessions[..i] + user.sessions[i + 1..] ==>
                x.id in sessions && sessions[x.id] == x && x.id != user.sessions[i].id
      ensures user.sessions[i].id in sessions && sessions[user.sessions[i].id] == user.sessions[i]
    {
      assert Owns(user.jid, user);
    }

    /** `user_free` for a user without sessions. */
    method FreeIfIdle(user: UserRecord)
      requires Valid() && Shared() && user.jid in users && users[user.jid] == user
      modifies this
      ensures Valid() && Shared()
      ensures View() == old(View()).(users := Freed(old(UserViews()), user.jid))
    {
      hide ViewsOf;
      ViewsLength(user.sessions);
      UserViewAt(user.jid);
      assert user.View().sessions == [] <==> user.sessions == [];
      hide UserRecord.View;
      if user.sessions == [] {
        users := users - {user.jid};
        assert UserViews() == old(UserViews()) - {user.jid};
      }
    }

    /** `sess_end` */
    method SessEnd(id: SmId)
      requires Valid() && Shared() && RegistryOk(View()) && Live(View(), id)
      modifies this, users.Values, Repr, wire
      ensures Valid() && Shared() && View() == End(old(View()), id).state && RegistryOk(View())
      ensures wire.log == old(wire.log) + End(old(View()), id).out
    {
      hide RegistryOk, EndGuts, ViewsOf, HasSession, End, Freed;
      ghost var i := Index(id);
      PointerIsIndex(id);
      EndKeepsRegistry(View(), id);
      EndIs(View(), id);
      var sess := sessions[id];
      var user := users[sess.jid.user];
      assert Owns(sess.jid.user, user);
      Unlist(user, sess, i);
      FreeIfIdle(user);
    }

    /** `user_load`; `load` is what the modules make of a user that is not loaded. */
    method UserLoad(jid: BareJid, load: Option<seq<Jid>>) returns (user: UserRecord?)
      requires Valid() && Shared()
      modifies this
      ensures Valid() && Shared() && sessions == old(sessions) && Repr == old(Repr)
      ensures user == null <==> Load(old(View()), jid, load).None?
      ensures user == null ==> users == old(users) && View() == old(View())
      ensures user != null ==> jid in users && users[jid] == user && user.jid == jid
      ensures user != null ==> users == old(users)[jid := user] && (fresh(user) || user in old(users.Values))
      ensures user != null ==> View() == old(View()).(users := old(UserViews())[jid := Load(old(View()), jid, load).value])
    {
      hide ViewsOf, Owns;
      if jid in users {
        Facts(jid);
        user := users[jid];
        assert user in users.Values;
        return;
      }
      if load == None { return null; }
      user := new UserRecord(jid, load.value);
      users := users[jid := user];
      OwnsIs(jid, user);
      assert Apart(jid);
      ApartViews(jid);
      assert Shared();
    }

    /** `dispatch` of a presence packet from the router. */
    method Dispatch(to: Jid, from: Jid, kind: Kind, load: Option<seq<Jid>>)
      requires Valid() && Shared()
      modifies this, users.Values, Repr, wire
      ensures Valid() && Shared() && View() == SmModel.Dispatch(old(View()), to, from, kind, load).state
      ensures wire.log == old(wire.log) + SmModel.Dispatch(old(View()), to, from, kind, load).out
    {
      hide ViewsOf, PktUser, SmModel.Dispatch, Passes, Load, Freed, UserViews, Valid, Shared;
      ghost var s := View();
      var passes := PassesUser(to, kind);
      if !passes {
        DispatchIs(s, to, from, kind, load);
        return;
      }
      var user := UserLoad(to.user, load);
      if user == null {
        DispatchIs(s, to, from, kind, load);
        if kind.Probe? {
          wire.Send(Routed(from, to, Unsubscribed));
        }
        return;
      }
      DeliverAndFree(user, to, from, kind);
      DispatchIs(s, to, from, kind, load);
      PutTwice(s.users, to.user, Load(s, to.user, load).value, PktUser(Load(s, to.user, load).value, to, from, kind).user);
    }

    /** The tail of `dispatch`: delivery, and freeing a user that was only loaded for it. */
    method DeliverAndFree(user: UserRecord, to: Jid, from: Jid, kind: Kind)
      requires Valid() && Shared() && user.jid in users && users[user.jid] == user
      modifies this, users.Values, Repr, wire
      ensures Valid() && Shared()
      ensures View() == old(View()).(users :=
                Freed(old(UserViews())[user.jid := PktUser(old(UserViews())[user.jid], to, from, kind).user], user.jid))
      ensures wire.log == old(wire.log) + PktUser(old(UserViews())[user.jid], to, from, kind).out
    {
      hide PktUser, ViewsOf, Freed;
      PacketFor(user, to, from, kind);
      FreeIfIdle(user);
    }

    /** `_presence_in_router`, without loading the user */
    method PassesUser(to: Jid, kind: Kind) returns (passes: bool)
      requires Valid()
      ensures passes == Passes(View(), to, kind)
    {
      if kind.Probe? { return true; }
      if to.user !in users { return false; }
      var user := users[to.user];
      ViewsLength(user.sessions);
      var n := 0;
      while n < |user.sessions|
        invariant 0 <= n <= |user.sessions|
        invariant forall k :: 0 <= k < n ==> !user.sessions[k].available
      {
        ViewAt(user.sessions, n);
        if user.sessions[n].available {
          assert View().users[to.user].sessions[n].available;
          return true;
        }
        n := n + 1;
      }
      passes := false;
    }

    method PacketFor(user: UserRecord, to: Jid, from: Jid, kind: Kind)
      requires Valid() && Shared() && user.jid in users && users[user.jid] == user
      modifies users.Values, Repr, wire
      ensures Valid() && Shared()
      ensures View() == old(View()).(users := old(UserViews())[user.jid := PktUser(old(user.View()), to, from, kind).user])
      ensures wire.log == old(wire.log) + PktUser(old(user.View()), to, from, kind).out
    {
      hide PktUser, ViewsOf;
      assert Owns(user.jid, user);
      user.PresPktUser(to, from, kind, wire);
      assert Apart(user.jid);
      ApartViews(user.jid);
    }

    /** The search of `sess_start` for a session to replace. */
    method FindJid(user: UserRecord, jid: Jid) returns (scan: SessionRecord?, ghost m: Option<nat>)
      ensures m == FirstWith(ViewsOf(user.sessions), jid)
      ensures scan == if m.None? then null else user.sessions[m.value]
    {
      ghost var views := ViewsOf(user.sessions);
      scan, m := null, None;
      var n := 0;
      while n < |user.sessions|
        invariant 0 <= n <= |user.sessions| && FirstWith(views[..n], jid).None?
      {
        assert views[..n + 1][..n] == views[..n];
        if user.sessions[n].jid == jid {
          scan, m := user.sessions[n], Some(n);
          FirstIsFirst(views, jid, n);
          return;
        }
        n := n + 1;
      }
      assert views[..n] == views;
    }

    /** Entering a new session in front of its user's list and in the global table. */
    method Link(user: UserRecord, sess: SessionRecord)
      requires Valid() && Shared() && user.jid in users && users[user.jid] == user
      requires sess !in Repr && sess.jid.user == user.jid && sess.id.jid == sess.jid
      requires forall x :: x in user.sessions ==> x.jid != sess.jid
      modifies this, user`sessions
      ensures Valid() && Shared() && user.sessions == [sess] + old(user.sessions)
      ensures sessions == old(sessions)[sess.id := sess]
      ensures View() == old(View()).(users := Prepended(old(UserViews()), user.jid, sess.View()),
                                     sessions := old(View()).sessions[sess.id := sess.jid])
    {
      hide Owns, ViewsOf, UserViews, Valid, Shared;
      ghost var u := user.View();
      UserViewAt(user.jid);
      Facts(user.jid);
      Unused(user, sess);
      user.sessions := [sess] + user.sessions;
      sessions := sessions[sess.id := sess];
      Repr := Repr + {sess};
      ViewsPrepended(sess, old(user.sessions));
      assert user.View() == u.(sessions := [sess.View()] + u.sessions);
      OwnsIs(user.jid, user);
      assert Apart(user.jid);
      LinkShares(user.jid);
    }

    /** A new session in front of one user's list, entered in the table under an unused id. */
    twostate lemma LinkShares(b: BareJid)
      requires old(Valid()) && old(Shared()) && Apart(b) && b in users && Owns(b, users[b])
      requires b in old(users) && users[b] == old(users[b]) && users[b].sessions != []
      requires users[b].sessions[1..] == old(users[b].sessions)
      requires sessions == old(sessions)[users[b].sessions[0].id := users[b].sessions[0]]
      requires forall c, x :: c in old(users) && x in old(users[c].sessions) ==> x.id != users[b].sessions[0].id
      ensures Valid() && UserViews() == old(UserViews())[b := users[b].View()] && Shared()
    {
      hide UserViews, ViewsOf;
      TableKeys(b);
      ApartViews(b);
      forall c, x | c in users && x in users[c].sessions ensures x.id in sessions && sessions[x.id] == x {
        if c != b {
          assert c in old(users) && users[c].sessions == old(users[c].sessions);
        } else if x != users[b].sessions[0] {
          assert x in users[b].sessions[1..];
        }
      }
    }

    twostate lemma TableKeys(b: BareJid)
      requires old(Valid()) && b in users && users[b].sessions != []
      requires sessions == old(sessions)[users[b].sessions[0].id := users[b].sessions[0]]
      ensures forall id :: id in sessions ==> sessions[id].id == id
    {}

    /** No listed session has the id of a session of this user with a new address. */
    lemma Unused(user: UserRecord, sess: SessionRecord)
      requires Valid() && user.jid in users && users[user.jid] == user
      requires sess.jid.user == user.jid && sess.id.jid == sess.jid
      requires forall x :: x in user.sessions ==> x.jid != sess.jid
      ensures forall b, x :: b in users && x in users[b].sessions ==> x.id != sess.id
    {
      forall b, x | b in users && x in users[b].sessions ensures x.id != sess.id {
        Facts(b);
      }
    }

    method ReplaceOld(user: UserRecord, jid: Jid)
      requires Valid() && Shared() && user.jid in users && users[user.jid] == user
      requires Distinct(UserViews()[user.jid].sessions)
      modifies this, users.Values, Repr, wire
      ensures Valid() && Shared() && users == old(users) && Repr == old(Repr)
      ensures View() == Replaced(old(View()), user.jid, jid).state
      ensures wire.log == old(wire.log) + Replaced(old(View()), user.jid, jid).out
      ensures forall x :: x in user.sessions ==> x.jid != jid
    {
      hide EndGuts, FirstWith, ViewsOf, Valid, Shared, Owns, UserViews, SmUsers.Distinct;
      UserViewAt(user.jid);
      var scan, m := FindJid(user, jid);
      AloneWith(user.sessions, jid);
      if scan != null {
        Unlist(user, scan, m.value);
      }
    }

    /** The second half of `sess_start`, for a loaded user. */
    method EnterSession(user: UserRecord, jid: Jid, time: int) returns (sess: SessionRecord)
      requires Valid() && Shared() && user.jid in users && users[user.jid] == user && user.jid == jid.user
      requires Distinct(UserViews()[user.jid].sessions)
      modifies this, users.Values, Repr, wire
      ensures Valid() && Shared() && fresh(sess) && sess.id == SmId(time, jid)
      ensures sess.id in sessions && sessions[sess.id] == sess
      ensures var x, r := Session(SmId(time, jid), jid, [], [], None, false, 0), Replaced(old(View()), jid.user, jid);
              View() == Linked(r.state, jid.user, x) && wire.log == old(wire.log) + r.out
    {
      hide Replaced, Prepended, Valid, Shared, ViewsOf, Owns, UserViews, SmUsers.Distinct;
      ReplaceOld(user, jid);
      sess := new SessionRecord(SmId(time, jid), jid);
      Link(user, sess);
    }

    /** `sess_start` */
    method SessStart(jid: Jid, time: int, load: Option<seq<Jid>>) returns (sess: SessionRecord?)
      requires Valid() && Shared() && RegistryOk(View())
      modifies this, users.Values, Repr, wire
      ensures Valid() && Shared() && View() == Start(old(View()), jid, time, load).state
      ensures sess == null <==> jid.user.domain !in hosts || Load(old(View()), jid.user, load).None?
      ensures sess != null ==> fresh(sess) && sess.id == SmId(time, jid) && sess.id in sessions && sessions[sess.id] == sess
      ensures wire.log == old(wire.log) + Start(old(View()), jid, time, load).out
    {
      hide ViewsOf, EndGuts, FirstWith, Start, Prepended, RegistryOk, Replaced, SmUsers.Distinct, Load, Linked;
      ghost var s := View();
      StartIs(s, jid, time, load);
      LoadedDistinct(s, jid.user, load);
      if jid.user.domain !in hosts { return null; }
      var user := UserLoad(jid.user, load);
      if user == null { return null; }
      sess := EnterSession(user, jid, time);
    }
  }
}
