/**
 No stale presence over whole runs of the session manager: everyone who may still
 believe a session available is told when it stops being so.
 */
module SmStale {
  import opened Wrappers
  import opened SmModel
  import opened SmUsers
  import opened SmPresence
  import opened SmRuns

  // ----- a user's packets say nothing about the sessions of others

  lemma UpdateForeign(u: User, i: nat, kind: Kind, me: Jid, t: Jid)
    requires UserOk(u) && i < |u.sessions| && me.user != u.jid
    ensures LastWord(Update(u, i, kind).out, me, t).None? && LastWord(GoUnavailable(u, i).out, me, t).None?
  {
    var s := u.sessions[i];
    assert SessionOk(u, s);
    var a, b := RosterUnavailable(s, u.roster), DirectedUnavailable(u, s, s.A);
    LastOfRosterUnavailable(s, u.roster, me, t);
    LastOfDirected(u, s, s.A, me, t);
    LastOfConcat(a, b, me, t);
    LastOfSiblings(u, |u.sessions|, i, Unavailable, me, t);
    LastOfConcat(a + b, Siblings(u.sessions, |u.sessions|, i, Unavailable), me, t);
    match kind
    case Available(content) =>
      var c, d := RosterAvailable(s, u.roster, content), SelfProbe(u, s);
      LastOfRosterAvailable(s, u.roster, content, me, t);
      LastOfConcat(c, d, me, t);
      LastOfOne(Routed(Bare(s.jid), Bare(s.jid), Probe), me, t);
      LastOfSiblings(u, |u.sessions|, i, kind, me, t);
      LastOfConcat(c + d, Siblings(u.sessions, |u.sessions|, i, kind), me, t);
    case Probe => InForeign(u, s.jid, Bare(s.jid), Probe, me, t);
    case _ =>
  }

  lemma InForeign(u: User, from: Jid, to: Jid, kind: Kind, me: Jid, t: Jid)
    requires forall k :: 0 <= k < |u.sessions| ==> u.sessions[k].jid != me
    ensures LastWord(In(u, from, to, kind).out, me, t).None?
  {
    LastOfOne(Routed(from, to, Unsubscribed), me, t);
    LastOfReplies(u.sessions, from, to, kind, me, t);
  }

  lemma ForeignSessions(u: User, me: Jid)
    requires UserOk(u) && me.user != u.jid
    ensures forall k :: 0 <= k < |u.sessions| ==> u.sessions[k].jid != me
  {
    assert forall k :: 0 <= k < |u.sessions| ==> SessionOk(u, u.sessions[k]);
  }

  lemma DeliverForeign(u: User, i: nat, from: Jid, to: Jid, kind: Kind, me: Jid, t: Jid)
    requires UserOk(u) && i < |u.sessions| && me.user != u.jid && from.user == u.jid
    ensures LastWord(Deliver(u, i, from, to, kind).out, me, t).None?
  {
    ForeignSessions(u, me);
    InForeign(u, u.sessions[i].jid, to, kind, me, t);
    LastOfOne(Routed(to, from, kind), me, t);
  }

  lemma PktUserForeign(u: User, to: Jid, from: Jid, kind: Kind, me: Jid, t: Jid)
    requires UserOk(u) && me.user != u.jid
    ensures LastWord(PktUser(u, to, from, kind).out, me, t).None?
  {
    ForeignSessions(u, me);
    var m := Match(u.sessions, to.resource);
    var u1 := if kind.Bounced? && m.Some? then Bounce(u, m.value, from) else u;
    InForeign(u1, from, to, kind, me, t);
    if m.Some? { LastOfOne(Delivered(u1.sessions[m.value].id, from, kind), me, t); }
  }

  // ----- one event, for one session and one contact

  function UserOf(s: State, id: SmId): User
    requires Live(s, id)
  {
    s.users[s.sessions[id].user]
  }

  function SessionOf(s: State, id: SmId): Session
    requires Live(s, id)
  {
    UserOf(s, id).sessions[PositionOf(s, id)]
  }

  /** The session is replaced or created by this event. */
  predicate Starts(s: State, e: Event, id: SmId) {
    && e.Starting? && id == SmId(e.time, e.jid)
    && e.jid.user.domain in s.hosts && Load(s, e.jid.user, e.load).Some?
  }

  /** This event is the bounce, from `t`, of a presence of the session. */
  predicate Bounces(s: State, e: Event, id: SmId, t: Jid) {
    && e.Receiving? && e.kind.Bounced? && e.from == t && Passes(s, e.dest, e.kind)
    && var m := Match(s.users[e.dest.user].sessions, e.dest.resource);
       m.Some? && s.users[e.dest.user].sessions[m.value].id == id
  }

  lemma PositionIs(s: State, id: SmId, k: nat)
    requires RegistryOk(s) && Live(s, id) && k < |UserOf(s, id).sessions| && UserOf(s, id).sessions[k].id == id
    ensures PositionOf(s, id) == k && SessionOf(s, id) == UserOf(s, id).sessions[k]
  {
    var b := s.sessions[id].user;
    assert Entered(s.users[b], b, s.sessions);
    SessionsAreUnique(s, b, PositionOf(s, id), b, k);
  }

  /** What a step must do for the account of contact `t` with session `id`. */
  ghost predicate StepKeeps(s: State, e: Event, id: SmId, t: Jid)
    requires Possible(s, e)
  {
    var r := Step(s, e);
    && Live(s, id) && Live(r.state, id)
    && match LastWord(r.out, id.jid, t)
       case Some(available) => available ==> Accounted(UserOf(r.state, id), SessionOf(r.state, id), t)
       case None =>
         !Bounces(s, e, id, t) && Accounted(UserOf(s, id), SessionOf(s, id), t) ==>
           Accounted(UserOf(r.state, id), SessionOf(r.state, id), t)
  }

  lemma IdsPersist(s: State, e: Event, id: SmId)
    requires Possible(s, e) && id in Step(s, e).state.sessions && !Starts(s, e, id)
    ensures id in s.sessions && Step(s, e).state.sessions[id] == s.sessions[id]
  {
    hide EndGuts, FirstWith, Update, Deliver, PktUser, HasSession;
  }

  lemma LiveInBoth(s: State, e: Event, id: SmId)
    requires RegistryOk(s) && Possible(s, e) && id in Step(s, e).state.sessions && !Starts(s, e, id)
    ensures Live(s, id) && RegistryOk(Step(s, e).state) && Live(Step(s, e).state, id)
    ensures s.sessions[id] == id.jid == Step(s, e).state.sessions[id]
  {
    StepKeepsRegistry(s, e);
    IdsPersist(s, e, id);
    hide Step, Live, UserOk;
  }

  lemma OtherUserKeeps(s: State, e: Event, id: SmId, t: Jid)
    requires RegistryOk(s) && Possible(s, e) && id in Step(s, e).state.sessions && !Starts(s, e, id)
    requires id.jid.user in s.users && id.jid.user in Step(s, e).state.users
    requires Step(s, e).state.users[id.jid.user] == s.users[id.jid.user]
    requires LastWord(Step(s, e).out, id.jid, t).None?
    ensures StepKeeps(s, e, id, t)
  {
    hide Step;
    LiveInBoth(s, e, id);
  }

  /** A step on a user whose session list keeps its shape. */
  lemma OwnUserKeeps(s: State, e: Event, id: SmId, t: Jid, k: nat)
    requires RegistryOk(s) && Possible(s, e) && id in Step(s, e).state.sessions && !Starts(s, e, id)
    requires id.jid.user in s.users && id.jid.user in Step(s, e).state.users
    requires SameShape(s.users[id.jid.user], Step(s, e).state.users[id.jid.user])
    requires k < |s.users[id.jid.user].sessions| && s.users[id.jid.user].sessions[k].id == id
    requires Bounces(s, e, id, t) ==> LastWord(Step(s, e).out, id.jid, t).None?
    ensures Bounces(s, e, id, t) ==> StepKeeps(s, e, id, t)
    ensures !Bounces(s, e, id, t) ==>
      (StepKeeps(s, e, id, t) <==>
       Keeps(s.users[id.jid.user], s.users[id.jid.user].sessions[k],
             Step(s, e).state.users[id.jid.user], Step(s, e).state.users[id.jid.user].sessions[k], Step(s, e).out, t))
  {
    hide Step;
    LiveInBoth(s, e, id);
    PositionIs(s, id, k);
    PositionIs(Step(s, e).state, id, k);
    assert Entered(s.users[id.jid.user], id.jid.user, s.sessions);
  }

  lemma NothingKeeps(u: User, k: nat, t: Jid)
    requires k < |u.sessions|
    ensures SameShape(u, u) && Keeps(u, u.sessions[k], u, u.sessions[k], [], t)
  {}

  // ----- presence under another address

  /** A directed presence of another session of the user, or of this one, seen from session `id`. */
  predicate Directs(s: State, e: Event, id: SmId)
    requires Possible(s, e)
  {
    e.Sending? && e.to.To? && Live(s, id) && s.sessions[e.id].user == s.sessions[id].user
  }

  /** The address it goes out under. */
  function Sender(s: State, e: Event, id: SmId): Jid
    requires Possible(s, e) && Directs(s, e, id)
  {
    Signed(e.signed, UserOf(s, id).sessions[PositionOf(s, e.id)].jid)
  }

  /** Another session shows itself to `t` under this one's address, and this one does not account for `t`. */
  predicate Lent(s: State, e: Event, id: SmId, t: Jid)
    requires Possible(s, e)
  {
    Directs(s, e, id) && Lends(UserOf(s, id), PositionOf(s, e.id), Sender(s, e, id), e.to.jid, e.kind, PositionOf(s, id), t)
  }

  /** This session sends `t` unavailable under another address, and so forgets that it owes it. */
  predicate Withdrawn(s: State, e: Event, id: SmId, t: Jid)
    requires Possible(s, e)
  {
    Directs(s, e, id)
    && Withdraws(UserOf(s, id), PositionOf(s, e.id), Sender(s, e, id), e.to.jid, e.kind, PositionOf(s, id), t)
  }

  lemma SenderIsOwn(s: State, e: Event, id: SmId)
    requires RegistryOk(s) && Possible(s, e) && Directs(s, e, id)
    ensures Sender(s, e, id).user == s.sessions[id].user
    ensures UserOf(s, id).sessions[PositionOf(s, e.id)].jid == e.id.jid
    ensures Step(s, e).out == Deliver(UserOf(s, id), PositionOf(s, e.id), Sender(s, e, id), e.to.jid, e.kind).out
  {
    hide HasSession, UserOk, Deliver;
    IdsAreJids(s, s.sessions[id].user, PositionOf(s, e.id));
  }

  /** In the first case `t` is told that the session is available, in the second it is told nothing of it. */
  lemma ForgeryTells(s: State, e: Event, id: SmId, t: Jid)
    requires RegistryOk(s) && Possible(s, e) && t.user != id.jid.user && Live(s, id)
    ensures Lent(s, e, id, t) ==> LastWord(Step(s, e).out, id.jid, t) == Some(true)
    ensures Withdrawn(s, e, id, t) ==> LastWord(Step(s, e).out, id.jid, t).None?
    ensures Directs(s, e, id) ==> id in Step(s, e).state.sessions
  {
    if Directs(s, e, id) {
      hide HasSession, UserOk, Step;
      SenderIsOwn(s, e, id);
      IdsAreJids(s, s.sessions[id].user, PositionOf(s, id));
      DirectsKeepsIds(s, e, id);
      LastOfOne(Routed(e.to.jid, Sender(s, e, id), e.kind), id.jid, t);
    }
  }

  lemma DirectsKeepsIds(s: State, e: Event, id: SmId)
    requires Possible(s, e) && Directs(s, e, id)
    ensures Step(s, e).state.sessions == s.sessions && id in s.sessions
  {
    hide HasSession, Deliver;
  }

  lemma SendingKeepsIff(s: State, e: Event, id: SmId, t: Jid)
    requires RegistryOk(s) && Possible(s, e) && e.Sending?
    requires id in Step(s, e).state.sessions && t.user != id.jid.user
    ensures StepKeeps(s, e, id, t) <==> !Lent(s, e, id, t) && !Withdrawn(s, e, id, t)
  {
    hide UserOk, Update, Deliver, Keeps, SameShape, HasSession, StepKeeps, Lends, Withdraws;
    LiveInBoth(s, e, id);
    var b, i, k := s.sessions[e.id].user, PositionOf(s, e.id), PositionOf(s, id);
    var u := s.users[b];
    assert Entered(u, b, s.sessions);
    IdsAreJids(s, b, i);
    var from := Signed(e.signed, u.sessions[i].jid);
    match e.to {
      case Broadcast => UpdateKeepsShape(u, i, e.kind);
      case Unparsable =>
      case To(jid) => DeliverKeepsShape(u, i, from, jid, e.kind);
    }
    if id.jid.user == b {
      match e.to {
        case Broadcast => UpdateAccounts(u, i, e.kind, k, t);
        case Unparsable => NothingKeeps(u, k, t);
        case To(jid) => DeliverAccountsIff(u, i, from, jid, e.kind, k, t);
      }
      OwnUserKeeps(s, e, id, t, k);
    } else {
      match e.to {
        case Broadcast => UpdateForeign(u, i, e.kind, id.jid, t);
        case Unparsable =>
        case To(jid) => DeliverForeign(u, i, from, jid, e.kind, id.jid, t);
      }
      OtherUserKeeps(s, e, id, t);
    }
  }

  lemma ReceivingKeeps(s: State, e: Event, id: SmId, t: Jid)
    requires RegistryOk(s) && Possible(s, e) && e.Receiving? && id in Step(s, e).state.sessions
    ensures StepKeeps(s, e, id, t)
  {
    hide UserOk, PktUser, Keeps, SameShape, HasSession, StepKeeps, Bounces;
    LiveInBoth(s, e, id);
    var b, k, l := e.dest.user, PositionOf(s, id), Load(s, e.dest.user, e.load);
    if !Passes(s, e.dest, e.kind) || l.None? {
      LastOfOne(Routed(e.from, e.dest, Unsubscribed), id.jid, t);
      OtherUserKeeps(s, e, id, t);
    } else {
      var u := l.value;
      if b in s.users { assert Entered(u, b, s.sessions); } else { NewUserOk(b, e.load.value); }
      PktUserKeepsShape(u, e.dest, e.from, e.kind);
      if id.jid.user == b {
        if !Bounces(s, e, id, t) {
          BouncesMatch(s, e, id, t, k);
          PktUserAccounts(u, e.dest, e.from, e.kind, k, t);
        } else {
          BouncesBounced(s, e, id, t);
          BouncedIsQuiet(u, e.dest, e.from, e.kind, id.jid, t);
        }
        OwnUserKeeps(s, e, id, t, k);
      } else {
        PktUserForeign(u, e.dest, e.from, e.kind, id.jid, t);
        OtherUserKeeps(s, e, id, t);
      }
    }
  }

  lemma BouncesMatch(s: State, e: Event, id: SmId, t: Jid, k: nat)
    requires e.Receiving? && Passes(s, e.dest, e.kind) && e.dest.user in s.users && !Bounces(s, e, id, t)
    requires k < |s.users[e.dest.user].sessions| && s.users[e.dest.user].sessions[k].id == id
    ensures !(e.kind.Bounced? && e.from == t && Match(s.users[e.dest.user].sessions, e.dest.resource) == Some(k))
  {}

  lemma BouncesBounced(s: State, e: Event, id: SmId, t: Jid)
    requires Bounces(s, e, id, t)
    ensures e.Receiving? && e.kind.Bounced?
  {}

  /** Tracking a bounce routes nothing. */
  lemma BouncedIsQuiet(u: User, to: Jid, from: Jid, kind: Kind, me: Jid, t: Jid)
    requires kind.Bounced?
    ensures LastWord(PktUser(u, to, from, kind).out, me, t).None?
  {
    var m := Match(u.sessions, to.resource);
    if m.Some? {
      var u1 := Bounce(u, m.value, from);
      LastOfReplies(u1.sessions, from, to, kind, me, t);
      LastOfOne(Delivered(u1.sessions[m.value].id, from, kind), me, t);
    }
  }

  lemma EndGutsForeign(u: User, i: nat, me: Jid, t: Jid)
    requires UserOk(u) && i < |u.sessions| && me.user != u.jid
    ensures LastWord(EndGuts(u, i).out, me, t).None?
  {
    UpdateForeign(u, i, Unavailable, me, t);
  }

  /** The list that is left of a user when session i ends and `prefix` is put in front. */
  function Remaining(u: User, i: nat, prefix: seq<Session>): User
    requires i < |u.sessions|
  {
    EndGuts(u, i).user.(sessions := prefix + EndGuts(u, i).user.sessions)
  }

  /** A sibling session across the end of session i. */
  lemma SurvivorKeeps(u: User, i: nat, k: nat, t: Jid, prefix: seq<Session>)
    requires UserOk(u) && i < |u.sessions| && k < |u.sessions| && k != i && t.user != u.jid
    ensures var v, k' := Remaining(u, i, prefix), |prefix| + if k < i then k else k - 1;
            k' < |v.sessions| && v.sessions[k'].id == u.sessions[k].id
            && Keeps(u, u.sessions[k], v, v.sessions[k'], EndGuts(u, i).out, t)
  {
    EndGutsAccounts(u, i, k, t);
    UpdateKeepsShape(u, i, Unavailable);
    var e := EndGuts(u, i);
    assert (prefix + e.user.sessions)[|prefix| + if k < i then k else k - 1] == e.user.sessions[if k < i then k else k - 1];
  }

  /** A step on the session's own user in which its position may change from k to k'. */
  lemma MovedUserKeeps(s: State, e: Event, id: SmId, t: Jid, k: nat, k': nat)
    requires RegistryOk(s) && Possible(s, e) && id in Step(s, e).state.sessions && !Starts(s, e, id) && !e.Receiving?
    requires id.jid.user in s.users && id.jid.user in Step(s, e).state.users
    requires k < |s.users[id.jid.user].sessions| && s.users[id.jid.user].sessions[k].id == id
    requires k' < |Step(s, e).state.users[id.jid.user].sessions|
    requires Step(s, e).state.users[id.jid.user].sessions[k'].id == id
    requires Keeps(s.users[id.jid.user], s.users[id.jid.user].sessions[k],
                   Step(s, e).state.users[id.jid.user], Step(s, e).state.users[id.jid.user].sessions[k'], Step(s, e).out, t)
    ensures StepKeeps(s, e, id, t)
  {
    hide Step;
    LiveInBoth(s, e, id);
    PositionIs(s, id, k);
    PositionIs(Step(s, e).state, id, k');
    IdsAreJids(s, id.jid.user, k);
  }

  lemma IdsAreJids(s: State, b: BareJid, k: nat)
    requires RegistryOk(s) && b in s.users && k < |s.users[b].sessions|
    ensures s.users[b].sessions[k].id.jid == s.users[b].sessions[k].jid && s.users[b].sessions[k].jid.user == b
  {
    assert Entered(s.users[b], b, s.sessions) && SessionOk(s.users[b], s.users[b].sessions[k]);
  }

  lemma EndStep(s: State, id: SmId)
    requires RegistryOk(s) && Live(s, id)
    ensures var r, b := End(s, id), s.sessions[id].user;
            && r.out == EndGuts(s.users[b], PositionOf(s, id)).out
            && (b in r.state.users ==> r.state.users[b] == Remaining(s.users[b], PositionOf(s, id), []))
            && (forall c :: c != b && c in r.state.users ==> c in s.users && r.state.users[c] == s.users[c])
            && s.users[b].jid == b && UserOk(s.users[b])
  {
    hide EndGuts, UserOk, HasSession;
    assert Entered(s.users[s.sessions[id].user], s.sessions[id].user, s.sessions);
    var v := EndGuts(s.users[s.sessions[id].user], PositionOf(s, id)).user;
    assert [] + v.sessions == v.sessions;
  }

  lemma EndingKeeps(s: State, e: Event, id: SmId, t: Jid)
    requires RegistryOk(s) && Possible(s, e) && e.Ending?
    requires id in Step(s, e).state.sessions && t.user != id.jid.user
    ensures StepKeeps(s, e, id, t)
  {
    hide UserOk, EndGuts, Remaining, Keeps, HasSession, StepKeeps, End;
    LiveInBoth(s, e, id);
    EndStep(s, e.id);
    var b, i, k := s.sessions[e.id].user, PositionOf(s, e.id), PositionOf(s, id);
    if id.jid.user == b {
      GoneIsGone(s, e.id);
      SurvivorKeeps(s.users[b], i, k, t, []);
      MovedUserKeeps(s, e, id, t, k, if k < i then k else k - 1);
    } else {
      EndGutsForeign(s.users[b], i, id.jid, t);
      OtherUserKeeps(s, e, id, t);
    }
  }

  lemma GoneIsGone(s: State, id: SmId)
    requires Live(s, id)
    ensures id !in End(s, id).state.sessions
  {}

  lemma StartStep(s: State, e: Event)
    requires RegistryOk(s) && e.Starting? && e.jid.user in s.users && e.jid.user.domain in s.hosts
    ensures var r, b, u := Start(s, e.jid, e.time, e.load), e.jid.user, s.users[e.jid.user];
            var m, x := FirstWith(u.sessions, e.jid), Session(SmId(e.time, e.jid), e.jid, [], [], None, false, 0);
            && r.out == (if m.Some? then EndGuts(u, m.value).out else [])
            && b in r.state.users
            && r.state.users[b] == (if m.Some? then Remaining(u, m.value, [x]) else u.(sessions := [x] + u.sessions))
            && (forall c :: c != b && c in r.state.users ==> c in s.users && r.state.users[c] == s.users[c])
            && u.jid == b && UserOk(u)
            && forall id :: id in r.state.sessions && id != x.id ==>
                 id in s.sessions && (m.Some? ==> id != u.sessions[m.value].id)
  {
    hide EndGuts, UserOk, HasSession, FirstWith;
    assert Entered(s.users[e.jid.user], e.jid.user, s.sessions);
  }

  lemma StartingOwnKeeps(s: State, e: Event, id: SmId, t: Jid)
    requires RegistryOk(s) && Possible(s, e) && e.Starting? && !Starts(s, e, id)
    requires id in Step(s, e).state.sessions && t.user != id.jid.user
    requires id.jid.user == e.jid.user && e.jid.user in s.users && e.jid.user.domain in s.hosts
    ensures StepKeeps(s, e, id, t)
  {
    hide UserOk, EndGuts, Remaining, Keeps, HasSession, StepKeeps, FirstWith, PositionOf, Start, RegistryOk;
    LiveInBoth(s, e, id);
    StartStep(s, e);
    var k, u, x := PositionOf(s, id), s.users[e.jid.user], Session(SmId(e.time, e.jid), e.jid, [], [], None, false, 0);
    var m := FirstWith(u.sessions, e.jid);
    if m.None? {
      PrependKeeps(u, x, k, t);
      MovedUserKeeps(s, e, id, t, k, k + 1);
    } else {
      SurvivorKeeps(u, m.value, k, t, [x]);
      MovedUserKeeps(s, e, id, t, k, 1 + if k < m.value then k else k - 1);
    }
  }

  lemma StartingKeeps(s: State, e: Event, id: SmId, t: Jid)
    requires RegistryOk(s) && Possible(s, e) && e.Starting? && !Starts(s, e, id)
    requires id in Step(s, e).state.sessions && t.user != id.jid.user
    ensures StepKeeps(s, e, id, t)
  {
    hide UserOk, EndGuts, Remaining, Keeps, HasSession, StepKeeps, FirstWith;
    LiveInBoth(s, e, id);
    if e.jid.user.domain !in s.hosts || e.jid.user !in s.users {
      OtherUserKeeps(s, e, id, t);
    } else if id.jid.user == e.jid.user {
      StartingOwnKeeps(s, e, id, t);
    } else {
      StartStep(s, e);
      var u := s.users[e.jid.user];
      var m := FirstWith(u.sessions, e.jid);
      if m.Some? { EndGutsForeign(u, m.value, id.jid, t); }
      OtherUserKeeps(s, e, id, t);
    }
  }

  lemma PrependKeeps(u: User, x: Session, k: nat, t: Jid)
    requires k < |u.sessions|
    ensures Keeps(u, u.sessions[k], u.(sessions := [x] + u.sessions), ([x] + u.sessions)[k + 1], [], t)
    ensures ([x] + u.sessions)[k + 1].id == u.sessions[k].id
  {}

  /** An event keeps the account of a contact with a session unless it is one of the two. */
  lemma StepAccountsIff(s: State, e: Event, id: SmId, t: Jid)
    requires RegistryOk(s) && Possible(s, e) && id in Step(s, e).state.sessions && !Starts(s, e, id)
    requires t.user != id.jid.user
    ensures StepKeeps(s, e, id, t) <==> !Lent(s, e, id, t) && !Withdrawn(s, e, id, t)
  {
    match e
    case Starting(_, _, _) => StartingKeeps(s, e, id, t);
    case Ending(_) => EndingKeeps(s, e, id, t);
    case Sending(_, _, _, _) => SendingKeepsIff(s, e, id, t);
    case Receiving(_, _, _, _) => ReceivingKeeps(s, e, id, t);
  }

  // ----- whole runs

  ghost predicate Run(states: seq<State>, events: seq<Event>) {
    && |states| == |events| + 1
    && states[0].users == map[] && states[0].sessions == map[]
    && forall i :: 0 <= i < |events| ==> Possible(states[i], events[i])
                                         && states[i + 1] == Step(states[i], events[i]).state
  }

  /** After k events, contact `t` was sent this session's available presence and has
      since neither bounced nor been sent unavailable. */
  ghost predicate Owed(states: seq<State>, events: seq<Event>, id: SmId, t: Jid, k: nat)
    requires Run(states, events) && k < |states|
  {
    k > 0 && id in states[k].sessions && !Starts(states[k - 1], events[k - 1], id)
    && match LastWord(Step(states[k - 1], events[k - 1]).out, id.jid, t)
       case Some(available) => available
       case None => !Bounces(states[k - 1], events[k - 1], id, t) && Owed(states, events, id, t, k - 1)
  }

  lemma {:induction false} RunKeepsRegistry(states: seq<State>, events: seq<Event>, k: nat)
    requires Run(states, events) && k < |states|
    ensures RegistryOk(states[k])
  {
    if k > 0 {
      RunKeepsRegistry(states, events, k - 1);
      StepKeepsRegistry(states[k - 1], events[k - 1]);
    }
  }

  /** The contact is accounted for if anything is owed to it. */
  ghost predicate Accounts(states: seq<State>, events: seq<Event>, id: SmId, t: Jid, k: nat)
    requires Run(states, events) && k < |states|
  {
    Owed(states, events, id, t, k) ==>
      Live(states[k], id) && Accounted(UserOf(states[k], id), SessionOf(states[k], id), t)
  }

  /** A presence under another address that costs the contact its account: it counts only while something is owed. */
  ghost predicate Forges(states: seq<State>, events: seq<Event>, id: SmId, t: Jid, k: nat)
    requires Run(states, events) && k < |events|
  {
    Lent(states[k], events[k], id, t) || (Withdrawn(states[k], events[k], id, t) && Owed(states, events, id, t, k))
  }

  lemma NextAccounts(states: seq<State>, events: seq<Event>, id: SmId, t: Jid, k: nat)
    requires Run(states, events) && k < |events| && t.user != id.jid.user && Accounts(states, events, id, t, k)
    ensures Accounts(states, events, id, t, k + 1) <==> !Forges(states, events, id, t, k)
  {
    hide Step, Bounces, Starts, Lent, Withdrawn, Accounted, HasSession, Run;
    RunSteps(states, events, k);
    RunKeepsRegistry(states, events, k);
    RunKeepsRegistry(states, events, k + 1);
    var s, e := states[k], events[k];
    ForgeryIsDirected(s, e, id, t);
    if Live(s, id) { ForgeryTells(s, e, id, t); }
    if id in states[k + 1].sessions && !Starts(s, e, id) {
      StepAccountsIff(s, e, id, t);
    }
  }

  lemma RunSteps(states: seq<State>, events: seq<Event>, k: nat)
    requires Run(states, events) && k < |events|
    ensures |states| == |events| + 1
    ensures Possible(states[k], events[k]) && states[k + 1] == Step(states[k], events[k]).state
  {}

  lemma ForgeryIsDirected(s: State, e: Event, id: SmId, t: Jid)
    requires Possible(s, e)
    ensures Lent(s, e, id, t) || Withdrawn(s, e, id, t) ==> Directs(s, e, id) && Live(s, id) && !Starts(s, e, id)
    ensures Lent(s, e, id, t) || Withdrawn(s, e, id, t) ==> !Bounces(s, e, id, t)
  {}

  /**
   In a run, whoever was last sent this session's available presence and has not bounced is accounted for at
   every moment as long as, and only as long as, no presence under another address costs it its account.
   */
  lemma {:induction false} AccountsIff(states: seq<State>, events: seq<Event>, id: SmId, t: Jid, k: nat)
    requires Run(states, events) && k < |states| && t.user != id.jid.user
    ensures (forall j :: 0 <= j <= k ==> Accounts(states, events, id, t, j)) <==>
            (forall j :: 0 <= j < k ==> !Forges(states, events, id, t, j))
  {
    hide Accounts, Forges, Run;
    if k == 0 {
      NothingOwed(states, events, id, t);
    } else {
      RunLength(states, events);
      AccountsIff(states, events, id, t, k - 1);
      if Accounts(states, events, id, t, k - 1) { NextAccounts(states, events, id, t, k - 1); }
    }
  }

  lemma RunLength(states: seq<State>, events: seq<Event>)
    requires Run(states, events)
    ensures |states| == |events| + 1
  {}

  lemma NothingOwed(states: seq<State>, events: seq<Event>, id: SmId, t: Jid)
    requires Run(states, events)
    ensures Accounts(states, events, id, t, 0)
  {}

  /** No presence of the run so far costs this contact its account. */
  ghost predicate Honest(states: seq<State>, events: seq<Event>, id: SmId, t: Jid, k: nat)
    requires Run(states, events) && k < |states|
  {
    forall j :: 0 <= j < k ==> !Forges(states, events, id, t, j)
  }

  /** Sessions that sign their directed presence with their own address, or not at all, are honest. */
  lemma OwnSignatureIsHonest(states: seq<State>, events: seq<Event>, id: SmId, t: Jid, k: nat)
    requires Run(states, events) && k < |states|
    requires forall j :: 0 <= j < k && events[j].Sending? ==>
               events[j].signed == None || events[j].signed == Some(events[j].id.jid)
    ensures Honest(states, events, id, t, k)
  {
    hide Owed, Lent, Withdrawn;
    forall j | 0 <= j < k ensures !Forges(states, events, id, t, j) {
      RunKeepsRegistry(states, events, j);
      OwnSignature(states[j], events[j], id, t);
    }
  }

  lemma OwnSignature(s: State, e: Event, id: SmId, t: Jid)
    requires RegistryOk(s) && Possible(s, e)
    requires e.Sending? ==> e.signed == None || e.signed == Some(e.id.jid)
    ensures !Lent(s, e, id, t) && !Withdrawn(s, e, id, t)
  {
    hide HasSession, UserOk, Step, Accounted;
    if Directs(s, e, id) {
      SenderIsOwn(s, e, id);
      IdsAreJids(s, s.sessions[id].user, PositionOf(s, id));
      if e.id.jid == UserOf(s, id).sessions[PositionOf(s, id)].jid { SamePosition(s, e.id, id); }
    }
  }

  lemma SamePosition(s: State, a: SmId, b: SmId)
    requires RegistryOk(s) && Live(s, a) && Live(s, b) && s.sessions[a].user == s.sessions[b].user && a.jid == b.jid
    ensures PositionOf(s, a) == PositionOf(s, b)
  {
    var c := s.sessions[a].user;
    IdsAreJids(s, c, PositionOf(s, a));
    IdsAreJids(s, c, PositionOf(s, b));
    SessionsAreUnique(s, c, PositionOf(s, a), c, PositionOf(s, b));
  }

  lemma OwedIsAccounted(states: seq<State>, events: seq<Event>, id: SmId, t: Jid, k: nat)
    requires Run(states, events) && k < |states| && t.user != id.jid.user && Honest(states, events, id, t, k)
    requires Owed(states, events, id, t, k)
    ensures RegistryOk(states[k]) && Live(states[k], id)
    ensures Accounted(UserOf(states[k], id), SessionOf(states[k], id), t)
  {
    hide Forges, Run, Owed;
    AccountsIff(states, events, id, t, k);
    assert Accounts(states, events, id, t, k);
    RunKeepsRegistry(states, events, k);
  }

  /** The contacts for which the claim is made: roster items and everyone untrusted. */
  predicate Tracked(s: State, id: SmId, t: Jid)
    requires Live(s, id)
  {
    t.user != id.jid.user && (t in UserOf(s, id).roster || !Trust(UserOf(s, id), t))
  }

  /** When a session goes unavailable, everyone to whom that is owed is told. */
  lemma UnavailableTellsAll(states: seq<State>, events: seq<Event>, id: SmId, t: Jid, k: nat)
    requires Run(states, events) && k < |states| && t.user != id.jid.user && Honest(states, events, id, t, k)
    requires Owed(states, events, id, t, k)
    requires Live(states[k], id) && Tracked(states[k], id, t)
    ensures Routed(t, id.jid, Unavailable) in FromSession(states[k], id, None, Broadcast, Unavailable).out
  {
    var s := states[k];
    OwedIsAccounted(states, events, id, t, k);
    var u, i := UserOf(s, id), PositionOf(s, id);
    IdsAreJids(s, id.jid.user, i);
    assert Entered(u, id.jid.user, s.sessions);
    GoUnavailableTells(u, i, i, t);
    ToldIsSent(GoUnavailable(u, i).out, id.jid, t);
  }

  /** When a session ends they are told exactly if it is available or has used directed
      presence; an untrusted contact always is. */
  lemma EndTellsAll(states: seq<State>, events: seq<Event>, id: SmId, t: Jid, k: nat)
    requires Run(states, events) && k < |states| && t.user != id.jid.user && Honest(states, events, id, t, k)
    requires Owed(states, events, id, t, k)
    requires Live(states[k], id) && Tracked(states[k], id, t)
    ensures Routed(t, id.jid, Unavailable) in End(states[k], id).out <==>
            SessionOf(states[k], id).available || SessionOf(states[k], id).A != []
    ensures !Trust(UserOf(states[k], id), t) ==> Routed(t, id.jid, Unavailable) in End(states[k], id).out
  {
    var s := states[k];
    OwedIsAccounted(states, events, id, t, k);
    var u, i := UserOf(s, id), PositionOf(s, id);
    IdsAreJids(s, id.jid.user, i);
    assert Entered(u, id.jid.user, s.sessions);
    EndGutsTells(u, i, t);
    if u.sessions[i].available || u.sessions[i].A != [] {
      ToldIsSent(EndGuts(u, i).out, id.jid, t);
    }
  }

  /** That is reached: a session that only ever sent a roster contact directed presence ends without a word to it. */
  lemma SilentEndIsReached(hosts: set<string>, me: Jid, t: Jid, time: int, c: Content)
      returns (states: seq<State>, events: seq<Event>)
    requires me.user.domain in hosts && t.user != me.user
    ensures var id := SmId(time, me);
      && Run(states, events) && |events| == 2 && Owed(states, events, id, t, 2)
      && Live(states[2], id) && Tracked(states[2], id, t)
      && Routed(t, me, Unavailable) !in End(states[2], id).out
  {
    hide EndGuts;
    var id, x := SmId(time, me), Session(SmId(time, me), me, [], [], None, false, 0);
    var none: seq<Session> := [];
    assert [x] + none == [x];
    var u := User(me.user, [t], [x], None, false);
    var s0 := State(hosts, map[], map[]);
    var s1 := State(hosts, map[me.user := u], map[id := me]);
    var e1, e2 := Starting(me, time, Some([t])), Sending(id, None, To(t), Available(c));
    assert Step(s0, e1) == Result(s1, []);
    assert HasSession(u, id) by { assert u.sessions[0].id == id; }
    assert Set(u, 0, x) == u;
    var out := [Routed(t, me, Available(c))];
    assert Deliver(u, 0, me, t, Available(c)) == Effect(u, out);
    assert s1.users[me.user := u] == s1.users;
    assert Step(s1, e2) == Result(s1, out);
    states, events := [s0, s1, s1], [e1, e2];
    LastOfOne(out[0], me, t);
    EndTellsAll(states, events, id, t, 2);
  }

  // ----- runs in which presence under another address leaves a contact with stale presence

  function Idle(me: Jid, time: int): Session {
    Session(SmId(time, me), me, [], [], None, false, 0)
  }

  lemma FirstStarts(hosts: set<string>, me: Jid, time: int)
    requires me.user.domain in hosts
    ensures Step(State(hosts, map[], map[]), Starting(me, time, Some([]))) ==
      Result(State(hosts, map[me.user := User(me.user, [], [Idle(me, time)], None, false)], map[SmId(time, me) := me]), [])
  {
    var none: seq<Session> := [];
    assert [Idle(me, time)] + none == [Idle(me, time)];
  }

  lemma SecondStarts(s: State, me: Jid, other: Jid, time: int)
    requires s.users == map[me.user := User(me.user, [], [Idle(me, time)], None, false)] && me.user.domain in s.hosts
    requires s.sessions == map[SmId(time, me) := me] && other.user == me.user && other != me
    ensures Step(s, Starting(other, time, None)) ==
      Result(State(s.hosts, map[me.user := User(me.user, [], [Idle(other, time), Idle(me, time)], None, false)],
                   map[SmId(time, me) := me, SmId(time, other) := other]), [])
  {
    var x, y := Idle(me, time), Idle(other, time);
    assert [x][..0] == [] && FirstWith([x], other).None?;
    assert [y] + [x] == [y, x];
  }

  /** Directed presence to an untrusted contact, from session i of a user without available sessions. */
  lemma Directed(s: State, u: User, i: nat, signed: Option<Jid>, t: Jid, kind: Kind, a: seq<Jid>)
    requires i < |u.sessions| && u.jid in s.users && s.users[u.jid] == u && u.sessions[i].jid.user == u.jid != t.user
    requires u.sessions[i].id in s.sessions && s.sessions[u.sessions[i].id] == u.sessions[i].jid
    requires !Trust(u, t) && u.sessions[i].E == [] && IsAt(u, i)
    requires (kind.Available? && a == Append(u.sessions[i].A, t)) || (kind.Unavailable? && a == Zap(u.sessions[i].A, t))
    ensures var x, e := u.sessions[i], Sending(u.sessions[i].id, signed, To(t), kind);
      && Possible(s, e) && Step(s, e).out == [Routed(t, Signed(signed, x.jid), kind)] && PositionOf(s, x.id) == i
      && Step(s, e).state == s.(users := s.users[u.jid := u.(sessions := u.sessions[i := x.(A := a)])])
  {
    assert HasSession(u, u.sessions[i].id);
  }

  /** The i-th session is the first with its id. */
  predicate IsAt(u: User, i: nat)
    requires i < |u.sessions|
  {
    HasSession(u, u.sessions[i].id) && Position(u.sessions, u.sessions[i].id) == i
  }

  lemma {:induction false} QuietSiblings(sessions: seq<Session>, n: nat, i: nat, kind: Kind)
    requires n <= |sessions| && i < |sessions| && forall k :: 0 <= k < |sessions| ==> !sessions[k].available
    ensures Siblings(sessions, n, i, kind) == []
  {
    if n > 0 { QuietSiblings(sessions, n - 1, i, kind); }
  }

  /** A session without a roster, directed presence or available siblings goes without a word. */
  lemma GoesSilently(s: State, u: User, i: nat)
    requires i < |u.sessions| && u.jid in s.users && s.users[u.jid] == u && u.roster == [] && u.sessions[i].A == []
    requires u.sessions[i].id in s.sessions && s.sessions[u.sessions[i].id].user == u.jid && IsAt(u, i)
    requires forall k :: 0 <= k < |u.sessions| ==> !u.sessions[k].available
    ensures Live(s, u.sessions[i].id) && End(s, u.sessions[i].id).out == []
    ensures FromSession(s, u.sessions[i].id, None, Broadcast, Unavailable).out == []
  {
    QuietSiblings(u.sessions, |u.sessions|, i, Unavailable);
  }

  /** One session shows its sibling to an untrusted contact; when the sibling goes, the contact is not told. */
  lemma LentIsReached(hosts: set<string>, me: Jid, other: Jid, t: Jid, time: int, c: Content)
      returns (states: seq<State>, events: seq<Event>)
    requires me.user.domain in hosts && other.user == me.user && other != me && t.user != me.user
    ensures var id := SmId(time, other);
      && Run(states, events) && |events| == 3 && Owed(states, events, id, t, 3) && Lent(states[2], events[2], id, t)
      && Live(states[3], id) && Tracked(states[3], id, t) && End(states[3], id).out == []
      && FromSession(states[3], id, None, Broadcast, Unavailable).out == []
  {
    hide Start, End, FromSession, Siblings, Dispatch;
    var x, y := Idle(me, time), Idle(other, time);
    var u := User(me.user, [], [y, x], None, false);
    var v := u.(sessions := [y, x.(A := [t])]);
    var s0 := State(hosts, map[], map[]);
    var s1 := State(hosts, map[me.user := User(me.user, [], [x], None, false)], map[x.id := me]);
    var s2 := State(hosts, map[me.user := u], map[x.id := me, y.id := other]);
    var s3 := State(hosts, map[me.user := v], map[x.id := me, y.id := other]);
    var e0, e1 := Starting(me, time, Some([])), Starting(other, time, None);
    var e2 := Sending(x.id, Some(other), To(t), Available(c));
    FirstStarts(hosts, me, time);
    SecondStarts(s1, me, other, time);
    Positions(u, y, x);
    Positions(v, y, x.(A := [t]));
    assert Append([], t) == [t] && u.sessions[1 := x.(A := [t])] == v.sessions && s2.users[me.user := v] == s3.users;
    Directed(s2, u, 1, Some(other), t, Available(c), [t]);
    GoesSilently(s2, u, 0);
    GoesSilently(s3, v, 0);
    states, events := [s0, s1, s2, s3], [e0, e1, e2];
    LastOfOne(Routed(t, other, Available(c)), other, t);
  }

  lemma Positions(u: User, y: Session, x: Session)
    requires u.sessions == [y, x] && y.id != x.id
    ensures IsAt(u, 0) && IsAt(u, 1)
  {
    assert u.sessions[0].id == y.id && u.sessions[1].id == x.id && u.sessions[1..] == [x];
  }

  /** A session takes its directed presence back under another address; when it goes, the contact is not told. */
  lemma WithdrawnIsReached(hosts: set<string>, me: Jid, other: Jid, t: Jid, time: int, c: Content)
      returns (states: seq<State>, events: seq<Event>)
    requires me.user.domain in hosts && other.user == me.user && other != me && t.user != me.user
    ensures var id := SmId(time, me);
      && Run(states, events) && |events| == 3 && Owed(states, events, id, t, 3) && Withdrawn(states[2], events[2], id, t)
      && Live(states[3], id) && Tracked(states[3], id, t) && End(states[3], id).out == []
      && FromSession(states[3], id, None, Broadcast, Unavailable).out == []
  {
    hide Start, End, FromSession, Siblings, Dispatch;
    var x := Idle(me, time);
    var u := User(me.user, [], [x], None, false);
    var v := u.(sessions := [x.(A := [t])]);
    var s0 := State(hosts, map[], map[]);
    var s1 := State(hosts, map[me.user := u], map[x.id := me]);
    var s2 := State(hosts, map[me.user := v], map[x.id := me]);
    var e0, e1 := Starting(me, time, Some([])), Sending(x.id, None, To(t), Available(c));
    var e2 := Sending(x.id, Some(other), To(t), Unavailable);
    FirstStarts(hosts, me, time);
    assert u.sessions[0].id == x.id && v.sessions[0].id == x.id;
    assert Append([], t) == [t] && Zap([t], t) == [];
    assert u.sessions[0 := x.(A := [t])] == v.sessions && v.sessions[0 := x] == u.sessions;
    assert s1.users[me.user := v] == s2.users && s2.users[me.user := u] == s1.users;
    Directed(s1, u, 0, None, t, Available(c), [t]);
    Directed(s2, v, 0, Some(other), t, Unavailable, []);
    GoesSilently(s1, u, 0);
    states, events := [s0, s1, s2, s1], [e0, e1, e2];
    LastOfOne(Routed(t, me, Available(c)), me, t);
    LastOfOne(Routed(t, other, Unavailable), me, t);
  }

  /** So too when a new session replaces one with the same address. */
  lemma ReplacementTellsAll(states: seq<State>, events: seq<Event>, id: SmId, t: Jid, k: nat, time: int,
                            load: Option<seq<Jid>>)
    requires Run(states, events) && k < |states| && t.user != id.jid.user && Honest(states, events, id, t, k)
    requires Owed(states, events, id, t, k)
    requires Live(states[k], id) && Tracked(states[k], id, t) && id.jid.user.domain in states[k].hosts
    ensures Routed(t, id.jid, Unavailable) in Start(states[k], id.jid, time, load).out <==>
            SessionOf(states[k], id).available || SessionOf(states[k], id).A != []
  {
    hide Owed;
    var s := states[k];
    RunKeepsRegistry(states, events, k);
    EndTellsAll(states, events, id, t, k);
    var u := UserOf(s, id);
    IdsAreJids(s, id.jid.user, PositionOf(s, id));
    var m := FirstWith(u.sessions, id.jid);
    assert m.Some?;
    SessionsAreUnique(s, id.jid.user, PositionOf(s, id), id.jid.user, m.value);
  }
}
