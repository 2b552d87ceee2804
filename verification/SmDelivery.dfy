/**
 Who is sent what by one presence packet or session event, and what it leaves of the sessions, in the words of the
 packet and the lists alone.
 */
module SmDelivery {
  import opened Wrappers
  import opened SmModel
  import opened SmUsers
  import opened SmRuns

  /** The positions, in list order, of the available sessions whose address is not `from`. */
  ghost predicate HearersAre(ks: seq<nat>, sessions: seq<Session>, from: Jid) {
    && (forall i, j :: 0 <= i < j < |ks| ==> ks[i] < ks[j])
    && (forall i :: 0 <= i < |ks| ==> ks[i] < |sessions|)
    && (forall k: nat :: k in ks <==> k < |sessions| && sessions[k].available && sessions[k].jid != from)
  }

  // ----- presence that comes in

  lemma HearersSnoc(ks: seq<nat>, sessions: seq<Session>, n: nat, from: Jid)
    requires n + 1 == |sessions| && HearersAre(ks, sessions[..n], from)
    ensures HearersAre(if sessions[n].available && sessions[n].jid != from then ks + [n] else ks, sessions, from)
  {
    assert forall k :: 0 <= k < n ==> sessions[..n][k] == sessions[k];
  }

  lemma {:induction false} RepliesToAll(sessions: seq<Session>, from: Jid, to: Jid, kind: Kind) returns (ks: seq<nat>)
    requires !kind.Probe?
    ensures HearersAre(ks, sessions, from)
    ensures var out := ReplyAll(sessions, from, to, kind);
      |out| == |ks| && forall i :: 0 <= i < |ks| ==>
        ks[i] < |sessions| && out[i] == Delivered(sessions[ks[i]].id, from, kind)
    decreases |sessions|
  {
    if sessions == [] {
      ks := [];
    } else {
      var n := |sessions| - 1;
      ks := RepliesToAll(sessions[..n], from, to, kind);
      HearersSnoc(ks, sessions, n, from);
      hide HearersAre;
      if sessions[n].available && sessions[n].jid != from { ks := ks + [n]; }
    }
  }

  /**
   Presence other than a probe reaches every available session but the sender's own, once each and in list order, as it
   came; nothing else is sent and no session changes.
   */
  lemma InDelivers(u: User, from: Jid, to: Jid, kind: Kind)
    requires !kind.Probe?
    ensures var e := In(u, from, to, kind);
      && e.user == u
      && exists ks :: HearersAre(ks, u.sessions, from) && |e.out| == |ks|
                      && forall i :: 0 <= i < |ks| ==> e.out[i] == Delivered(u.sessions[ks[i]].id, from, kind)
  {
    var ks := RepliesToAll(u.sessions, from, to, kind);
    assert HearAll(u.sessions, from, to, kind) == u.sessions;
  }

  lemma {:induction false} AnswersOfAll(sessions: seq<Session>, from: Jid, to: Jid) returns (ks: seq<nat>)
    requires to.resource == ""
    ensures HearersAre(ks, sessions, from)
    ensures var out := ReplyAll(sessions, from, to, Probe);
      |out| == |ks| && forall i :: 0 <= i < |ks| ==>
        out[i] == Routed(from, sessions[ks[i]].jid,
                         Available(if sessions[ks[i]].pres.Some? then sessions[ks[i]].pres.value else Content(0, "")))
    decreases |sessions|
  {
    if sessions == [] {
      ks := [];
    } else {
      var n := |sessions| - 1;
      ks := AnswersOfAll(sessions[..n], from, to);
      HearersSnoc(ks, sessions, n, from);
      if sessions[n].available && sessions[n].jid != from { ks := ks + [n]; }
    }
  }

  /** A probe from somebody who is neither in the roster, bare or full, nor the user is only told so. */
  lemma UntrustedProbe(u: User, from: Jid, to: Jid)
    ensures In(u, from, to, Probe) == Effect(u, [Routed(from, to, Unsubscribed)]) <==>
            Jid(from.user, "") !in u.roster && from !in u.roster && from.user != u.jid
  {
    hide ReplyAll;
    if u.available && Trust(u, from) { ProbeIsAnswered(u.sessions, from, to); }
  }

  lemma {:induction false} ProbeIsAnswered(sessions: seq<Session>, from: Jid, to: Jid)
    ensures forall o :: o in ReplyAll(sessions, from, to, Probe) ==> o.Routed? && o.kind.Available?
    decreases |sessions|
  {
    if sessions != [] { ProbeIsAnswered(sessions[..|sessions| - 1], from, to); }
  }

  /**
   A trusted probe of the bare address is answered for every available session but the prober's own, in list order,
   with the presence it last sent, under its address; each of them forgets that the prober ever bounced.
   */
  lemma BareProbeAnswers(u: User, from: Jid, to: Jid)
    requires UserOk(u) && to.resource == ""
    requires Jid(from.user, "") in u.roster || from in u.roster || from.user == u.jid
    ensures var e := In(u, from, to, Probe);
      && (exists ks :: HearersAre(ks, u.sessions, from) && |e.out| == |ks|
            && forall i :: 0 <= i < |ks| ==>
                 var x := u.sessions[ks[i]];
                 x.pres.Some? && e.out[i] == Routed(from, x.jid, Available(x.pres.value)))
      && e.user == u.(sessions := e.user.sessions) && |e.user.sessions| == |u.sessions|
      && forall k :: 0 <= k < |u.sessions| ==>
           var x, y := u.sessions[k], e.user.sessions[k];
           y == x.(E := y.E)
           && if x.available && x.jid != from then forall j :: j in y.E <==> j in x.E && j != from else y.E == x.E
  {
    hide ReplyAll, NoDup;
    forall k | 0 <= k < |u.sessions| ensures SessionOk(u, u.sessions[k]) && NoDup(u.sessions[k].E) {
      assert SessionOk(u, u.sessions[k]);
    }
    forall k | 0 <= k < |u.sessions|
      ensures forall j :: j in Zap(u.sessions[k].E, from) <==> j in u.sessions[k].E && j != from
    {
      ZapRemoves(u.sessions[k].E, from);
    }
    var ks := AnswersOfAll(u.sessions, from, to);
    if !u.available {
      assert forall k :: 0 <= k < |u.sessions| ==> !u.sessions[k].available;
      assert HearersAre([], u.sessions, from);
    }
  }

  lemma {:induction false} AnswerOfOne(sessions: seq<Session>, from: Jid, to: Jid)
    requires to.resource != "" && Distinct(sessions)
    ensures ReplyAll(sessions, from, to, Probe) ==
      if to != from && exists k :: 0 <= k < |sessions| && sessions[k].available && sessions[k].jid == to
      then [Routed(from, to, Available(Content(0, "")))] else []
    decreases |sessions|
  {
    if sessions != [] {
      var n := |sessions| - 1;
      AnswerOfOne(sessions[..n], from, to);
      if k :| 0 <= k < n && sessions[k].available && sessions[k].jid == to {
        assert sessions[..n][k] == sessions[k] && sessions[n].jid != to;
      }
    }
  }

  /** A trusted probe of a full address is answered, if an available session has it, with a presence without content. */
  lemma FullProbeAnswers(u: User, from: Jid, to: Jid)
    requires UserOk(u) && to.resource != ""
    requires Jid(from.user, "") in u.roster || from in u.roster || from.user == u.jid
    ensures var e := In(u, from, to, Probe);
      && e.out == (if to != from && exists k :: 0 <= k < |u.sessions| && u.sessions[k].available && u.sessions[k].jid == to
                   then [Routed(from, to, Available(Content(0, "")))] else [])
      && e.user == u.(sessions := e.user.sessions) && |e.user.sessions| == |u.sessions|
      && forall k :: 0 <= k < |u.sessions| ==>
           var x, y := u.sessions[k], e.user.sessions[k];
           y == x.(E := y.E)
           && if x.available && x.jid == to && to != from
              then forall j :: j in y.E <==> j in x.E && j != from else y.E == x.E
  {
    hide ReplyAll, NoDup;
    forall k | 0 <= k < |u.sessions|
      ensures forall j :: j in Zap(u.sessions[k].E, from) <==> j in u.sessions[k].E && j != from
    {
      assert SessionOk(u, u.sessions[k]);
      ZapRemoves(u.sessions[k].E, from);
    }
    AnswerOfOne(u.sessions, from, to);
  }

  /** What a client's packet to one address does: the first session with its resource. */
  lemma {:induction false} MatchIsOne(sessions: seq<Session>, resource: string)
    ensures var m := Match(sessions, resource);
      m.Some? ==> forall k :: 0 <= k < m.value ==> sessions[k].jid.resource != resource
    decreases |sessions|
  {
    if sessions != [] {
      var n := |sessions| - 1;
      MatchIsOne(sessions[..n], resource);
      assert forall k :: 0 <= k < n ==> sessions[..n][k] == sessions[k];
    }
  }

  /**
   Presence from the router that is no bounce: for a full address it is handed, even if it is a probe, to the first
   session with that resource, and to nobody if there is none; for the bare one it is taken in as above.
   */
  lemma PktUserDelivers(u: User, to: Jid, from: Jid, kind: Kind)
    requires !kind.Bounced?
    ensures var e := PktUser(u, to, from, kind);
      && (to.resource != "" ==> e.user == u)
      && (to.resource != "" && (forall k :: 0 <= k < |u.sessions| ==> u.sessions[k].jid.resource != to.resource) ==>
            e.out == [])
      && (forall k :: (&& 0 <= k < |u.sessions| && to.resource != "" && u.sessions[k].jid.resource == to.resource
                       && (forall j :: 0 <= j < k ==> u.sessions[j].jid.resource != to.resource)) ==>
            e.out == [Delivered(u.sessions[k].id, from, kind)])
      && (to.resource == "" ==> e == In(u, from, to, kind))
  {
    hide In;
    MatchIsOne(u.sessions, to.resource);
  }

  /** So presence other than probes and bounces for the bare address reaches every available session of the user. */
  lemma BarePresenceDelivers(u: User, to: Jid, from: Jid, kind: Kind)
    requires !kind.Bounced? && !kind.Probe? && to.resource == ""
    ensures var e := PktUser(u, to, from, kind);
      && e.user == u
      && exists ks :: HearersAre(ks, u.sessions, from) && |e.out| == |ks|
                      && forall i :: 0 <= i < |ks| ==> e.out[i] == Delivered(u.sessions[ks[i]].id, from, kind)
  {
    hide In, PktUser;
    PktUserDelivers(u, to, from, kind);
    InDelivers(u, from, to, kind);
  }

  /**
   A bounce from `from` moves it from A to E in the first session with the resource it is addressed to, and is then
   dropped if it was a probe, and delivered like other presence if not; without such a session nothing happens.
   */
  lemma BounceTracks(u: User, to: Jid, from: Jid, probe: bool)
    requires UserOk(u)
    ensures var e := PktUser(u, to, from, Bounced(probe));
      && ((forall k :: 0 <= k < |u.sessions| ==> u.sessions[k].jid.resource != to.resource) ==> e == Effect(u, []))
      && forall k :: (&& 0 <= k < |u.sessions| && u.sessions[k].jid.resource == to.resource
                      && (forall j :: 0 <= j < k ==> u.sessions[j].jid.resource != to.resource)) ==>
           && k < |e.user.sessions|
           && var x, y := u.sessions[k], e.user.sessions[k];
           && e.user == u.(sessions := u.sessions[k := y]) && y == x.(A := y.A, E := y.E)
           && (forall j :: j in y.A <==> j in x.A && j != from) && (forall j :: j in y.E <==> j in x.E || j == from)
           && (probe ==> e.out == [])
           && (!probe && to.resource != "" ==> e.out == [Delivered(x.id, from, Bounced(false))])
           && (!probe && to.resource == "" ==>
                 exists ks :: HearersAre(ks, e.user.sessions, from) && |e.out| == |ks|
                   && forall i :: 0 <= i < |ks| ==> e.out[i] == Delivered(u.sessions[ks[i]].id, from, Bounced(false)))
  {
    hide UserOk, Bounce, In;
    var m := Match(u.sessions, to.resource);
    MatchIsOne(u.sessions, to.resource);
    if m.Some? {
      BounceKeeps(u, m.value, from);
      var u1 := Bounce(u, m.value, from);
      InDelivers(u1, from, to, Bounced(probe));
      assert u1.sessions[m.value].jid == u.sessions[m.value].jid && u1.sessions[m.value].id == u.sessions[m.value].id;
    }
  }

  /**
   A presence packet other than a probe or a bounce that comes from the router for a bare address: every available
   session of the user gets it, if the user is loaded, and nothing else happens, whatever loading would give.
   */
  lemma DispatchDelivers(s: State, to: Jid, from: Jid, kind: Kind, load: Option<seq<Jid>>)
    requires !kind.Bounced? && !kind.Probe? && to.resource == ""
    ensures var r := Dispatch(s, to, from, kind, load);
      && r.state == s
      && (to.user !in s.users ==> r.out == [])
      && (to.user in s.users ==>
            exists ks :: HearersAre(ks, s.users[to.user].sessions, from) && |r.out| == |ks|
              && forall i :: 0 <= i < |ks| ==> r.out[i] == Delivered(s.users[to.user].sessions[ks[i]].id, from, kind))
  {
    hide PktUser;
    if to.user in s.users {
      var u := s.users[to.user];
      BarePresenceDelivers(u, to, from, kind);
      assert s.users[to.user := u] == s.users;
      if !AnyAvailable(u.sessions) { assert HearersAre([], u.sessions, from); }
    }
  }

  lemma NobodyAnswers(u: User, from: Jid, to: Jid)
    requires u.sessions == [] && !u.available
    ensures In(u, from, to, Probe) == Effect(u, if Trust(u, from) then [] else [Routed(from, to, Unsubscribed)])
  {}

  /**
   A probe that comes from the router for a bare address: somebody untrusted, or of an account that cannot be loaded,
   is told that it is not subscribed; a trusted prober gets the answers of the sessions, and loading alone changes
   nothing.
   */
  lemma DispatchAnswers(s: State, to: Jid, from: Jid, load: Option<seq<Jid>>)
    requires to.resource == "" && (to.user in s.users ==> UserOk(s.users[to.user]) && s.users[to.user].sessions != [])
    ensures var r := Dispatch(s, to, from, Probe, load);
      && (to.user !in s.users ==>
            && r.state == s
            && r.out == (if load.Some? && (Jid(from.user, "") in load.value || from in load.value || from.user == to.user)
                         then [] else [Routed(from, to, Unsubscribed)]))
      && (to.user in s.users ==>
            && var e := In(s.users[to.user], from, to, Probe);
            r == Result(s.(users := s.users[to.user := e.user]), e.out))
  {
    hide In, PktUser;
    if to.user in s.users {
      var u := s.users[to.user];
      PktUserDelivers(u, to, from, Probe);
      InKeepsShape(u, from, to, Probe);
    } else if load.Some? {
      var u := NewUser(to.user, load.value);
      PktUserDelivers(u, to, from, Probe);
      NobodyAnswers(u, from, to);
      assert s.users - {to.user} == s.users;
    }
  }

  /** The same packets, and probes, for a full address go to that session, if any of the user's is available. */
  lemma DispatchHandsOver(s: State, to: Jid, from: Jid, kind: Kind, load: Option<seq<Jid>>)
    requires !kind.Bounced? && to.resource != ""
    requires to.user in s.users && UserOk(s.users[to.user]) && s.users[to.user].sessions != []
    requires s.users[to.user].jid == to.user
    ensures var r, xs := Dispatch(s, to, from, kind, load), s.users[to.user].sessions;
      && r.state == s
      && ((forall k :: 0 <= k < |xs| ==> xs[k].jid != to) ==> r.out == [])
      && forall k :: 0 <= k < |xs| && xs[k].jid == to ==>
           r.out == if kind.Probe? || exists j :: 0 <= j < |xs| && xs[j].available
                    then [Delivered(xs[k].id, from, kind)] else []
  {
    hide PktUser, In;
    var u := s.users[to.user];
    assert forall k :: 0 <= k < |u.sessions| ==> SessionOk(u, u.sessions[k]);
    PktUserDelivers(u, to, from, kind);
    assert s.users[to.user := u] == s.users;
  }

  /** Bounces are tracked only while the user is loaded and a session is available. */
  lemma DispatchBounces(s: State, to: Jid, from: Jid, probe: bool, load: Option<seq<Jid>>)
    ensures var r := Dispatch(s, to, from, Bounced(probe), load);
      if to.user in s.users && exists k :: 0 <= k < |s.users[to.user].sessions| && s.users[to.user].sessions[k].available
      then
        var e := PktUser(s.users[to.user], to, from, Bounced(probe));
        r == Result(s.(users := s.users[to.user := e.user]), e.out)
      else r == Result(s, [])
  {
    if to.user in s.users {
      assert |PktUser(s.users[to.user], to, from, Bounced(probe)).user.sessions| == |s.users[to.user].sessions|;
    }
  }

  // ----- what a session sends

  lemma Prefix(items: seq<Jid>, es: seq<Jid>)
    requires items != []
    ensures var n := |items| - 1;
      && (set k | 0 <= k < n && items[..n][k] !in es) == (set k | 0 <= k < n && items[k] !in es)
      && |set k | 0 <= k < |items| && items[k] !in es|
         == |set k | 0 <= k < n && items[..n][k] !in es| + if items[n] !in es then 1 else 0
  {
    var n := |items| - 1;
    assert (set k | 0 <= k < n && items[..n][k] !in es) == (set k | 0 <= k < n && items[k] !in es);
    assert (set k | 0 <= k < |items| && items[k] !in es)
        == (set k | 0 <= k < n && items[k] !in es) + if items[n] !in es then {n} else {};
  }

  lemma {:induction false} RosterAvailableSends(s: Session, items: seq<Jid>, content: Content)
    ensures var out := RosterAvailable(s, items, content);
      && |out| == (if s.available then 0 else |items|) + |set k | 0 <= k < |items| && items[k] !in s.E|
      && forall o :: o in out <==>
           || (!s.available && exists t :: t in items && o == Routed(t, Jid(s.jid.user, ""), Probe))
           || exists t :: t in items && t !in s.E && o == Routed(t, s.jid, Available(content))
    decreases |items|
  {
    if items != [] {
      var n := |items| - 1;
      RosterAvailableSends(s, items[..n], content);
      Prefix(items, s.E);
      assert items == items[..n] + [items[n]];
    }
  }

  lemma {:induction false} RosterUnavailableSends(s: Session, items: seq<Jid>)
    ensures var out := RosterUnavailable(s, items);
      && |out| == |set k | 0 <= k < |items| && items[k] !in s.E|
      && forall o :: o in out <==> exists t :: t in items && t !in s.E && o == Routed(t, s.jid, Unavailable)
    decreases |items|
  {
    if items != [] {
      var n := |items| - 1;
      RosterUnavailableSends(s, items[..n]);
      Prefix(items, s.E);
      assert items == items[..n] + [items[n]];
    }
  }

  /** The members of A are untrusted, so the walk over A leaves none of them out. */
  lemma {:induction false} DirectedSends(u: User, s: Session, list: seq<Jid>)
    requires forall j :: j in list ==> !Trust(u, j)
    ensures DirectedUnavailable(u, s, list)
         == seq(|list|, i requires 0 <= i < |list| => Routed(list[i], s.jid, Unavailable))
    decreases |list|
  {
    if list != [] {
      var n := |list| - 1;
      assert list == list[..n] + [list[n]];
      DirectedSends(u, s, list[..n]);
    }
  }

  lemma ListSends(out: seq<Output>, list: seq<Jid>, me: Jid, o: Output)
    requires out == seq(|list|, i requires 0 <= i < |list| => Routed(list[i], me, Unavailable))
    ensures o in out <==> exists t :: t in list && o == Routed(t, me, Unavailable)
  {
    if t :| t in list && o == Routed(t, me, Unavailable) {
      var k :| 0 <= k < |list| && list[k] == t;
      assert out[k] == o;
    }
  }

  lemma {:induction false} SiblingsSend(sessions: seq<Session>, n: nat, i: nat, kind: Kind, o: Output)
    requires i < |sessions| && n <= |sessions|
    ensures o in Siblings(sessions, n, i, kind) <==>
            exists k :: 0 <= k < n && k != i && sessions[k].available && o == Routed(sessions[k].jid, sessions[i].jid, kind)
  {
    if n > 0 { SiblingsSend(sessions, n - 1, i, kind, o); }
  }

  lemma {:induction false} SiblingsCount(sessions: seq<Session>, n: nat, i: nat, kind: Kind)
    requires i < |sessions| && n <= |sessions|
    ensures |Siblings(sessions, n, i, kind)| == |set k | 0 <= k < n && k != i && sessions[k].available|
  {
    if n > 0 {
      SiblingsCount(sessions, n - 1, i, kind);
      assert (set k | 0 <= k < n && k != i && sessions[k].available)
          == (set k | 0 <= k < n - 1 && k != i && sessions[k].available)
             + if n - 1 != i && sessions[n - 1].available then {n - 1} else {};
    }
  }

  /**
   An available presence of session i, by everything it sends: itself to the roster items not in E and to the user's
   other available sessions; and, if the session was not available before, a probe from the bare address to every
   roster item and to the user.  The session keeps it, with its priority, and the others are left alone.
   */
  lemma AvailableSends(u: User, i: nat, content: Content)
    requires UserOk(u) && i < |u.sessions|
    ensures var e, x := Update(u, i, Available(content)), u.sessions[i];
      && (forall o :: o in e.out <==>
           || (!x.available && exists t :: (t in u.roster || t == Jid(u.jid, "")) && o == Routed(t, Jid(u.jid, ""), Probe))
           || (exists t :: t in u.roster && t !in x.E && o == Routed(t, x.jid, Available(content)))
           || (exists k :: 0 <= k < |u.sessions| && k != i && u.sessions[k].available
                           && o == Routed(u.sessions[k].jid, x.jid, Available(content))))
      && |e.out| == (if x.available then 0 else |u.roster| + if Jid(u.jid, "") in u.roster then 0 else 1)
                    + |set k | 0 <= k < |u.roster| && u.roster[k] !in x.E|
                    + |set k | 0 <= k < |u.sessions| && k != i && u.sessions[k].available|
      && e.user.jid == u.jid && e.user.roster == u.roster
      && e.user.sessions == u.sessions[i := Session(x.id, x.jid, x.A, x.E, Some(content), true, content.pri)]
  {
    var x := u.sessions[i];
    assert SessionOk(u, x);
    RosterAvailableSends(x, u.roster, content);
    SiblingsCount(u.sessions, |u.sessions|, i, Available(content));
    forall o { SiblingsSend(u.sessions, |u.sessions|, i, Available(content), o); }
    hide UserOk, SessionOk, RosterAvailable, Siblings;
  }

  /**
   An unavailable presence, by everything it sends: itself to the roster items not in E, to the members of A and to the
   user's other available sessions.  The session forgets its presence, A and E.
   */
  lemma UnavailableSends(u: User, i: nat)
    requires UserOk(u) && i < |u.sessions|
    ensures var e, x := Update(u, i, Unavailable), u.sessions[i];
      && (forall o :: o in e.out <==>
           || (exists t :: ((t in u.roster && t !in x.E) || t in x.A) && o == Routed(t, x.jid, Unavailable))
           || (exists k :: 0 <= k < |u.sessions| && k != i && u.sessions[k].available
                           && o == Routed(u.sessions[k].jid, x.jid, Unavailable)))
      && |e.out| == |set k | 0 <= k < |u.roster| && u.roster[k] !in x.E| + |x.A|
                    + |set k | 0 <= k < |u.sessions| && k != i && u.sessions[k].available|
      && e.user.jid == u.jid && e.user.roster == u.roster
      && e.user.sessions == u.sessions[i := Session(x.id, x.jid, [], [], None, false, x.pri)]
  {
    var x := u.sessions[i];
    assert SessionOk(u, x);
    RosterUnavailableSends(x, u.roster);
    DirectedSends(u, x, x.A);
    SiblingsCount(u.sessions, |u.sessions|, i, Unavailable);
    hide UserOk, SessionOk, RosterUnavailable, DirectedUnavailable, Siblings, Trust, TopOf, AnyAvailable;
    var a, b := RosterUnavailable(x, u.roster), DirectedUnavailable(u, x, x.A);
    var c := Siblings(u.sessions, |u.sessions|, i, Unavailable);
    assert Update(u, i, Unavailable).out == a + b + c;
    forall o ensures o in a + b + c <==>
      || (exists t :: ((t in u.roster && t !in x.E) || t in x.A) && o == Routed(t, x.jid, Unavailable))
      || (exists k :: 0 <= k < |u.sessions| && k != i && u.sessions[k].available
                      && o == Routed(u.sessions[k].jid, x.jid, Unavailable))
    {
      SiblingsSend(u.sessions, |u.sessions|, i, Unavailable, o);
      ListSends(b, x.A, x.jid, o);
    }
  }

  /** A probe without an address is taken in as one of the user itself; anything else without an address is dropped. */
  lemma OtherUpdates(u: User, i: nat, kind: Kind)
    requires UserOk(u) && i < |u.sessions| && !kind.Available? && !kind.Unavailable?
    ensures Update(u, i, kind) ==
            if kind.Probe? then In(u, u.sessions[i].jid, Jid(u.jid, ""), Probe) else Effect(u, [])
  {
    hide In;
    assert SessionOk(u, u.sessions[i]);
  }

  /**
   Directed presence to another user goes out once, under the address it came with.  An available one puts an untrusted
   address into A, an unavailable one takes it out, and both take it out of E.  Everything else is dropped.
   */
  lemma DirectedPresence(u: User, i: nat, from: Jid, to: Jid, kind: Kind)
    requires UserOk(u) && i < |u.sessions| && to.user != u.jid
    ensures var e, x := Deliver(u, i, from, to, kind), u.sessions[i];
      && |e.user.sessions| == |u.sessions|
      && var y := e.user.sessions[i];
      && e.user == u.(sessions := u.sessions[i := y]) && y == x.(A := y.A, E := y.E)
      && (if kind.Available? || kind.Unavailable?
          then e.out == [Routed(to, from, kind)] && forall j :: j in y.E <==> j in x.E && j != to
          else e == Effect(u, []))
      && (kind.Available? ==> forall j :: j in y.A <==>
            j in x.A || (j == to && Jid(to.user, "") !in u.roster && to !in u.roster))
      && (kind.Unavailable? ==> forall j :: j in y.A <==> j in x.A && j != to)
  {
    var x := u.sessions[i];
    assert SessionOk(u, x);
    AppendKeeps(x.A, to);
    ZapRemoves(x.A, to);
    ZapRemoves(x.E, to);
    hide Zap, NoDup;
  }

  /** Directed presence to the own user is taken in as one from the session, whatever address it came with. */
  lemma DirectedToSelf(u: User, i: nat, from: Jid, to: Jid, kind: Kind)
    requires UserOk(u) && i < |u.sessions| && to.user == u.jid
    ensures Deliver(u, i, from, to, kind) == In(u, u.sessions[i].jid, to, kind)
  {
    hide In;
    assert SessionOk(u, u.sessions[i]);
  }

  // ----- sessions and the registry

  /** The position of a live session is the only one with its id. */
  lemma LiveAt(s: State, id: SmId, k: nat)
    requires RegistryOk(s) && Live(s, id)
    requires k < |s.users[id.jid.user].sessions| && s.users[id.jid.user].sessions[k].id == id
    ensures s.sessions[id].user == id.jid.user && PositionOf(s, id) == k
    ensures id.jid.user in s.users && Entered(s.users[id.jid.user], id.jid.user, s.sessions)
  {
    hide UserOk, HasSession;
    SessionsAreUnique(s, id.jid.user, PositionOf(s, id), id.jid.user, k);
  }

  /**
   The end of a session takes it, and only it, from its user's list and from the global map, frees the user with its
   last one, and sends the unavailable presence if the session is available or has used directed presence.
   */
  lemma EndRemovesOne(s: State, id: SmId, k: nat)
    requires RegistryOk(s) && Live(s, id)
    requires k < |s.users[id.jid.user].sessions| && s.users[id.jid.user].sessions[k].id == id
    ensures var r, b, u := End(s, id), id.jid.user, s.users[id.jid.user];
      && r.state.hosts == s.hosts && r.state.sessions == s.sessions - {id}
      && r.state.users.Keys == (if |u.sessions| == 1 then s.users.Keys - {b} else s.users.Keys)
      && (forall c :: c in r.state.users && c != b ==> r.state.users[c] == s.users[c])
      && (b in r.state.users ==>
            && r.state.users[b].sessions == u.sessions[..k] + u.sessions[k + 1..]
            && r.state.users[b].jid == b && r.state.users[b].roster == u.roster)
      && r.out == (if u.sessions[k].available || u.sessions[k].A != [] then Update(u, k, Unavailable).out else [])
  {
    hide UserOk, HasSession, GoUnavailable, Live;
    LiveAt(s, id, k);
    EndGutsUnlinks(s.users[id.jid.user], k);
  }

  /**
   A new session of a served domain, whose user is loaded or can be, becomes the first of its user, blank, under its
   own id; an older one with the same address goes as if it had ended.  Otherwise nothing happens.
   */
  lemma StartEnters(s: State, jid: Jid, time: int, load: Option<seq<Jid>>)
    requires RegistryOk(s)
    ensures var r, b, id := Start(s, jid, time, load), jid.user, SmId(time, jid);
      if b.domain !in s.hosts || (b !in s.users && load.None?) then r == Result(s, [])
      else
        && var u := if b in s.users then s.users[b] else User(b, load.value, [], None, false);
        && r.state.hosts == s.hosts && r.state.users.Keys == s.users.Keys + {b}
        && (forall c :: c in s.users && c != b ==> r.state.users[c] == s.users[c])
        && r.state.users[b].jid == b && r.state.users[b].roster == u.roster
        && ((forall k :: 0 <= k < |u.sessions| ==> u.sessions[k].jid != jid) ==>
              && r.state.users[b].sessions == [Session(id, jid, [], [], None, false, 0)] + u.sessions
              && r.state.sessions == s.sessions[id := jid] && r.out == [])
        && forall k :: 0 <= k < |u.sessions| && u.sessions[k].jid == jid ==>
             && r.state.users[b].sessions
                == [Session(id, jid, [], [], None, false, 0)] + (u.sessions[..k] + u.sessions[k + 1..])
             && r.state.sessions == (s.sessions - {u.sessions[k].id})[id := jid]
             && r.out == (if u.sessions[k].available || u.sessions[k].A != [] then Update(u, k, Unavailable).out else [])
  {
    hide UserOk, HasSession, GoUnavailable, Live, FirstWith;
    var b := jid.user;
    if b.domain in s.hosts && (b in s.users || load.Some?) {
      var u := if b in s.users then s.users[b] else NewUser(b, load.value);
      assert b in s.users ==> Entered(u, b, s.sessions);
      var m := FirstWith(u.sessions, jid);
      if m.Some? {
        EndGutsUnlinks(u, m.value);
        forall k | 0 <= k < |u.sessions| && u.sessions[k].jid == jid ensures k == m.value {
          SessionsAreUnique(s, b, k, b, m.value);
        }
      }
    }
  }

  /**
   A presence packet of a live session: without an address it is an update, with one that cannot be parsed nothing, and
   with another it is directed, under the address the client wrote if that is one of the user's and else its own.
   */
  lemma SendingIs(s: State, id: SmId, from: Option<Jid>, to: Address, kind: Kind, k: nat)
    requires RegistryOk(s) && Live(s, id)
    requires k < |s.users[id.jid.user].sessions| && s.users[id.jid.user].sessions[k].id == id
    ensures var r, b, u := FromSession(s, id, from, to, kind), id.jid.user, s.users[id.jid.user];
      match to
      case Broadcast =>
        var e := Update(u, k, kind); r == Result(s.(users := s.users[b := e.user]), e.out)
      case Unparsable => r == Result(s, [])
      case To(j) =>
        var e := Deliver(u, k, if from.Some? && from.value.user == b then from.value else id.jid, j, kind);
        r == Result(s.(users := s.users[b := e.user]), e.out)
  {
    hide Update, Deliver, HasSession, Live;
    LiveAt(s, id, k);
    var u := s.users[id.jid.user];
    assert SessionOk(u, u.sessions[k]);
    assert s.users[id.jid.user := u] == s.users;
  }
}
