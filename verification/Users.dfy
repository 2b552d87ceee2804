/**
 sm/pres.c and the per-user half of sm/sess.c: the presence tracker on session and
 user records that are updated in place, proved against SmModel.
 */
module Users {
  import opened Wrappers
  import opened SmModel

  /** Everything sent to the router or to a client, in order. */
  class Wire {
    var log: seq<Output>

    constructor ()
      ensures log == []
    {
      log := [];
    }

    method Send(o: Output)
      modifies this
      ensures log == old(log) + [o]
    {
      log := log + [o];
    }
  }

  class SessionRecord {
    const id: SmId
    const jid: Jid
    var A: seq<Jid>
    var E: seq<Jid>
    var pres: Option<Content>
    var available: bool
    var pri: int

    constructor (id: SmId, jid: Jid)
      ensures this.id == id && this.jid == jid
      ensures View() == Session(id, jid, [], [], None, false, 0)
    {
      this.id, this.jid := id, jid;
      A, E, pres, available, pri := [], [], None, false, 0;
    }

    function View(): Session
      reads this
    {
      Session(id, jid, A, E, pres, available, pri)
    }

    /** `pres_error` */
    method PresError(j: Jid)
      modifies this
      ensures View() == old(View()).(E := Append(old(E), j), A := Zap(old(A), j))
    {
      E := Append(E, j);
      A := Zap(A, j);
    }
  }

  ghost function ViewsOf(records: seq<SessionRecord>): seq<Session>
    reads records
  {
    seq(|records|, i requires 0 <= i < |records| reads records => records[i].View())
  }

  class UserRecord {
    const jid: BareJid
    const roster: seq<Jid>
    var sessions: seq<SessionRecord>
    var top: SessionRecord?
    var available: bool

    constructor (jid: BareJid, roster: seq<Jid>)
      ensures this.jid == jid && this.roster == roster && sessions == [] && fresh(this)
      ensures Valid() && View() == NewUser(jid, roster)
    {
      this.jid, this.roster := jid, roster;
      sessions, top, available := [], null, false;
    }

    ghost predicate Valid()
      reads this
    {
      forall i, j :: 0 <= i < j < |sessions| ==> sessions[i] != sessions[j]
    }

    ghost function View(): User
      reads this, sessions
    {
      User(jid, roster, ViewsOf(sessions), if top == null then None else Some(top.id), available)
    }

    /** `_pres_top` */
    method PresTop()
      requires Valid()
      modifies this`top, this`available
      ensures Valid() && View() == Retop(old(View()))
    {
      hide TopSession, AnyAvailable, ViewsOf;
      ghost var views := ViewsOf(sessions);
      ViewsLength(sessions);
      TopNone(views);
      top := null;
      available := false;
      var n := 0;
      while n < |sessions|
        invariant 0 <= n <= |sessions| && (top == null || top in sessions)
        invariant TopSession(views[..n]) == if top == null then None else Some(top.View())
        invariant available == AnyAvailable(views[..n])
      {
        var scan := sessions[n];
        TopNext(views, n);
        ViewAt(sessions, n);
        if scan.available {
          available := true;
        }
        if scan.available && scan.pri >= 0 {
          if top == null {
            top := scan;
          }
          if scan.pri >= top.pri {
            top := scan;
          }
        }
        n := n + 1;
      }
      assert views[..n] == views;
    }

    /** `pres_trust` */
    method PresTrust(j: Jid) returns (trusted: bool)
      ensures trusted == Trust(View(), j)
    {
      trusted := Bare(j) in roster || j in roster || jid == j.user;
    }

    /** Forwarding a session's presence to the user's other active sessions. */
    method ForwardToSiblings(sess: SessionRecord, ghost i: nat, kind: Kind, wire: Wire)
      requires Valid() && i < |sessions| && sessions[i] == sess
      modifies wire
      ensures wire.log == old(wire.log) + Siblings(View().sessions, |sessions|, i, kind)
    {
      var n := 0;
      while n < |sessions|
        invariant 0 <= n <= |sessions|
        invariant wire.log == old(wire.log) + Siblings(View().sessions, n, i, kind)
      {
        var sscan := sessions[n];
        if sscan != sess && sscan.available {
          wire.Send(Routed(sscan.jid, sess.jid, kind));
        }
        n := n + 1;
      }
    }

    method AnnounceItem(sess: SessionRecord, item: Jid, content: Content, wire: Wire)
      modifies wire
      ensures wire.log == old(wire.log) + ItemAvailable(sess.View(), item, content)
    {
      if !sess.available {
        wire.Send(Routed(item, Bare(sess.jid), Probe));
      }
      if item !in sess.E {
        wire.Send(Routed(item, sess.jid, Available(content)));
      }
    }

    /** The roster walk of an available update; `self` is whether it probed the user itself. */
    method AnnounceToRoster(sess: SessionRecord, content: Content, wire: Wire) returns (self: bool)
      modifies wire
      ensures self <==> !sess.available && Bare(sess.jid) in roster
      ensures wire.log == old(wire.log) + RosterAvailable(sess.View(), roster, content)
    {
      hide ItemAvailable, RosterAvailable;
      self := false;
      var r := 0;
      RosterNext(sess.View(), roster, 0, content);
      while r < |roster|
        invariant 0 <= r <= |roster|
        invariant self <==> !sess.available && Bare(sess.jid) in roster[..r]
        invariant wire.log == old(wire.log) + RosterAvailable(sess.View(), roster[..r], content)
      {
        RosterNext(sess.View(), roster, r, content);
        assert roster[..r + 1] == roster[..r] + [roster[r]];
        AnnounceItem(sess, roster[r], content, wire);
        if !sess.available && Bare(sess.jid) == roster[r] {
          self := true;
        }
        r := r + 1;
      }
      assert roster[..r] == roster;
    }

    /** The available case of `pres_update`. */
    method BecomeAvailable(sess: SessionRecord, ghost i: nat, content: Content, wire: Wire)
      requires Valid() && i < |sessions| && sessions[i] == sess
      modifies this`top, this`available, sess`pres, sess`available, sess`pri, wire
      ensures Valid() && View() == GoAvailable(old(View()), i, content).user
      ensures wire.log == old(wire.log) + GoAvailable(old(View()), i, content).out
    {
      hide RosterAvailable, Siblings, TopOf, AnyAvailable, ViewsOf;
      ViewAt(sessions, i);
      ghost var u, s := View(), sess.View();
      var self := AnnounceToRoster(sess, content, wire);
      if !self && !sess.available {
        wire.Send(Routed(Bare(sess.jid), Bare(sess.jid), Probe));
      }
      assert wire.log == old(wire.log) + (RosterAvailable(s, roster, content) + SelfProbe(u, s));
      ForwardToSiblings(sess, i, Available(content), wire);
      assert wire.log == old(wire.log) + GoAvailable(u, i, content).out;
      Remember(sess, i, content);
      PresTop();
    }

    /** The session's own fields after an available update. */
    method Remember(sess: SessionRecord, ghost i: nat, content: Content)
      requires Valid() && i < |sessions| && sessions[i] == sess
      modifies sess`pres, sess`available, sess`pri
      ensures Valid()
      ensures View() == Set(old(View()), i, old(sess.View()).(pres := Some(content), available := true, pri := content.pri))
    {
      sess.pres, sess.available, sess.pri := Some(content), true, content.pri;
      assert View().sessions == Set(old(View()), i, sess.View()).sessions;
    }

    /** The walk over the roster of an unavailable update. */
    method DenounceRoster(sess: SessionRecord, wire: Wire)
      modifies wire
      ensures wire.log == old(wire.log) + RosterUnavailable(sess.View(), roster)
    {
      var r := 0;
      while r < |roster|
        invariant 0 <= r <= |roster|
        invariant wire.log == old(wire.log) + RosterUnavailable(sess.View(), roster[..r])
      {
        assert roster[..r + 1] == roster[..r] + [roster[r]] && roster[..r + 1][..r] == roster[..r];
        if roster[r] !in sess.E {
          wire.Send(Routed(roster[r], sess.jid, Unavailable));
        }
        r := r + 1;
      }
      assert roster[..r] == roster;
    }

    /** The walk over A. */
    method DenounceDirected(sess: SessionRecord, wire: Wire)
      modifies wire
      ensures wire.log == old(wire.log) + DirectedUnavailable(View(), sess.View(), sess.A)
    {
      hide Trust, ViewsOf;
      var a := 0;
      while a < |sess.A|
        invariant 0 <= a <= |sess.A|
        invariant wire.log == old(wire.log) + DirectedUnavailable(View(), sess.View(), sess.A[..a])
      {
        assert sess.A[..a + 1] == sess.A[..a] + [sess.A[a]] && sess.A[..a + 1][..a] == sess.A[..a];
        var trusted := PresTrust(sess.A[a]);
        if !trusted {
          wire.Send(Routed(sess.A[a], sess.jid, Unavailable));
        }
        a := a + 1;
      }
      assert sess.A[..a] == sess.A;
    }

    /** The unavailable case of `pres_update`. */
    method BecomeUnavailable(sess: SessionRecord, ghost i: nat, wire: Wire)
      requires Valid() && i < |sessions| && sessions[i] == sess
      modifies this`top, this`available, sess, wire
      ensures Valid() && View() == GoUnavailable(old(View()), i).user
      ensures wire.log == old(wire.log) + GoUnavailable(old(View()), i).out
    {
      hide RosterUnavailable, DirectedUnavailable, Siblings, TopOf, AnyAvailable, ViewsOf, Trust;
      ViewAt(sessions, i);
      ghost var u, s := View(), sess.View();
      DropCached(sess, i);
      DenounceRoster(sess, wire);
      DenounceDirected(sess, wire);
      PresIgnored(u, View(), s, s.(pres := None));
      assert wire.log == old(wire.log) + (RosterUnavailable(s, roster) + DirectedUnavailable(u, s, s.A));
      SiblingsIgnore(u.sessions, View().sessions, |sessions|, i, Unavailable);
      ForwardToSiblings(sess, i, Unavailable, wire);
      assert wire.log == old(wire.log) + GoUnavailable(u, i).out;
      Forget(sess, i);
      assert View() == Set(u, i, s.(pres := None, A := [], E := [], available := false));
      PresTop();
    }

    method DropCached(sess: SessionRecord, ghost i: nat)
      requires Valid() && i < |sessions| && sessions[i] == sess
      modifies sess`pres
      ensures Valid()
      ensures View() == Set(old(View()), i, old(sess.View()).(pres := None)) && |View().sessions| == |sessions|
      ensures sess.View() == old(sess.View()).(pres := None)
    {
      sess.pres := None;
      assert View().sessions == Set(old(View()), i, sess.View()).sessions;
    }

    /** Dropping A, E and the availability. */
    method Forget(sess: SessionRecord, ghost i: nat)
      requires Valid() && i < |sessions| && sessions[i] == sess
      modifies sess`A, sess`E, sess`available
      ensures Valid() && View() == Set(old(View()), i, old(sess.View()).(A := [], E := [], available := false))
    {
      sess.A, sess.E, sess.available := [], [], false;
      assert View().sessions == Set(old(View()), i, sess.View()).sessions;
    }

    /** The session loop of `pres_in`. */
    method Hear(from: Jid, to: Jid, kind: Kind, wire: Wire)
      requires Valid()
      modifies sessions, wire
      ensures Valid() && ViewsOf(sessions) == HearAll(old(ViewsOf(sessions)), from, to, kind)
      ensures wire.log == old(wire.log) + ReplyAll(old(ViewsOf(sessions)), from, to, kind)
    {
      hide HearOne, ReplyOne, HearAll, ReplyAll, ViewsOf, HeardTo;
      ghost var views := ViewsOf(sessions);
      ViewsLength(sessions);
      HearEnds(views, from, to, kind);
      var n := 0;
      while n < |sessions|
        invariant 0 <= n <= |sessions|
        invariant ViewsOf(sessions) == HeardTo(views, n, from, to, kind)
        invariant wire.log == old(wire.log) + ReplyAll(views[..n], from, to, kind)
      {
        HearNext(views, n, from, to, kind);
        HearAt(n, from, to, kind, wire);
        n := n + 1;
      }
      assert views[..n] == views;
    }

    method HearAt(n: nat, from: Jid, to: Jid, kind: Kind, wire: Wire)
      requires Valid() && n < |sessions|
      modifies sessions[n], wire
      ensures ViewsOf(sessions) == old(ViewsOf(sessions))[n := HearOne(old(ViewsOf(sessions))[n], from, to, kind)]
      ensures wire.log == old(wire.log) + ReplyOne(old(ViewsOf(sessions))[n], from, to, kind)
    {
      hide HearOne, ReplyOne;
      HearSession(sessions[n], from, to, kind, wire);
    }

    /** The body of that loop: whether and how one session takes part. */
    method HearSession(scan: SessionRecord, from: Jid, to: Jid, kind: Kind, wire: Wire)
      modifies scan`E, wire
      ensures scan.View() == HearOne(old(scan.View()), from, to, kind)
      ensures wire.log == old(wire.log) + ReplyOne(old(scan.View()), from, to, kind)
    {
      if !scan.available { return; }
      if from == scan.jid { return; }
      if kind.Probe? {
        if to.resource != "" {
          if to != scan.jid { return; }
          wire.Send(Routed(from, to, Available(SIMPLE)));
        } else {
          wire.Send(Routed(from, scan.jid, Available(if scan.pres.Some? then scan.pres.value else SIMPLE)));
        }
        scan.E := Zap(scan.E, from);
        return;
      }
      wire.Send(Delivered(scan.id, from, kind));
    }

    /** `pres_in` */
    method PresIn(from: Jid, to: Jid, kind: Kind, wire: Wire)
      requires Valid()
      modifies sessions, wire
      ensures Valid() && View() == In(old(View()), from, to, kind).user
      ensures wire.log == old(wire.log) + In(old(View()), from, to, kind).out
    {
      if kind.Probe? {
        var trusted := PresTrust(from);
        if !trusted {
          wire.Send(Routed(from, to, Unsubscribed));
          return;
        }
        if !available { return; }
      }
      Hear(from, to, kind, wire);
    }

    /** `pres_update` */
    method PresUpdate(sess: SessionRecord, ghost i: nat, kind: Kind, wire: Wire)
      requires Valid() && i < |sessions| && sessions[i] == sess
      modifies this`top, this`available, sessions, wire
      ensures Valid() && View() == Update(old(View()), i, kind).user
      ensures wire.log == old(wire.log) + Update(old(View()), i, kind).out
    {
      match kind {
        case Available(content) => BecomeAvailable(sess, i, content, wire);
        case Unavailable => BecomeUnavailable(sess, i, wire);
        case Probe => PresIn(sess.jid, Bare(sess.jid), Probe, wire);
        case _ =>
      }
    }

    /** `pres_deliver` */
    method PresDeliver(sess: SessionRecord, ghost i: nat, from: Jid, to: Jid, kind: Kind, wire: Wire)
      requires Valid() && i < |sessions| && sessions[i] == sess
      modifies sessions, wire
      ensures Valid() && View() == Deliver(old(View()), i, from, to, kind).user
      ensures wire.log == old(wire.log) + Deliver(old(View()), i, from, to, kind).out
    {
      ghost var u, s := View(), sess.View();
      if to.user == sess.jid.user {
        PresIn(sess.jid, to, kind, wire);
      } else if kind.Available? {
        var trusted := PresTrust(to);
        if !trusted {
          sess.A := Append(sess.A, to);
        }
        sess.E := Zap(sess.E, to);
        wire.Send(Routed(to, from, kind));
        assert View().sessions == u.sessions[i := s.(A := sess.A, E := sess.E)];
      } else if kind.Unavailable? {
        sess.A := Zap(sess.A, to);
        sess.E := Zap(sess.E, to);
        wire.Send(Routed(to, from, kind));
        assert View().sessions == u.sessions[i := s.(A := sess.A, E := sess.E)];
      }
    }

    /** `sess_match` */
    method SessMatch(resource: string) returns (sess: SessionRecord?, ghost m: Option<nat>)
      ensures m == Match(ViewsOf(sessions), resource)
      ensures sess == if m.None? then null else sessions[m.value]
    {
      ghost var views := ViewsOf(sessions);
      sess, m := null, None;
      var n := 0;
      while n < |sessions|
        invariant 0 <= n <= |sessions| && Match(views[..n], resource).None?
      {
        assert views[..n + 1][..n] == views[..n];
        if sessions[n].jid.resource == resource {
          sess, m := sessions[n], Some(n);
          MatchIsFirst(views, resource, n);
          return;
        }
        n := n + 1;
      }
      assert views[..n] == views;
    }

    /** `_presence_pkt_user` */
    method PresPktUser(to: Jid, from: Jid, kind: Kind, wire: Wire)
      requires Valid()
      modifies sessions, wire
      ensures Valid() && View() == PktUser(old(View()), to, from, kind).user
      ensures wire.log == old(wire.log) + PktUser(old(View()), to, from, kind).out
    {
      ghost var u := View();
      var sess, m := SessMatch(to.resource);
      if kind.Bounced? {
        if sess == null { return; }
        sess.PresError(from);
        assert View().sessions == Bounce(u, m.value, from).sessions;
        assert View() == Bounce(u, m.value, from);
        if kind.probe { return; }
      }
      if to.resource != "" {
        if sess != null {
          wire.Send(Delivered(sess.id, from, kind));
        }
        return;
      }
      PresIn(from, to, kind, wire);
    }

    /** `_sess_end_guts`, as far as this user is concerned: the last presence and the unlinking. */
    method EndSession(sess: SessionRecord, ghost i: nat, wire: Wire)
      requires Valid() && i < |sessions| && sessions[i] == sess
      modifies this`top, this`available, this`sessions, sess, wire
      ensures Valid() && View() == EndGuts(old(View()), i).user
      ensures sessions == old(sessions)[..i] + old(sessions)[i + 1..]
      ensures wire.log == old(wire.log) + EndGuts(old(View()), i).out
    {
      if sess.available || sess.A != [] {
        BecomeUnavailable(sess, i, wire);
      }
      Detach(sess, i);
    }

    /** Unlinking a session from the list. */
    method Detach(sess: SessionRecord, ghost i: nat)
      requires Valid() && i < |sessions| && sessions[i] == sess
      modifies this`sessions
      ensures Valid() && sessions == old(sessions)[..i] + old(sessions)[i + 1..]
      ensures View() == old(View()).(sessions := Unlink(old(View()).sessions, i))
    {
      if sessions[0] == sess {
        sessions := sessions[1..];
      } else {
        var scan := 0;
        while scan + 1 < |sessions| && sessions[scan + 1] != sess
          invariant scan < i
          decreases |sessions| - scan
        {
          scan := scan + 1;
        }
        sessions := sessions[..scan + 1] + sessions[scan + 2..];
      }
      assert View().sessions == Unlink(old(View()).sessions, i);
    }
  }

  lemma {:induction false} MatchIsFirst(sessions: seq<Session>, resource: string, n: nat)
    requires n < |sessions| && sessions[n].jid.resource == resource
    requires Match(sessions[..n], resource).None?
    ensures Match(sessions, resource) == Some(n)
    decreases |sessions|
  {
    var last := |sessions| - 1;
    if n < last {
      assert sessions[..last][..n] == sessions[..n];
      MatchIsFirst(sessions[..last], resource, n);
    }
  }

  /** Whom an unavailable presence goes to does not depend on the cached presence. */
  lemma PresIgnored(u: User, v: User, s: Session, t: Session)
    requires u.jid == v.jid && u.roster == v.roster && s.jid == t.jid && s.E == t.E
    ensures RosterUnavailable(s, u.roster) == RosterUnavailable(t, u.roster)
    ensures DirectedUnavailable(u, s, s.A) == DirectedUnavailable(v, t, s.A)
  {
    RosterIgnores(s, t, u.roster);
    DirectedIgnores(u, v, s, t, s.A);
  }

  lemma {:induction false} RosterIgnores(s: Session, t: Session, items: seq<Jid>)
    requires s.jid == t.jid && s.E == t.E
    ensures RosterUnavailable(s, items) == RosterUnavailable(t, items)
    decreases |items|
  {
    if items != [] { RosterIgnores(s, t, items[..|items| - 1]); }
  }

  lemma {:induction false} DirectedIgnores(u: User, v: User, s: Session, t: Session, list: seq<Jid>)
    requires u.jid == v.jid && u.roster == v.roster && s.jid == t.jid
    ensures DirectedUnavailable(u, s, list) == DirectedUnavailable(v, t, list)
    decreases |list|
  {
    if list != [] { DirectedIgnores(u, v, s, t, list[..|list| - 1]); }
  }

  lemma ViewAt(records: seq<SessionRecord>, i: nat)
    requires i < |records|
    ensures |ViewsOf(records)| == |records| && ViewsOf(records)[i] == records[i].View()
  {}

  /** One more item of the roster walk. */
  lemma RosterNext(s: Session, roster: seq<Jid>, r: nat, content: Content)
    requires r <= |roster|
    ensures RosterAvailable(s, roster[..0], content) == []
    ensures r < |roster| ==> RosterAvailable(s, roster[..r + 1], content)
                             == RosterAvailable(s, roster[..r], content) + ItemAvailable(s, roster[r], content)
  {
    hide ItemAvailable;
    if r < |roster| { assert roster[..r + 1][..r] == roster[..r]; }
  }

  /** The sessions after the loop in `pres_in` has been through the first n. */
  function HeardTo(views: seq<Session>, n: nat, from: Jid, to: Jid, kind: Kind): seq<Session>
    requires n <= |views|
  {
    HearAll(views[..n], from, to, kind) + views[n..]
  }

  lemma HearEnds(views: seq<Session>, from: Jid, to: Jid, kind: Kind)
    ensures HeardTo(views, 0, from, to, kind) == views && ReplyAll(views[..0], from, to, kind) == []
    ensures HeardTo(views, |views|, from, to, kind) == HearAll(views, from, to, kind)
  {
    assert views[..|views|] == views;
  }

  /** One more session. */
  lemma HearNext(views: seq<Session>, n: nat, from: Jid, to: Jid, kind: Kind)
    requires n < |views|
    ensures var before := HeardTo(views, n, from, to, kind);
            && |before| == |views| && before[n] == views[n]
            && before[n := HearOne(views[n], from, to, kind)] == HeardTo(views, n + 1, from, to, kind)
    ensures ReplyAll(views[..n + 1], from, to, kind)
         == ReplyAll(views[..n], from, to, kind) + ReplyOne(views[n], from, to, kind)
  {
    assert views[..n + 1][..n] == views[..n];
    assert HearAll(views[..n + 1], from, to, kind) == HearAll(views[..n], from, to, kind) + [HearOne(views[n], from, to, kind)];
  }

  lemma ViewsLength(records: seq<SessionRecord>)
    ensures |ViewsOf(records)| == |records|
  {}

  lemma TopNone(views: seq<Session>)
    ensures TopSession(views[..0]) == None && !AnyAvailable(views[..0])
  {}

  /** One more session of the scan in `_pres_top`. */
  lemma TopNext(views: seq<Session>, n: nat)
    requires n < |views|
    ensures var t := TopSession(views[..n]);
            TopSession(views[..n + 1]) ==
              if !views[n].available || views[n].pri < 0 then t
              else if t.None? || views[n].pri >= t.value.pri then Some(views[n]) else t
    ensures AnyAvailable(views[..n + 1]) <==> AnyAvailable(views[..n]) || views[n].available
  {
    assert views[..n + 1][..n] == views[..n] && views[..n + 1] == views[..n] + [views[n]];
    AnySnoc(views[..n], views[n]);
  }

  lemma AnySnoc(a: seq<Session>, x: Session)
    ensures AnyAvailable(a + [x]) <==> AnyAvailable(a) || x.available
  {
    if AnyAvailable(a) {
      var k :| 0 <= k < |a| && a[k].available;
      assert (a + [x])[k].available;
    }
    assert (a + [x])[|a|] == x;
  }

  /** Only the other sessions' availability and addresses matter for forwarding. */
  lemma {:induction false} SiblingsIgnore(a: seq<Session>, b: seq<Session>, n: nat, i: nat, kind: Kind)
    requires |a| == |b| && i < |a| && n <= |a|
    requires forall k :: 0 <= k < |a| && k != i ==> a[k] == b[k]
    requires a[i].jid == b[i].jid
    ensures Siblings(a, n, i, kind) == Siblings(b, n, i, kind)
  {
    if n > 0 { SiblingsIgnore(a, b, n - 1, i, kind); }
  }
}
