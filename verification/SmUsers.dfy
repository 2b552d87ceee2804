/**
 What every presence and session step keeps of one user: the shape of its sessions,
 the lists A and E, and the cached top session.
 */
module SmUsers {
  import opened Wrappers
  import opened SmModel

  ghost predicate NoDup<T(!new)>(list: seq<T>) {
    forall i, j :: 0 <= i < j < |list| ==> list[i] != list[j]
  }

  ghost predicate SessionOk(u: User, x: Session) {
    && x.jid.user == u.jid && x.id.jid == x.jid
    && NoDup(x.A) && NoDup(x.E)
    && (forall j :: j in x.A ==> j !in x.E && !Trust(u, j))
    && (x.available <==> x.pres.Some?)
  }

  ghost predicate Distinct(sessions: seq<Session>) {
    forall i, j :: 0 <= i < j < |sessions| ==> sessions[i].jid != sessions[j].jid
  }

  ghost predicate UserOk(u: User) {
    && (forall k :: 0 <= k < |u.sessions| ==> SessionOk(u, u.sessions[k]))
    && Distinct(u.sessions)
    && u.top == TopOf(u.sessions)
    && u.available == AnyAvailable(u.sessions)
  }

  // ----- lists of addresses

  lemma {:induction false} ZapRemoves(list: seq<Jid>, j: Jid)
    requires NoDup(list)
    ensures NoDup(Zap(list, j)) && j !in Zap(list, j)
    ensures forall x :: x in Zap(list, j) <==> x in list && x != j
    ensures |Zap(list, j)| == if j in list then |list| - 1 else |list|
  {
    if list != [] {
      assert list == [list[0]] + list[1..];
      assert NoDup(list[1..]);
      if list[0] != j {
        ZapRemoves(list[1..], j);
        var z := Zap(list[1..], j);
        assert list[0] !in list[1..];
        forall p, q | 0 <= p < q < |[list[0]] + z| ensures ([list[0]] + z)[p] != ([list[0]] + z)[q] {
          if p == 0 { assert z[q - 1] in z; }
        }
      }
    }
  }

  lemma AppendKeeps(list: seq<Jid>, j: Jid)
    requires NoDup(list)
    ensures NoDup(Append(list, j))
    ensures forall x :: x in Append(list, j) <==> x in list || x == j
  {}

  /** The first occurrence goes and everything else stays where it is; a new address comes last. */
  lemma {:induction false} ListsInOrder(a: seq<Jid>, j: Jid, b: seq<Jid>)
    requires j !in a
    ensures Zap(a + [j] + b, j) == a + b && Zap(a, j) == a
    ensures Append(a, j) == a + [j] && Append(a + [j] + b, j) == a + [j] + b
  {
    if a == [] {
      assert a + [j] + b == [j] + b && a + b == b;
    } else {
      assert (a + [j] + b)[1..] == a[1..] + [j] + b && (a + b)[1..] == a[1..] + b;
      assert a == [a[0]] + a[1..] && a + b == [a[0]] + (a[1..] + b);
      ListsInOrder(a[1..], j, b);
    }
  }

  // ----- the top session

  /** Session k is available with priority 0 or more, no available one has more, and no later one as much. */
  ghost predicate TopAt(sessions: seq<Session>, k: int) {
    && 0 <= k < |sessions| && sessions[k].available && sessions[k].pri >= 0
    && forall j :: 0 <= j < |sessions| && sessions[j].available ==>
         sessions[j].pri <= sessions[k].pri && (j > k ==> sessions[j].pri < sessions[k].pri)
  }

  /** The last session of maximal priority among those available with priority 0 or more. */
  ghost predicate IsTop(sessions: seq<Session>, top: Option<Session>) {
    match top
    case None => forall j :: 0 <= j < |sessions| ==> !sessions[j].available || sessions[j].pri < 0
    case Some(x) => exists k :: TopAt(sessions, k) && sessions[k] == x
  }

  /** One more session at the end of the scan. */
  lemma TopExtends(sessions: seq<Session>, n: nat, t: Option<Session>)
    requires n + 1 == |sessions| && IsTop(sessions[..n], t)
    ensures var x := sessions[n];
      IsTop(sessions, if x.available && x.pri >= 0 && (t.None? || x.pri >= t.value.pri) then Some(x) else t)
  {
    var x := sessions[n];
    assert forall j :: 0 <= j < n ==> sessions[..n][j] == sessions[j];
    if t.None? {
      if x.available && x.pri >= 0 { assert TopAt(sessions, n); }
    } else {
      var k :| TopAt(sessions[..n], k) && sessions[..n][k] == t.value;
      assert TopAt(sessions, if x.available && x.pri >= t.value.pri then n else k);
    }
  }

  lemma {:induction false} TopSessionIsTop(sessions: seq<Session>)
    ensures IsTop(sessions, TopSession(sessions))
    decreases |sessions|
  {
    if sessions != [] {
      hide IsTop;
      var n := |sessions| - 1;
      TopSessionIsTop(sessions[..n]);
      TopExtends(sessions, n, TopSession(sessions[..n]));
    }
  }

  /** There is only one such session. */
  lemma TopIsUnique(sessions: seq<Session>, s: Option<Session>, t: Option<Session>)
    requires IsTop(sessions, s) && IsTop(sessions, t)
    ensures s == t
  {
    if s.Some? {
      var k :| TopAt(sessions, k) && sessions[k] == s.value;
      if t.Some? {
        var l :| TopAt(sessions, l) && sessions[l] == t.value;
        assert k == l;
      }
    }
    assert forall l :: TopAt(sessions, l) ==> s.Some?;
  }

  /** The cached fields of a user, stated without the scan that computes them. */
  lemma CachedTop(u: User)
    requires UserOk(u)
    ensures exists top :: IsTop(u.sessions, top)
                          && u.top == (if top.None? then None else Some(top.value.id))
    ensures u.available <==> exists k :: 0 <= k < |u.sessions| && u.sessions[k].available
    ensures u.top.Some? ==> exists k :: 0 <= k < |u.sessions| && u.sessions[k].id == u.top.value && u.sessions[k].available
  {
    TopSessionIsTop(u.sessions);
    if u.top.Some? {
      var k :| TopAt(u.sessions, k) && u.sessions[k] == TopSession(u.sessions).value;
    }
  }

  ghost predicate SameRank(a: Session, b: Session) {
    a.id == b.id && a.available == b.available && a.pri == b.pri
  }

  lemma {:induction false} SameTop(a: seq<Session>, b: seq<Session>)
    requires |a| == |b| && forall k :: 0 <= k < |a| ==> SameRank(a[k], b[k])
    ensures TopSession(a).None? <==> TopSession(b).None?
    ensures TopSession(a).Some? ==> SameRank(TopSession(a).value, TopSession(b).value)
    decreases |a|
  {
    if a != [] {
      SameTop(a[..|a| - 1], b[..|b| - 1]);
    }
  }

  lemma SameCache(a: seq<Session>, b: seq<Session>)
    requires |a| == |b| && forall k :: 0 <= k < |a| ==> SameRank(a[k], b[k])
    ensures TopOf(a) == TopOf(b) && AnyAvailable(a) == AnyAvailable(b)
  {
    SameTop(a, b);
    if AnyAvailable(a) {
      var k :| 0 <= k < |a| && a[k].available;
      assert b[k].available;
    }
    if AnyAvailable(b) {
      var k :| 0 <= k < |b| && b[k].available;
      assert a[k].available;
    }
  }

  lemma {:induction false} UnlinkTop(sessions: seq<Session>, i: nat)
    requires i < |sessions| && !sessions[i].available
    ensures TopSession(Unlink(sessions, i)) == TopSession(sessions)
    decreases |sessions|
  {
    var n, r := |sessions| - 1, Unlink(sessions, i);
    if i == n {
      assert r == sessions[..n];
    } else {
      UnlinkTop(sessions[..n], i);
      var u := Unlink(sessions[..n], i);
      assert sessions[..n][..i] == sessions[..i] && sessions[..n][i + 1..] == sessions[i + 1..n];
      assert r == u + [sessions[n]];
      assert r[..|r| - 1] == u && r[|r| - 1] == sessions[n];
    }
  }

  lemma UnlinkAny(sessions: seq<Session>, i: nat)
    requires i < |sessions| && !sessions[i].available
    ensures AnyAvailable(Unlink(sessions, i)) == AnyAvailable(sessions)
  {
    var r := Unlink(sessions, i);
    if AnyAvailable(sessions) {
      var k :| 0 <= k < |sessions| && sessions[k].available;
      assert r[if k < i then k else k - 1] == sessions[k];
    }
    if AnyAvailable(r) {
      var k :| 0 <= k < |r| && r[k].available;
      assert r[k] == sessions[if k < i then k else k + 1];
    }
  }

  lemma PrependTop(x: Session, sessions: seq<Session>)
    requires !x.available
    ensures TopOf([x] + sessions) == TopOf(sessions)
    ensures AnyAvailable([x] + sessions) == AnyAvailable(sessions)
  {
    UnlinkTop([x] + sessions, 0);
    UnlinkAny([x] + sessions, 0);
    assert Unlink([x] + sessions, 0) == sessions;
  }

  // ----- the steps

  lemma GoAvailableKeeps(u: User, i: nat, content: Content)
    requires UserOk(u) && i < |u.sessions|
    ensures UserOk(GoAvailable(u, i, content).user)
  {
    var u' := GoAvailable(u, i, content).user;
    forall k | 0 <= k < |u'.sessions| ensures SessionOk(u', u'.sessions[k]) {
      assert SessionOk(u, u.sessions[k]);
    }
  }

  lemma GoUnavailableKeeps(u: User, i: nat)
    requires UserOk(u) && i < |u.sessions|
    ensures UserOk(GoUnavailable(u, i).user)
  {
    var u' := GoUnavailable(u, i).user;
    forall k | 0 <= k < |u'.sessions| ensures SessionOk(u', u'.sessions[k]) {
      assert SessionOk(u, u.sessions[k]);
    }
  }

  /** Changing only the lists of one session keeps the caches. */
  lemma ListsKeep(u: User, i: nat, a: seq<Jid>, e: seq<Jid>)
    requires UserOk(u) && i < |u.sessions|
    requires NoDup(a) && NoDup(e) && forall j :: j in a ==> j !in e && !Trust(u, j)
    ensures UserOk(Set(u, i, u.sessions[i].(A := a, E := e)))
  {
    var u' := Set(u, i, u.sessions[i].(A := a, E := e));
    SameCache(u.sessions, u'.sessions);
    forall k | 0 <= k < |u'.sessions| ensures SessionOk(u', u'.sessions[k]) {
      assert SessionOk(u, u.sessions[k]);
    }
  }

  lemma InKeeps(u: User, from: Jid, to: Jid, kind: Kind)
    requires UserOk(u)
    ensures UserOk(In(u, from, to, kind).user)
  {
    var u' := In(u, from, to, kind).user;
    if u' != u {
      assert u' == u.(sessions := HearAll(u.sessions, from, to, kind));
      SameCache(u.sessions, u'.sessions);
      forall k | 0 <= k < |u'.sessions| ensures SessionOk(u', u'.sessions[k]) {
        assert SessionOk(u, u.sessions[k]);
        ZapRemoves(u.sessions[k].E, from);
      }
    }
  }

  /** A bounced address moves to E, out of A; nothing else is touched. */
  lemma BounceKeeps(u: User, i: nat, j: Jid)
    requires UserOk(u) && i < |u.sessions|
    ensures UserOk(Bounce(u, i, j))
    ensures var x, y := u.sessions[i], Bounce(u, i, j).sessions[i];
      && j in y.E && j !in y.A && y == x.(A := y.A, E := y.E)
      && forall t :: t != j ==> (t in y.A <==> t in x.A) && (t in y.E <==> t in x.E)
    ensures Bounce(u, i, j) == u.(sessions := u.sessions[i := Bounce(u, i, j).sessions[i]])
  {
    var x := u.sessions[i];
    assert SessionOk(u, x);
    AppendKeeps(x.E, j);
    ZapRemoves(x.A, j);
    ListsKeep(u, i, Zap(x.A, j), Append(x.E, j));
  }

  lemma {:induction false} RepliesShow(sessions: seq<Session>, from: Jid, to: Jid, o: Output)
    ensures o in ReplyAll(sessions, from, to, Probe) ==> o.Routed? && o.to == from && o.kind.Available?
    ensures o in ReplyAll(sessions, from, to, Probe) <==>
      exists k :: 0 <= k < |sessions| && Answers(sessions[k], from, to) && [o] == ReplyOne(sessions[k], from, to, Probe)
    decreases |sessions|
  {
    if sessions != [] {
      var n := |sessions| - 1;
      RepliesShow(sessions[..n], from, to, o);
      if o in ReplyAll(sessions[..n], from, to, Probe) {
        var k :| 0 <= k < n && Answers(sessions[..n][k], from, to) && [o] == ReplyOne(sessions[..n][k], from, to, Probe);
        assert sessions[k] == sessions[..n][k];
      }
      if k :| 0 <= k < n && Answers(sessions[k], from, to) && [o] == ReplyOne(sessions[k], from, to, Probe) {
        assert sessions[k] == sessions[..n][k];
      }
      assert sessions[n] == sessions[n];
    }
  }

  /**
   Trust decides who learns of a user's presence: a probe is answered with an available presence exactly if the
   prober is trusted and an available session other than its own is asked for; an untrusted one is only told that
   it is unsubscribed, and no session changes.
   */
  lemma ProbeShowsIff(u: User, from: Jid, to: Jid)
    requires UserOk(u)
    ensures var e := In(u, from, to, Probe);
      && ((exists o :: o in e.out && o.Routed? && o.to == from && o.kind.Available?) <==>
            Trust(u, from) && exists k :: 0 <= k < |u.sessions| && Answers(u.sessions[k], from, to))
      && (!Trust(u, from) ==> e == Effect(u, [Routed(from, to, Unsubscribed)]))
  {
    hide Trust, ReplyOne, Answers;
    var e := In(u, from, to, Probe);
    if Trust(u, from) && u.available {
      forall o ensures o in e.out ==> exists k :: 0 <= k < |u.sessions| && Answers(u.sessions[k], from, to) {
        RepliesShow(u.sessions, from, to, o);
      }
      if k :| 0 <= k < |u.sessions| && Answers(u.sessions[k], from, to) {
        AnswerIsOne(u.sessions[k], from, to);
        var o := ReplyOne(u.sessions[k], from, to, Probe)[0];
        RepliesShow(u.sessions, from, to, o);
        assert o in e.out;
      }
    } else if k :| 0 <= k < |u.sessions| && Answers(u.sessions[k], from, to) {
      AnswerIsOne(u.sessions[k], from, to);
      assert Trust(u, from) ==> AnyAvailable(u.sessions);
    }
  }

  lemma AnswerIsOne(x: Session, from: Jid, to: Jid)
    requires Answers(x, from, to)
    ensures x.available && |ReplyOne(x, from, to, Probe)| == 1
    ensures ReplyOne(x, from, to, Probe) == [ReplyOne(x, from, to, Probe)[0]]
  {}

  lemma DeliverKeeps(u: User, i: nat, from: Jid, to: Jid, kind: Kind)
    requires UserOk(u) && i < |u.sessions|
    ensures UserOk(Deliver(u, i, from, to, kind).user)
  {
    var x := u.sessions[i];
    assert SessionOk(u, x);
    InKeeps(u, x.jid, to, kind);
    AppendKeeps(x.A, to);
    ZapRemoves(x.A, to);
    ZapRemoves(x.E, to);
    if to.user != x.jid.user && kind.Available? {
      ListsKeep(u, i, if Trust(u, to) then x.A else Append(x.A, to), Zap(x.E, to));
    } else if to.user != x.jid.user && kind.Unavailable? {
      ListsKeep(u, i, Zap(x.A, to), Zap(x.E, to));
    }
  }

  lemma UpdateKeeps(u: User, i: nat, kind: Kind)
    requires UserOk(u) && i < |u.sessions|
    ensures UserOk(Update(u, i, kind).user)
  {
    match kind
    case Available(content) => GoAvailableKeeps(u, i, content);
    case Unavailable => GoUnavailableKeeps(u, i);
    case Probe => InKeeps(u, u.sessions[i].jid, Bare(u.sessions[i].jid), Probe);
    case _ =>
  }

  lemma {:induction false} UnlinkKeeps(u: User, i: nat)
    requires UserOk(u) && i < |u.sessions| && !u.sessions[i].available
    ensures UserOk(u.(sessions := Unlink(u.sessions, i)))
  {
    var u' := u.(sessions := Unlink(u.sessions, i));
    forall k | 0 <= k < |u'.sessions|
      ensures u'.sessions[k] == u.sessions[if k < i then k else k + 1] && SessionOk(u', u'.sessions[k])
    {
      assert SessionOk(u, u.sessions[if k < i then k else k + 1]);
    }
    UnlinkTop(u.sessions, i);
    UnlinkAny(u.sessions, i);
  }

  lemma EndGutsKeeps(u: User, i: nat)
    requires UserOk(u) && i < |u.sessions|
    ensures UserOk(EndGuts(u, i).user)
  {
    hide UserOk, TopOf, AnyAvailable, Unlink;
    if u.sessions[i].available || u.sessions[i].A != [] {
      GoUnavailableKeeps(u, i);
      UnlinkKeeps(GoUnavailable(u, i).user, i);
    } else {
      UnlinkKeeps(u, i);
    }
  }

  lemma PktUserKeeps(u: User, to: Jid, from: Jid, kind: Kind)
    requires UserOk(u)
    ensures UserOk(PktUser(u, to, from, kind).user)
  {
    var m := Match(u.sessions, to.resource);
    var u1 := if kind.Bounced? && m.Some? then Bounce(u, m.value, from) else u;
    if kind.Bounced? && m.Some? {
      BounceKeeps(u, m.value, from);
    }
    InKeeps(u1, from, to, kind);
  }

  /** Ending a session removes that one session and leaves the others in their order and unchanged. */
  lemma EndGutsUnlinks(u: User, i: nat)
    requires i < |u.sessions|
    ensures EndGuts(u, i).user.sessions == u.sessions[..i] + u.sessions[i + 1..]
    ensures EndGuts(u, i).user.jid == u.jid && EndGuts(u, i).user.roster == u.roster
  {}
}
