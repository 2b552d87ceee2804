/**
 No stale presence: what a session's contacts were last told about it, against the
 lists that decide whom its unavailable presence goes to.
 */
module SmPresence {
  import opened Wrappers
  import opened SmModel
  import opened SmUsers

  /** The last availability that these packets tell `t` about the session with address `me`. */
  function LastWord(out: seq<Output>, me: Jid, t: Jid): Option<bool>
    decreases |out|
  {
    if out == [] then None
    else match out[|out| - 1]
      case Routed(to, from, Available(_)) =>
        if to == t && from == me then Some(true) else LastWord(out[..|out| - 1], me, t)
      case Routed(to, from, Unavailable) =>
        if to == t && from == me then Some(false) else LastWord(out[..|out| - 1], me, t)
      case _ => LastWord(out[..|out| - 1], me, t)
  }

  lemma {:induction false} LastOfConcat(a: seq<Output>, b: seq<Output>, me: Jid, t: Jid)
    ensures LastWord(a + b, me, t) == if LastWord(b, me, t).Some? then LastWord(b, me, t) else LastWord(a, me, t)
    decreases |b|
  {
    if b == [] {
      assert a + b == a;
    } else {
      assert (a + b)[..|a + b| - 1] == a + b[..|b| - 1];
      LastOfConcat(a, b[..|b| - 1], me, t);
    }
  }

  lemma LastOfOne(o: Output, me: Jid, t: Jid)
    ensures LastWord([o], me, t) ==
            if o.Routed? && o.to == t && o.from == me && o.kind.Available? then Some(true)
            else if o.Routed? && o.to == t && o.from == me && o.kind.Unavailable? then Some(false)
            else None
  {
    assert [o][..0] == [];
  }

  // ----- what each kind of output says

  lemma {:induction false} LastOfRosterAvailable(s: Session, items: seq<Jid>, content: Content, me: Jid, t: Jid)
    ensures LastWord(RosterAvailable(s, items, content), me, t) ==
            if me == s.jid && t in items && t !in s.E then Some(true) else None
    decreases |items|
  {
    if items != [] {
      var n := |items| - 1;
      assert items == items[..n] + [items[n]];
      LastOfRosterAvailable(s, items[..n], content, me, t);
      var a := if s.available then [] else [Routed(items[n], Bare(s.jid), Probe)];
      var b := if items[n] in s.E then [] else [Routed(items[n], s.jid, Available(content))];
      LastOfConcat(RosterAvailable(s, items[..n], content), a + b, me, t);
      LastOfConcat(a, b, me, t);
      LastOfOne(Routed(items[n], Bare(s.jid), Probe), me, t);
      LastOfOne(Routed(items[n], s.jid, Available(content)), me, t);
    }
  }

  lemma {:induction false} LastOfRosterUnavailable(s: Session, items: seq<Jid>, me: Jid, t: Jid)
    ensures LastWord(RosterUnavailable(s, items), me, t) ==
            if me == s.jid && t in items && t !in s.E then Some(false) else None
    decreases |items|
  {
    if items != [] {
      var n := |items| - 1;
      assert items == items[..n] + [items[n]];
      LastOfRosterUnavailable(s, items[..n], me, t);
      var b := if items[n] in s.E then [] else [Routed(items[n], s.jid, Unavailable)];
      LastOfConcat(RosterUnavailable(s, items[..n]), b, me, t);
      LastOfOne(Routed(items[n], s.jid, Unavailable), me, t);
    }
  }

  lemma {:induction false} LastOfDirected(u: User, s: Session, list: seq<Jid>, me: Jid, t: Jid)
    ensures LastWord(DirectedUnavailable(u, s, list), me, t) ==
            if me == s.jid && t in list && !Trust(u, t) then Some(false) else None
    decreases |list|
  {
    if list != [] {
      var n := |list| - 1;
      assert list == list[..n] + [list[n]];
      LastOfDirected(u, s, list[..n], me, t);
      var b := if Trust(u, list[n]) then [] else [Routed(list[n], s.jid, Unavailable)];
      LastOfConcat(DirectedUnavailable(u, s, list[..n]), b, me, t);
      LastOfOne(Routed(list[n], s.jid, Unavailable), me, t);
    }
  }

  /** Forwarding among a user's own sessions says nothing to anyone else, nor about other sessions. */
  lemma {:induction false} LastOfSiblings(u: User, n: nat, i: nat, kind: Kind, me: Jid, t: Jid)
    requires UserOk(u) && i < |u.sessions| && n <= |u.sessions|
    requires t.user != u.jid || me != u.sessions[i].jid
    ensures LastWord(Siblings(u.sessions, n, i, kind), me, t) == None
  {
    if n > 0 {
      LastOfSiblings(u, n - 1, i, kind, me, t);
      var b := if n - 1 != i && u.sessions[n - 1].available
               then [Routed(u.sessions[n - 1].jid, u.sessions[i].jid, kind)] else [];
      LastOfConcat(Siblings(u.sessions, n - 1, i, kind), b, me, t);
      assert SessionOk(u, u.sessions[n - 1]);
      LastOfOne(Routed(u.sessions[n - 1].jid, u.sessions[i].jid, kind), me, t);
    }
  }

  /** The session with address `me` answers a probe. */
  ghost predicate AnswersAs(sessions: seq<Session>, from: Jid, to: Jid, me: Jid) {
    exists k :: 0 <= k < |sessions| && sessions[k].jid == me && Answers(sessions[k], from, to)
  }

  lemma AnswersAsSnoc(sessions: seq<Session>, x: Session, from: Jid, to: Jid, me: Jid)
    ensures AnswersAs(sessions + [x], from, to, me) <==>
            AnswersAs(sessions, from, to, me) || (x.jid == me && Answers(x, from, to))
  {
    var all := sessions + [x];
    if AnswersAs(sessions, from, to, me) {
      var k :| 0 <= k < |sessions| && sessions[k].jid == me && Answers(sessions[k], from, to);
      assert all[k] == sessions[k];
    }
    assert all[|sessions|] == x;
  }

  lemma LastOfReply(x: Session, from: Jid, to: Jid, kind: Kind, me: Jid, t: Jid)
    ensures LastWord(ReplyOne(x, from, to, kind), me, t) ==
            if kind.Probe? && t == from && x.jid == me && Answers(x, from, to) then Some(true) else None
  {
    var r := ReplyOne(x, from, to, kind);
    if r != [] {
      assert r == [r[0]];
      LastOfOne(r[0], me, t);
    }
  }

  /** Only the session `me` that answers says anything, and only to the prober. */
  lemma {:induction false} LastOfReplies(sessions: seq<Session>, from: Jid, to: Jid, kind: Kind, me: Jid, t: Jid)
    ensures LastWord(ReplyAll(sessions, from, to, kind), me, t) ==
            if kind.Probe? && t == from && AnswersAs(sessions, from, to, me) then Some(true) else None
    decreases |sessions|
  {
    if sessions != [] {
      hide Answers, ReplyOne, AnswersAs;
      var n := |sessions| - 1;
      assert sessions == sessions[..n] + [sessions[n]];
      AnswersAsSnoc(sessions[..n], sessions[n], from, to, me);
      LastOfReplies(sessions[..n], from, to, kind, me, t);
      LastOfReply(sessions[n], from, to, kind, me, t);
      LastOfConcat(ReplyAll(sessions[..n], from, to, kind), ReplyOne(sessions[n], from, to, kind), me, t);
    }
  }

  // ----- accounting for what was said

  /** Whoever believes this session available will be told otherwise: a roster item is
      not in E, an untrusted address is in A. */
  predicate Accounted(u: User, x: Session, t: Jid) {
    && (t in u.roster ==> t !in x.E)
    && (!Trust(u, t) ==> t in x.A)
  }

  /** The step of session x to x' that writes `out` keeps the account of `t`. */
  predicate Keeps(u: User, x: Session, u': User, x': Session, out: seq<Output>, t: Jid) {
    match LastWord(out, x.jid, t)
    case Some(available) => available ==> Accounted(u', x', t)
    case None => Accounted(u, x, t) ==> Accounted(u', x', t)
  }

  lemma GoAvailableAccounts(u: User, i: nat, content: Content, k: nat, t: Jid)
    requires UserOk(u) && i < |u.sessions| && k < |u.sessions| && t.user != u.jid
    ensures var e := GoAvailable(u, i, content);
            Keeps(u, u.sessions[k], e.user, e.user.sessions[k], e.out, t)
  {
    var s, me := u.sessions[i], u.sessions[k].jid;
    var a, b := RosterAvailable(s, u.roster, content), SelfProbe(u, s);
    LastOfRosterAvailable(s, u.roster, content, me, t);
    LastOfConcat(a, b, me, t);
    LastOfOne(Routed(Bare(s.jid), Bare(s.jid), Probe), me, t);
    LastOfSiblings(u, |u.sessions|, i, Available(content), me, t);
    LastOfConcat(a + b, Siblings(u.sessions, |u.sessions|, i, Available(content)), me, t);
  }

  /** Whom the unavailable presence of a session goes to, apart from the user's own sessions. */
  lemma GoUnavailableTells(u: User, i: nat, k: nat, t: Jid)
    requires UserOk(u) && i < |u.sessions| && k < |u.sessions| && t.user != u.jid
    ensures LastWord(GoUnavailable(u, i).out, u.sessions[k].jid, t) ==
            if k == i && ((t in u.roster && t !in u.sessions[i].E) || (!Trust(u, t) && t in u.sessions[i].A))
            then Some(false) else None
  {
    var s, me := u.sessions[i], u.sessions[k].jid;
    var a, b := RosterUnavailable(s, u.roster), DirectedUnavailable(u, s, s.A);
    LastOfRosterUnavailable(s, u.roster, me, t);
    LastOfDirected(u, s, s.A, me, t);
    LastOfConcat(a, b, me, t);
    LastOfSiblings(u, |u.sessions|, i, Unavailable, me, t);
    LastOfConcat(a + b, Siblings(u.sessions, |u.sessions|, i, Unavailable), me, t);
  }

  lemma GoUnavailableAccounts(u: User, i: nat, k: nat, t: Jid)
    requires UserOk(u) && i < |u.sessions| && k < |u.sessions| && t.user != u.jid
    ensures var e := GoUnavailable(u, i);
            Keeps(u, u.sessions[k], e.user, e.user.sessions[k], e.out, t)
  {
    GoUnavailableTells(u, i, k, t);
  }

  lemma InAccounts(u: User, from: Jid, to: Jid, kind: Kind, k: nat, t: Jid)
    requires UserOk(u) && k < |u.sessions|
    ensures var e := In(u, from, to, kind);
            Keeps(u, u.sessions[k], e.user, e.user.sessions[k], e.out, t)
  {
    var x, e := u.sessions[k], In(u, from, to, kind);
    assert SessionOk(u, x);
    ZapRemoves(x.E, from);
    if kind.Probe? && !Trust(u, from) {
      LastOfOne(Routed(from, to, Unsubscribed), x.jid, t);
    } else if !(kind.Probe? && !u.available) {
      LastOfReplies(u.sessions, from, to, kind, x.jid, t);
    }
  }

  /** Session i shows itself to t under the address of another session k, which does not account for t. */
  predicate Lends(u: User, i: nat, from: Jid, to: Jid, kind: Kind, k: nat, t: Jid)
    requires i < |u.sessions| && k < |u.sessions|
  {
    i != k && to == t && kind.Available? && from == u.sessions[k].jid && !Accounted(u, u.sessions[k], t)
  }

  /** Session k takes the untrusted t out of A with an unavailable presence under another address. */
  predicate Withdraws(u: User, i: nat, from: Jid, to: Jid, kind: Kind, k: nat, t: Jid)
    requires i < |u.sessions| && k < |u.sessions|
  {
    i == k && to == t && kind.Unavailable? && from != u.sessions[k].jid && !Trust(u, t) && t in u.sessions[k].A
  }

  /** Directed presence keeps the account of t with session k except in exactly these two cases. */
  lemma DeliverAccountsIff(u: User, i: nat, from: Jid, to: Jid, kind: Kind, k: nat, t: Jid)
    requires UserOk(u) && i < |u.sessions| && k < |u.sessions| && t.user != u.jid
    ensures var e := Deliver(u, i, from, to, kind);
            Keeps(u, u.sessions[k], e.user, e.user.sessions[k], e.out, t) <==>
            !Lends(u, i, from, to, kind, k, t) && !Withdraws(u, i, from, to, kind, k, t)
  {
    var s, x := u.sessions[i], u.sessions[k];
    assert SessionOk(u, s) && SessionOk(u, x);
    if to.user == s.jid.user {
      InAccounts(u, s.jid, to, kind, k, t);
    } else {
      LastOfOne(Routed(to, from, kind), x.jid, t);
      AppendKeeps(s.A, to);
      ZapRemoves(s.A, to);
      ZapRemoves(s.E, to);
    }
  }

  lemma UpdateAccounts(u: User, i: nat, kind: Kind, k: nat, t: Jid)
    requires UserOk(u) && i < |u.sessions| && k < |u.sessions| && t.user != u.jid
    ensures var e := Update(u, i, kind);
            Keeps(u, u.sessions[k], e.user, e.user.sessions[k], e.out, t)
  {
    match kind
    case Available(content) => GoAvailableAccounts(u, i, content, k, t);
    case Unavailable => GoUnavailableAccounts(u, i, k, t);
    case Probe => InAccounts(u, u.sessions[i].jid, Bare(u.sessions[i].jid), Probe, k, t);
    case _ =>
  }

  /** A bounce only touches the account of the address that bounced. */
  lemma BounceAccounts(u: User, i: nat, j: Jid, k: nat, t: Jid)
    requires UserOk(u) && i < |u.sessions| && k < |u.sessions|
    requires i == k ==> t != j
    ensures Accounted(u, u.sessions[k], t) ==> Accounted(Bounce(u, i, j), Bounce(u, i, j).sessions[k], t)
  {
    assert SessionOk(u, u.sessions[i]);
    AppendKeeps(u.sessions[i].E, j);
    ZapRemoves(u.sessions[i].A, j);
  }

  lemma PktUserAccounts(u: User, to: Jid, from: Jid, kind: Kind, k: nat, t: Jid)
    requires UserOk(u) && k < |u.sessions|
    requires !(kind.Bounced? && from == t && Match(u.sessions, to.resource) == Some(k))
    ensures var e := PktUser(u, to, from, kind);
            |e.user.sessions| == |u.sessions|
            && Keeps(u, u.sessions[k], e.user, e.user.sessions[k], e.out, t)
  {
    var m, me := Match(u.sessions, to.resource), u.sessions[k].jid;
    var u1 := if kind.Bounced? && m.Some? then Bounce(u, m.value, from) else u;
    if kind.Bounced? && m.Some? {
      BounceKeeps(u, m.value, from);
      BounceAccounts(u, m.value, from, k, t);
    }
    InAccounts(u1, from, to, kind, k, t);
    if m.Some? {
      LastOfOne(Delivered(u1.sessions[m.value].id, from, kind), me, t);
    }
  }

  /**
   At the end of a session every accounted contact is told, exactly if the session is available or has used
   directed presence.
   */
  lemma EndGutsTells(u: User, i: nat, t: Jid)
    requires UserOk(u) && i < |u.sessions| && t.user != u.jid
    requires Accounted(u, u.sessions[i], t) && (t in u.roster || !Trust(u, t))
    ensures LastWord(EndGuts(u, i).out, u.sessions[i].jid, t) == Some(false) <==>
            u.sessions[i].available || u.sessions[i].A != []
    ensures !Trust(u, t) ==> LastWord(EndGuts(u, i).out, u.sessions[i].jid, t) == Some(false)
  {
    GoUnavailableTells(u, i, i, t);
  }

  /** The other sessions' accounts are kept when one session ends. */
  lemma EndGutsAccounts(u: User, i: nat, k: nat, t: Jid)
    requires UserOk(u) && i < |u.sessions| && k < |u.sessions| && k != i && t.user != u.jid
    ensures var e := EndGuts(u, i);
            Keeps(u, u.sessions[k], e.user, e.user.sessions[if k < i then k else k - 1], e.out, t)
  {
    GoUnavailableAccounts(u, i, k, t);
  }

  lemma {:induction false} ToldIsSent(out: seq<Output>, me: Jid, t: Jid)
    requires LastWord(out, me, t) == Some(false)
    ensures Routed(t, me, Unavailable) in out
    decreases |out|
  {
    var o := out[|out| - 1];
    if o != Routed(t, me, Unavailable) {
      assert out == out[..|out| - 1] + [o];
      ToldIsSent(out[..|out| - 1], me, t);
    }
  }
}
