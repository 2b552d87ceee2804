/**
 Runs of the router, from start-up and without repeated binds, that reach the three cases the exact conditions
 of RouterTables and RouterAdverts exclude.
 */
module RouterFailures {
  import opened Wrappers
  import opened RouterModel
  import opened RouterTables
  import opened RouterAdverts

  datatype History = History(states: seq<State>, events: seq<Event>)

  ghost predicate HistoryOk(h: History) {
    && |h.states| == |h.events| + 1 && Run(h.states, h.events)
    && forall i :: 0 <= i < |h.events| ==> NoRebind(h.states[i], h.events[i])
  }

  function Last(h: History): State
    requires h.states != []
  {
    h.states[|h.states| - 1]
  }

  ghost function Then(h: History, e: Event): History
    requires h.states != [] && Possible(Last(h), e)
  {
    History(h.states + [Step(Last(h), e)], h.events + [e])
  }

  lemma ThenOk(h: History, e: Event)
    requires HistoryOk(h) && Possible(Last(h), e) && NoRebind(Last(h), e)
    ensures HistoryOk(Then(h, e)) && Last(Then(h, e)) == Step(Last(h), e)
  {
    hide Possible, Step;
    var t := Then(h, e);
    forall i | 0 <= i < |t.events|
      ensures Possible(t.states[i], t.events[i]) && t.states[i + 1] == Step(t.states[i], t.events[i])
      ensures NoRebind(t.states[i], t.events[i])
    {
      if i < |h.events| { assert t.states[i] == h.states[i] && t.states[i + 1] == h.states[i + 1]; }
    }
  }

  /** Tables and adverts agree after one more event exactly when it is truthful. */
  lemma ThenAgrees(h: History, e: Event)
    requires HistoryOk(h) && Possible(Last(h), e) && NoRebind(Last(h), e) && RouterOk(Last(h))
    ensures HistoryOk(Then(h, e)) && Last(Then(h, e)) == Step(Last(h), e)
    ensures TableOk(Step(Last(h), e)) && SinksOk(Step(Last(h), e))
    ensures Agreement(Step(Last(h), e)) <==> Truthful(Last(h), e)
  {
    hide Possible, Step, Truthful, TableOk, SinksOk, Agreement, Run, NoRebind;
    ThenOk(h, e);
    StepKeepsTable(Last(h), e);
    StepKeepsSinks(Last(h), e);
    StepAgreementIff(Last(h), e);
  }

  const Start := History([Initial], [])

  /** A `multi` bind of a domain by a component of that name. */
  function Multi(domain: string): BindRequest {
    BindRequest(Some(Name(domain)), true, false, true, false, false, false, false, false)
  }

  /** What such a bind does when the binder ends up in every row, so that it is told of no name. */
  lemma Joins(s: State, c: CompId, domain: string)
    requires c in s.comps && !s.comps[c].legacy && forall n :: n in s.routes && n != Name(domain) ==> c in s.routes[n]
    ensures var e, name := Binding(c, Multi(domain), []), Name(domain);
      && Possible(s, e) && Admit(s, e.req).Accepted?
      && Step(s, e).routes == AddRoute(s.routes, name, c)
      && Step(s, e).comps.Keys == s.comps.Keys
      && (forall x :: x in s.comps ==>
            Step(s, e).comps[x].legacy == s.comps[x].legacy
            && Step(s, e).comps[x].routes == if x == c then s.comps[x].routes + {name} else s.comps[x].routes)
  {
    hide BeforeAdvert, SlotsIn;
    BindParts(s, c, Multi(domain), []);
    assert c in AddRoute(s.routes, Name(domain), c)[Name(domain)];
  }

  const A := CompId("a", 1)
  const B := CompId("b", 2)

  /** A native component connects and binds a `multi` name. */
  lemma NativeHolds() returns (h: History)
    ensures HistoryOk(h) && h.events == [Accepting(A), Binding(A, Multi("n"), [])] && RouterOk(Last(h))
    ensures Last(h).routes == map[Name("n") := [A]] && Last(h).comps.Keys == {A}
    ensures !Last(h).comps[A].legacy && Last(h).comps[A].routes == {Name("n")}
  {
    hide Bind, TableOk, SinksOk, Agreement, Run;
    StartOk();
    var e := Accepting(A);
    ThenAgrees(Start, e);
    h := Then(Start, e);
    Joins(Last(h), A, "n");
    var f := Binding(A, Multi("n"), []);
    ThenAgrees(h, f);
    h := Then(h, f);
    var none: seq<CompId> := [];
    assert none + [A] == [A];
  }

  /** A legacy component connects, says that it is one, and opens under the name. */
  lemma LegacyHolds() returns (h: History)
    ensures HistoryOk(h) && |h.events| == 3 && RouterOk(Last(h))
    ensures Last(h).routes == map[Name("n") := [A]] && Last(h).comps.Keys == {A}
    ensures Last(h).comps[A].legacy && Last(h).comps[A].routes == {Name("n")}
  {
    hide Open, TableOk, SinksOk, Agreement, Run;
    StartOk();
    var e := Accepting(A);
    ThenAgrees(Start, e);
    h := Then(Start, e);
    var f := Heading(A);
    ThenAgrees(h, f);
    h := Then(h, f);
    var g := Opening(A, Name("n"), false);
    OpenParts(Last(h), A, Name("n"));
    ThenAgrees(h, g);
    h := Then(h, g);
    var none: seq<CompId> := [];
    assert none + [A] == [A];
  }

  lemma StartOk()
    ensures HistoryOk(Start) && RouterOk(Initial)
  {
    InitialAgrees();
  }

  /** A native component without names connects and is about to bind the name of the first. */
  lemma SecondJoins(h: History) returns (j: History, e: Event)
    requires HistoryOk(h) && RouterOk(Last(h))
    requires Last(h).routes == map[Name("n") := [A]] && Last(h).comps.Keys == {A}
    ensures HistoryOk(j) && j.events == h.events + [Accepting(B)] && RouterOk(Last(j)) && e == Binding(B, Multi("n"), [])
    ensures Possible(Last(j), e) && NoRebind(Last(j), e) && (Truthful(Last(j), e) <==> Last(h).comps[A].legacy)
    ensures Last(j).comps.Keys == {A, B} && !Last(j).comps[B].legacy && Last(j).comps[B].routes == {}
    ensures Last(j).routes == map[Name("n") := [A]]
    ensures Step(Last(j), e).routes == map[Name("n") := [A, B]] && Step(Last(j), e).comps.Keys == {A, B}
    ensures !Step(Last(j), e).comps[B].legacy && Step(Last(j), e).comps[B].routes == {Name("n")}
  {
    hide Bind, TableOk, SinksOk, Agreement, Run;
    var c := Accepting(B);
    ThenAgrees(h, c);
    j := Then(h, c);
    e := Binding(B, Multi("n"), []);
    var s := Last(j);
    Joins(s, B, "n");
    assert A in s.routes[Name("n")] && A in s.comps;
    assert [A] + [B] == [A, B];
  }

  /** Two native components share a name: the bind of the second costs the first the truth. */
  lemma SharedBindIsReached() returns (h: History)
    ensures HistoryOk(h) && |h.events| == 4
    ensures RouterOk(h.states[3]) && !Truthful(h.states[3], h.events[3]) && !Agreement(h.states[4])
  {
    hide Possible, Step, Truthful, TableOk, SinksOk, Agreement, Run;
    var e: Event;
    h := NativeHolds();
    h, e := SecondJoins(h);
    ThenAgrees(h, e);
    h := Then(h, e);
  }

  /** A native component shares a name with a legacy one, binds another and leaves the first. */
  lemma SharedUnbindIsReached() returns (h: History)
    ensures HistoryOk(h) && |h.events| == 7
    ensures RouterOk(h.states[6]) && !Truthful(h.states[6], h.events[6]) && !Agreement(h.states[7])
  {
    hide Bind, Unbind, TableOk, SinksOk, Agreement, Run;
    var e: Event;
    h := LegacyHolds();
    h, e := SecondJoins(h);
    ThenAgrees(h, e);
    h := Then(h, e);
    Joins(Last(h), B, "m");
    var f := Binding(B, Multi("m"), []);
    ThenAgrees(h, f);
    h := Then(h, f);
    var g := Unbinding(B, Some(Name("n")));
    assert Name("m") in Last(h).comps[B].routes;
    ThenAgrees(h, g);
    h := Then(h, g);
  }

  /** The second of two native components that share a name has been told the truth. */
  lemma SecondKnows() returns (h: History)
    ensures HistoryOk(h) && TableOk(Last(h))
    ensures h.events == [Accepting(A), Binding(A, Multi("n"), []), Accepting(B), Binding(B, Multi("n"), [])]
    ensures Last(h).routes == map[Name("n") := [A, B]] && B in Last(h).comps && Agrees(Last(h).routes, B, Last(h).comps[B])
    ensures !Last(h).comps[B].legacy && Last(h).comps[B].routes == {Name("n")}
  {
    hide Bind, Unbind, TableOk, SinksOk, Run, Agrees;
    var e: Event;
    h := NativeHolds();
    h, e := SecondJoins(h);
    BinderAgreesIff(Last(h), B, Multi("n"), []);
    ThenTable(h, e);
    h := Then(h, e);
  }

  /** Native components alone: one that shares a name, and still knows the truth, leaves the name and no longer does. */
  lemma NativeUnbindIsReached() returns (h: History)
    ensures HistoryOk(h)
    ensures h.events == [Accepting(A), Binding(A, Multi("n"), []), Accepting(B), Binding(B, Multi("n"), []),
                         Binding(B, Multi("m"), []), Unbinding(B, Some(Name("n")))]
    ensures B in h.states[5].comps && Agrees(h.states[5].routes, B, h.states[5].comps[B])
    ensures B in h.states[6].comps && !Agrees(h.states[6].routes, B, h.states[6].comps[B])
  {
    hide Bind, Unbind, TableOk, SinksOk, Run, Agrees;
    h := SecondKnows();
    Joins(Last(h), B, "m");
    var f := Binding(B, Multi("m"), []);
    BinderAgreesIff(Last(h), B, Multi("m"), []);
    ThenTable(h, f);
    h := Then(h, f);
    var g := Unbinding(B, Some(Name("n")));
    assert Name("m") in Last(h).comps[B].routes;
    LeaverAgreesIff(Last(h), B, Name("n"));
    ThenTable(h, g);
    h := Then(h, g);
  }

  lemma ThenTable(h: History, e: Event)
    requires HistoryOk(h) && Possible(Last(h), e) && NoRebind(Last(h), e) && TableOk(Last(h))
    ensures HistoryOk(Then(h, e)) && Last(Then(h, e)) == Step(Last(h), e) && TableOk(Step(Last(h), e))
  {
    ThenOk(h, e);
    StepKeepsTable(Last(h), e);
  }

  /** A first bind that asks for the default route and, without the right, for the log. */
  lemma DanglingDefaultIsReached() returns (h: History)
    ensures HistoryOk(h) && |h.events| == 2
    ensures DefaultOk(h.states[1]) && DefaultWithoutBind(h.states[1], h.events[1]) && !DefaultOk(h.states[2])
  {
    var e := Accepting(A);
    ThenOk(Start, e);
    h := Then(Start, e);
    var req := Multi("n").(default := true, aciDefault := true, log := true);
    var f := Binding(A, req, []);
    ThenOk(h, f);
    StepKeepsDefault(Last(h), f);
    h := Then(h, f);
  }
}
