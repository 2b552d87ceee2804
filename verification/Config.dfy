/**
 util/config.c, `_config_expandx`: rewriting ${name} until nothing is left to rewrite.
 */
module Config {
  import opened Wrappers

  /** The first value under a key, `config_get_one`. */
  type Env = string -> Option<string>

  datatype Outcome = Value(s: string) | Failure | Unfinished

  predicate NoOpening(s: string) {
    forall k :: 0 <= k < |s| ==> !OpensAt(s, k)
  }

  predicate OpensAt(s: string, i: nat) {
    i + 1 < |s| && s[i] == '$' && s[i + 1] == '{'
  }

  /** strstr(s, "${"): the first place from i on, or the end. */
  function FindOpen(s: string, i: nat): (r: nat)
    requires i <= |s|
    ensures i <= r <= |s| && (r < |s| ==> OpensAt(s, r)) && (forall k :: i <= k < r ==> !OpensAt(s, k))
    decreases |s| - i
  {
    if i == |s| || OpensAt(s, i) then i else FindOpen(s, i + 1)
  }

  /** strstr(s + i, "}") */
  function FindClose(s: string, i: nat): (r: nat)
    requires i <= |s|
    ensures i <= r <= |s| && (r < |s| ==> s[r] == '}') && (forall k :: i <= k < r ==> s[k] != '}')
    decreases |s| - i
  {
    if i == |s| || s[i] == '}' then i else FindClose(s, i + 1)
  }

  datatype Next = Done | Failed | More(s: string)

  /** One round of the loop. */
  function Rewrite(env: Env, s: string): Next {
    var i := FindOpen(s, 0);
    if i == |s| then Done
    else
      var j := FindClose(s, i + 2);
      if j == |s| then Failed
      else
        match env(s[i + 2..j])
        case None => Failed
        case Some(v) => More(s[..i] + v + s[j + 1..])
  }

  function Iterate(env: Env, s: string, n: nat): Outcome
    decreases n
  {
    match Rewrite(env, s)
    case Done => Value(s)
    case Failed => Failure
    case More(t) => if n == 0 then Unfinished else Iterate(env, t, n - 1)
  }

  /** The body of the loop. */
  method Round(env: Env, s: string) returns (next: Next)
    ensures next == Rewrite(env, s)
    ensures next.Done? ==> NoOpening(s)
  {
    hide FindOpen, FindClose;
    var varStart := FindOpen(s, 0);
    if varStart == |s| { return Done; }
    var varEnd := FindClose(s, varStart + 2);
    if varEnd == |s| { return Failed; }
    var tail := s[varEnd + 1..];
    var varValue := env(s[varStart + 2..varEnd]);
    if varValue == None { return Failed; }
    next := More(s[..varStart] + varValue.value + tail);
  }

  /** `_config_expandx`, given up after `limit` rounds. */
  method Expandx(env: Env, value: string, limit: nat) returns (o: Outcome)
    ensures o == Iterate(env, value, limit)
    ensures o.Value? ==> NoOpening(o.s)
  {
    hide Rewrite;
    var s, n := value, limit;
    var next := Round(env, s);
    while next.More? && n > 0
      invariant next == Rewrite(env, s) && Iterate(env, s, n) == Iterate(env, value, limit)
      invariant next.Done? ==> NoOpening(s)
      decreases n
    {
      s, n := next.s, n - 1;
      next := Round(env, s);
    }
    match next {
      case Done => o := Value(s);
      case Failed => o := Failure;
      case More(_) => o := Unfinished;
    }
  }

  // ----- termination: values that cannot open with what stands behind them

  /** A run of dollar signs up to a brace. */
  predicate Opens(s: string) {
    |s| >= 2 && s[0] == '$' && (s[1] == '{' || Opens(s[1..]))
  }

  /** What makes an opening of a dollar sign before it, now or after some rounds. */
  predicate Charged(s: string) {
    s != "" && (s[0] == '{' || Opens(s))
  }

  /** The number of dollar signs that can still become openings. */
  function Live(s: string): nat {
    if s == "" then 0 else Live(s[1..]) + if Opens(s) then 1 else 0
  }

  lemma {:induction false} OpensAppend(p: string, x: string, y: string)
    requires p != "" && (Charged(y) ==> Charged(x))
    ensures Opens(p + y) ==> Opens(p + x)
    decreases |p|
  {
    assert (p + x)[1..] == p[1..] + x && (p + y)[1..] == p[1..] + y;
    if |p| > 1 {
      OpensAppend(p[1..], x, y);
    } else {
      assert p[1..] + x == x && p[1..] + y == y;
    }
  }

  lemma {:induction false} LiveAppend(p: string, x: string, y: string)
    requires Charged(y) ==> Charged(x)
    ensures Live(p + y) - Live(y) <= Live(p + x) - Live(x)
    decreases |p|
  {
    hide Opens, Charged;
    if p == "" {
      assert p + x == x && p + y == y;
    } else {
      assert (p + x)[1..] == p[1..] + x && (p + y)[1..] == p[1..] + y;
      LiveAppend(p[1..], x, y);
      OpensAppend(p, x, y);
    }
  }

  lemma {:induction false} LiveSuffix(s: string, k: nat)
    requires k <= |s|
    ensures Live(s[k..]) <= Live(s)
    decreases k
  {
    hide Opens;
    if k > 0 {
      assert s[1..][k - 1..] == s[k..];
      LiveSuffix(s[1..], k - 1);
    } else {
      assert s[0..] == s;
    }
  }

  /** A value without an opening that does not end in a dollar sign. */
  predicate Shut(v: string) {
    NoOpening(v) && (v != "" ==> v[|v| - 1] != '$')
  }

  ghost predicate ShutValues(env: Env) {
    forall name :: '}' !in name && env(name).Some? ==> Shut(env(name).value)
  }

  lemma ShutTail(v: string)
    requires Shut(v) && v != ""
    ensures Shut(v[1..]) && v[0] == '$' ==> |v| > 1 && v[1] != '{'
    ensures Shut(v[1..])
  {
    assert !OpensAt(v, 0);
    forall k | 0 <= k < |v| - 1 ensures !OpensAt(v[1..], k) {
      assert !OpensAt(v, k + 1);
    }
  }

  lemma {:induction false} ShutIsDead(v: string, tail: string)
    requires Shut(v)
    ensures Live(v + tail) == Live(tail) && (v != "" ==> !Opens(v + tail))
    decreases |v|
  {
    hide Shut;
    if v == "" {
      assert v + tail == tail;
    } else {
      assert (v + tail)[1..] == v[1..] + tail;
      ShutTail(v);
      ShutIsDead(v[1..], tail);
    }
  }

  /** A round uses up one of them. */
  lemma RewriteShrinks(env: Env, s: string)
    requires ShutValues(env) && Rewrite(env, s).More?
    ensures Live(Rewrite(env, s).s) < Live(s)
  {
    hide Live, Opens, Shut, FindOpen, FindClose;
    var i := FindOpen(s, 0);
    var j := FindClose(s, i + 2);
    var name, tail := s[i + 2..j], s[j + 1..];
    assert '}' !in name;
    var v, x := env(name).value, s[i..];
    OpeningIsLive(s, i);
    assert s == s[..i] + x && s[..i] + v + tail == s[..i] + (v + tail);
    LiveAppend(s[..i], x, v + tail);
    ShutIsDead(v, tail);
    assert x[1..][j - i..] == tail;
    LiveSuffix(x[1..], j - i);
  }

  lemma OpeningIsLive(s: string, i: nat)
    requires OpensAt(s, i)
    ensures Charged(s[i..]) && Live(s[i..]) == Live(s[i..][1..]) + 1
  {}

  /** With such values the loop ends: as many rounds as there are live dollar signs are enough. */
  lemma {:induction false} Finishes(env: Env, s: string, n: nat)
    requires ShutValues(env) && n >= Live(s)
    ensures Iterate(env, s, n) != Unfinished && Iterate(env, s, n) == Iterate(env, s, Live(s))
    decreases n
  {
    hide Rewrite, Live;
    if Rewrite(env, s).More? {
      var t := Rewrite(env, s).s;
      RewriteShrinks(env, s);
      Finishes(env, t, n - 1);
      Finishes(env, t, Live(s) - 1);
    }
  }

  /** No value of a variable contains a dollar sign; then a round for every dollar sign of the text is enough. */
  lemma DollarFreeFinishes(env: Env, s: string, n: nat)
    requires (forall name :: env(name).Some? ==> '$' !in env(name).value) && n >= multiset(s)['$']
    ensures Iterate(env, s, n) != Unfinished
  {
    hide Live, Iterate;
    forall name | '}' !in name && env(name).Some? ensures Shut(env(name).value) {}
    LiveIsDollars(s);
    Finishes(env, s, n);
  }

  lemma {:induction false} LiveIsDollars(s: string)
    ensures Live(s) <= multiset(s)['$']
    decreases |s|
  {
    if s != "" {
      assert s == [s[0]] + s[1..];
      LiveIsDollars(s[1..]);
    }
  }

  // ----- termination: values that cannot open with what stands before them

  /** A value without an opening, not empty and not beginning with a brace. */
  predicate Blunt(v: string) {
    NoOpening(v) && v != "" && v[0] != '{'
  }

  ghost predicate BluntValues(env: Env) {
    forall name :: '}' !in name && env(name).Some? ==> Blunt(env(name).value)
  }

  /** What lies from the first opening on. */
  function Ahead(s: string): nat {
    |s| - FindOpen(s, 0)
  }

  lemma {:induction false} OpensLater(s: string, i: nat, k: nat)
    requires i <= k <= |s| && forall j :: i <= j < k ==> !OpensAt(s, j)
    ensures FindOpen(s, i) >= k
    decreases k - i
  {
    hide OpensAt;
    if i < k { OpensLater(s, i + 1, k); }
  }

  /** A round leaves at most one character more than the text behind the variable. */
  lemma BluntAdvances(p: string, v: string, tail: string)
    requires NoOpening(p) && Blunt(v)
    ensures Ahead(p + v + tail) <= |tail| + 1
  {
    var q := p + v + tail;
    forall k | 0 <= k < |p| + |v| - 1 ensures !OpensAt(q, k) {
      if k < |p| {
        assert !OpensAt(p, k) && q[k] == p[k] && (k + 1 == |p| ==> q[k + 1] == v[0]);
      } else {
        assert !OpensAt(v, k - |p|) && q[k] == v[k - |p|] && q[k + 1] == v[k + 1 - |p|];
      }
    }
    OpensLater(q, 0, |p| + |v| - 1);
  }

  lemma RewriteAdvances(env: Env, s: string)
    requires BluntValues(env) && Rewrite(env, s).More?
    ensures Ahead(Rewrite(env, s).s) < Ahead(s)
  {
    hide FindOpen, FindClose, Blunt;
    var i := FindOpen(s, 0);
    var j := FindClose(s, i + 2);
    assert '}' !in s[i + 2..j];
    forall k | 0 <= k < i ensures !OpensAt(s[..i], k) {
      assert !OpensAt(s, k);
    }
    BluntAdvances(s[..i], env(s[i + 2..j]).value, s[j + 1..]);
  }

  /** With such values it ends, too: every round's opening lies further on. */
  lemma {:induction false} FinishesAhead(env: Env, s: string, n: nat)
    requires BluntValues(env) && n >= Ahead(s)
    ensures Iterate(env, s, n) != Unfinished
    decreases n
  {
    hide Rewrite, Ahead;
    if Rewrite(env, s).More? {
      RewriteAdvances(env, s);
      FinishesAhead(env, Rewrite(env, s).s, n - 1);
    }
  }

  // ----- against one pass of substitution

  /** The documented meaning: each ${name} of the text replaced once, from left to right. */
  function Substitute(env: Env, s: string): (r: Outcome)
    ensures !r.Unfinished?
    decreases |s|
  {
    var i := FindOpen(s, 0);
    if i == |s| then Value(s)
    else
      var j := FindClose(s, i + 2);
      if j == |s| || env(s[i + 2..j]).None? then Failure
      else
        Prefixed(s[..i] + env(s[i + 2..j]).value, Substitute(env, s[j + 1..]))
  }

  function Prefixed(p: string, o: Outcome): Outcome {
    match o
    case Value(t) => Value(p + t)
    case _ => o
  }

  lemma SubstituteIs(env: Env, s: string, i: nat, j: nat)
    requires i == FindOpen(s, 0) && i < |s| && j == FindClose(s, i + 2) && j < |s| && env(s[i + 2..j]).Some?
    ensures Substitute(env, s) == Prefixed(s[..i] + env(s[i + 2..j]).value, Substitute(env, s[j + 1..]))
  {
    hide FindOpen, FindClose;
  }

  lemma SubstituteStops(env: Env, s: string)
    ensures var i := FindOpen(s, 0);
            && (i == |s| ==> Substitute(env, s) == Value(s))
            && (i < |s| ==>
                  var j := FindClose(s, i + 2);
                  j == |s| || env(s[i + 2..j]).None? ==> Substitute(env, s) == Failure)
  {
    hide FindOpen, FindClose;
  }

  /** A prefix that contains no opening and cannot be the first half of one. */
  predicate Settled(p: string) {
    NoOpening(p) && (p != [] ==> p[|p| - 1] != '$')
  }

  lemma {:induction false} FindOpenAfter(p: string, s: string, i: nat)
    requires i <= |s|
    ensures FindOpen(p + s, |p| + i) == |p| + FindOpen(s, i)
    decreases |s| - i
  {
    if i < |s| {
      assert (p + s)[|p| + i] == s[i];
      assert i + 1 < |s| ==> (p + s)[|p| + i + 1] == s[i + 1];
      if !OpensAt(s, i) { FindOpenAfter(p, s, i + 1); }
    }
  }

  lemma {:induction false} FindCloseAfter(p: string, s: string, i: nat)
    requires i <= |s|
    ensures FindClose(p + s, |p| + i) == |p| + FindClose(s, i)
    decreases |s| - i
  {
    if i < |s| {
      assert (p + s)[|p| + i] == s[i];
      if s[i] != '}' { FindCloseAfter(p, s, i + 1); }
    }
  }

  lemma {:induction false} SkipSettled(p: string, s: string, k: nat)
    requires Settled(p) && k <= |p|
    ensures FindOpen(p + s, k) == FindOpen(p + s, |p|)
    decreases |p| - k
  {
    if k < |p| {
      assert (p + s)[k] == p[k];
      if k + 1 < |p| { assert (p + s)[k + 1] == p[k + 1]; }
      assert !OpensAt(p, k);
      assert !OpensAt(p + s, k);
      SkipSettled(p, s, k + 1);
    }
  }

  /** A settled prefix takes no part in a round. */
  lemma RewriteAfter(env: Env, p: string, s: string)
    requires Settled(p)
    ensures Rewrite(env, p + s) == match Rewrite(env, s) case More(t) => More(p + t) case o => o
  {
    hide FindOpen, FindClose, Settled;
    SkipSettled(p, s, 0);
    FindOpenAfter(p, s, 0);
    var i := FindOpen(s, 0);
    if i < |s| {
      FindCloseAfter(p, s, i + 2);
      var j := FindClose(s, i + 2);
      if j < |s| { Cuts(p, s, i, j, env(s[i + 2..j])); }
    }
  }

  lemma Cuts(p: string, s: string, i: nat, j: nat, v: Option<string>)
    requires i + 2 <= j < |s|
    ensures var q, k, l := p + s, |p| + i, |p| + j;
            q[k + 2..l] == s[i + 2..j] && (v.Some? ==> q[..k] + v.value + q[l + 1..] == p + (s[..i] + v.value + s[j + 1..]))
  {
    assert (p + s)[..|p| + i] == p + s[..i] && (p + s)[|p| + j + 1..] == s[j + 1..];
  }

  lemma {:induction false} IterateAfter(env: Env, p: string, s: string, n: nat)
    requires Settled(p)
    ensures Iterate(env, p + s, n) == Prefixed(p, Iterate(env, s, n))
    decreases n
  {
    hide Rewrite, Settled;
    RewriteAfter(env, p, s);
    if Rewrite(env, s).More? && n > 0 { IterateAfter(env, p, Rewrite(env, s).s, n - 1); }
  }

  /** A value that cannot form an opening, neither inside nor with what stands around it. */
  predicate Inert(v: string) {
    NoOpening(v) && v != "" && v[0] != '{' && v[|v| - 1] != '$'
  }

  /** All values a text can name: the name ends at the first closing brace. */
  ghost predicate InertValues(env: Env) {
    forall name :: '}' !in name && env(name).Some? ==> Inert(env(name).value)
  }

  lemma Settles(p: string, v: string)
    requires NoOpening(p) && Inert(v)
    ensures Settled(p + v)
  {
    var q := p + v;
    forall k | 0 <= k < |q| ensures !OpensAt(q, k) {
      if k < |p| {
        assert !OpensAt(p, k) && q[k] == p[k];
      } else {
        assert !OpensAt(v, k - |p|) && q[k] == v[k - |p|];
      }
    }
  }

  /** One round on a text of its first variable: the rest goes on behind a settled prefix. */
  lemma RoundSettles(env: Env, s: string, i: nat, j: nat, n: nat)
    requires InertValues(env) && i == FindOpen(s, 0) && i < |s| && j == FindClose(s, i + 2) && j < |s|
    requires env(s[i + 2..j]).Some? && n > 0
    ensures Iterate(env, s, n) == Prefixed(s[..i] + env(s[i + 2..j]).value, Iterate(env, s[j + 1..], n - 1))
  {
    hide FindOpen, FindClose, Settled, Rewrite, Iterate, Inert;
    var name := s[i + 2..j];
    assert '}' !in name;
    var v := env(name).value;
    RewriteIs(env, s, i, j);
    forall k | 0 <= k < i ensures !OpensAt(s[..i], k) {
      assert !OpensAt(s, k);
    }
    Settles(s[..i], v);
    IterateOnce(env, s, n);
    IterateAfter(env, s[..i] + v, s[j + 1..], n - 1);
  }

  lemma RewriteIs(env: Env, s: string, i: nat, j: nat)
    requires i == FindOpen(s, 0) && i < |s| && j == FindClose(s, i + 2) && j < |s| && env(s[i + 2..j]).Some?
    ensures Rewrite(env, s) == More(s[..i] + env(s[i + 2..j]).value + s[j + 1..])
  {
    hide FindOpen, FindClose;
  }

  lemma IterateOnce(env: Env, s: string, n: nat)
    requires Rewrite(env, s).More? && n > 0
    ensures Iterate(env, s, n) == Iterate(env, Rewrite(env, s).s, n - 1)
  {
    hide Rewrite;
  }

  lemma Stops(env: Env, s: string, n: nat)
    ensures var i := FindOpen(s, 0);
            && (i == |s| ==> Iterate(env, s, n) == Value(s))
            && (i < |s| ==>
                  var j := FindClose(s, i + 2);
                  j == |s| || env(s[i + 2..j]).None? ==> Iterate(env, s, n) == Failure)
  {
    hide FindOpen, FindClose;
  }

  /** With inert values the loop ends, and computes the documented substitution. */
  lemma {:induction false} ExpandIsSubstitution(env: Env, s: string, n: nat)
    requires InertValues(env) && n >= |s|
    ensures Iterate(env, s, n) == Substitute(env, s)
    decreases |s|
  {
    hide FindOpen, FindClose, InertValues, Iterate, Substitute, OpensAt;
    var i := FindOpen(s, 0);
    Stops(env, s, n);
    SubstituteStops(env, s);
    if i < |s| {
      var j := FindClose(s, i + 2);
      if j < |s| && env(s[i + 2..j]).Some? {
        SubstituteIs(env, s, i, j);
        RoundSettles(env, s, i, j, n);
        ExpandIsSubstitution(env, s[j + 1..], n - 1);
      }
    }
  }

  lemma {:induction false} ResultHasNoOpening(env: Env, s: string, n: nat)
    ensures Iterate(env, s, n).Value? ==> NoOpening(Iterate(env, s, n).s)
    decreases n
  {
    hide FindClose;
    if Rewrite(env, s).More? && n > 0 { ResultHasNoOpening(env, Rewrite(env, s).s, n - 1); }
  }

  /** A variable between a dollar sign and a brace. */
  function Probe(name: string): string {
    "$${" + name + "}{"
  }

  lemma SubstituteProbe(env: Env, name: string)
    requires '}' !in name && env(name).Some?
    ensures Substitute(env, Probe(name)) == Value("$" + env(name).value + "{")
    ensures NoOpening("$" + env(name).value + "{") ==> Inert(env(name).value)
  {
    var s, v := Probe(name), env(name).value;
    assert !OpensAt(s, 0) && OpensAt(s, 1) && FindOpen(s, 0) == FindOpen(s, 1) == 1;
    var j := 3 + |name|;
    assert s[3..j] == name && s[j] == '}' && forall k :: 3 <= k < j ==> s[k] == name[k - 3];
    assert FindClose(s, 3) == j;
    assert s[..1] == "$" && s[j + 1..] == "{" && FindOpen("{", 0) == FindOpen("{", 1) == 1;
    assert Substitute(env, "{") == Value("{");
    var t := "$" + v + "{";
    if NoOpening(t) {
      assert !OpensAt(t, 0) && !OpensAt(t, |v|);
      forall k | 0 <= k < |v| ensures !OpensAt(v, k) {
        assert !OpensAt(t, k + 1);
        assert t[k + 1] == v[k] && (k + 1 < |v| ==> t[k + 2] == v[k + 1]);
      }
    }
  }

  ghost predicate Documented(env: Env, s: string) {
    exists n :: Iterate(env, s, n) == Substitute(env, s)
  }

  /** The loop is the documented substitution for all texts exactly when all values are inert. */
  lemma SubstitutionIff(env: Env)
    ensures (forall s :: Documented(env, s)) <==> InertValues(env)
  {
    hide Iterate, Substitute, Inert;
    if InertValues(env) {
      forall s ensures Documented(env, s) {
        ExpandIsSubstitution(env, s, |s|);
      }
    }
    if forall s :: Documented(env, s) {
      forall name | '}' !in name && env(name).Some? ensures Inert(env(name).value) {
        var s := Probe(name);
        assert Documented(env, s);
        var n :| Iterate(env, s, n) == Substitute(env, s);
        SubstituteProbe(env, name);
        ResultHasNoOpening(env, s, n);
      }
    }
  }

  // ----- values that expand for ever

  /** Two values without an opening that make one of each other behind a dollar sign. */
  lemma {:induction false} CycleNeverFinishes(env: Env, n: nat)
    requires env("a") == Some("$$") && env("b") == Some("{a}{b}")
    ensures Iterate(env, "$${b}", n) == Unfinished && Iterate(env, "${a}{b}", n) == Unfinished
    decreases n
  {
    var s, t := "$${b}", "${a}{b}";
    assert !OpensAt(s, 0) && OpensAt(s, 1) && FindOpen(s, 0) == FindOpen(s, 1) == 1;
    assert FindClose(s, 3) == FindClose(s, 4) == 4 && s[3..4] == "b" && s[..1] + "{a}{b}" + s[5..] == t;
    assert OpensAt(t, 0) && FindOpen(t, 0) == 0;
    assert FindClose(t, 2) == FindClose(t, 3) == 3 && t[2..3] == "a" && t[..0] + "$$" + t[4..] == s;
    if n > 0 { CycleNeverFinishes(env, n - 1); }
  }

  // ----- loading a file

  /** An element of the file: the path of its name and its text. */
  datatype Elem = Elem(key: string, text: string)

  /** The values under each key, in the order of the file. */
  type Table = map<string, seq<string>>

  datatype Loading = Loaded | Rejected | Stuck

  function Lookup(h: Table): Env {
    name => if name in h && h[name] != [] then Some(h[name][0]) else None
  }

  function Enter(h: Table, key: string): Table {
    if key in h then h else h[key := []]
  }

  function Put(h: Table, key: string, v: string): Table
    requires key in h
  {
    h[key := h[key] + [v]]
  }

  /** What one element is stored as: its text expanded, or "1" if it has none. */
  function Stored(h: Table, text: string, limit: nat): Outcome {
    if text == "" then Value("1") else Iterate(Lookup(h), text, limit)
  }

  function Load(h: Table, es: seq<Elem>, limit: nat): (Table, Loading)
    decreases |es|
  {
    if es == [] then (h, Loaded)
    else
      var k := Enter(h, es[0].key);
      match Stored(k, es[0].text, limit)
      case Value(v) => Load(Put(k, es[0].key, v), es[1..], limit)
      case Failure => (k, Rejected)
      case Unfinished => (k, Stuck)
  }

  class Config {
    var hash: Table

    constructor ()
      ensures hash == map[]
    {
      hash := map[];
    }

    /** `config_load_with_id`, behind the XML parser, each expansion given up after `limit` rounds. */
    method LoadWithId(id: Option<string>, es: seq<Elem>, limit: nat) returns (r: Loading)
      modifies this
      ensures (hash, r) == Load(if id.Some? then old(hash)["id" := [id.value]] else old(hash), es, limit)
    {
      hide Iterate;
      if id.Some? { hash := hash["id" := [id.value]]; }
      ghost var start := hash;
      var i := 0;
      while i < |es|
        invariant i <= |es| && Load(hash, es[i..], limit) == Load(start, es, limit)
      {
        var e := es[i];
        if e.key !in hash { hash := hash[e.key := []]; }
        var o := Value("1");
        if e.text != "" { o := Expandx(Lookup(hash), e.text, limit); }
        if o.Failure? { return Rejected; }
        if o.Unfinished? { return Stuck; }
        hash := hash[e.key := hash[e.key] + [o.s]];
        i := i + 1;
      }
      r := Loaded;
    }
  }

  /** What holds of every value of a table. */
  ghost predicate All(h: Table, p: string -> bool) {
    forall key, i :: key in h && 0 <= i < |h[key]| ==> p(h[key][i])
  }

  /** Expanded values contain no opening: what loading guarantees. */
  lemma {:induction false} LoadedHasNoOpening(h: Table, es: seq<Elem>, limit: nat)
    requires All(h, NoOpening)
    ensures All(Load(h, es, limit).0, NoOpening)
    decreases |es|
  {
    hide Iterate;
    if es != [] {
      var k := Enter(h, es[0].key);
      var o := Stored(k, es[0].text, limit);
      ResultHasNoOpening(Lookup(k), es[0].text, limit);
      if o.Value? {
        LoadedHasNoOpening(Put(k, es[0].key, o.s), es[1..], limit);
      }
    }
  }

  /** That is not enough for loading to end: no limit is enough for this file. */
  lemma CycleNeverLoads(limit: nat)
    ensures Load(map[], [Elem("a", "$$"), Elem("b", "{a}{b}"), Elem("c", "$${b}")], limit).1 == Stuck
  {
    hide Iterate;
    var a, b, c := Elem("a", "$$"), Elem("b", "{a}{b}"), Elem("c", "$${b}");
    var h1: Table := map["a" := ["$$"]];
    var h2: Table := map["a" := ["$$"], "b" := ["{a}{b}"]];
    var k0: Table := map["a" := []];
    var k1: Table := map["a" := ["$$"], "b" := []];
    var k2: Table := map["a" := ["$$"], "b" := ["{a}{b}"], "c" := []];
    NoDollarBrace("$$");
    Stops(Lookup(k0), "$$", limit);
    var none: seq<string> := [];
    assert none + ["$$"] == ["$$"] && none + ["{a}{b}"] == ["{a}{b}"];
    assert Enter(map[], "a") == k0 && Put(k0, "a", "$$") == h1;
    NoDollarBrace("{a}{b}");
    Stops(Lookup(k1), "{a}{b}", limit);
    assert Enter(h1, "b") == k1 && Put(k1, "b", "{a}{b}") == h2;
    assert Enter(h2, "c") == k2;
    CycleNeverFinishes(Lookup(k2), limit);
    assert [a, b, c][1..] == [b, c] && [b, c][1..] == [c];
    assert Load(h2, [c], limit).1 == Stuck;
    assert Load(h1, [b, c], limit).1 == Stuck;
  }

  lemma NoDollarBrace(s: string)
    requires NoOpening(s)
    ensures FindOpen(s, 0) == |s|
  {}

  // ----- files whose loading ends

  /** A value that cannot open with what stands behind it, and leaves nothing before it bare. */
  predicate Capped(v: string) {
    Shut(v) && v != ""
  }

  lemma {:induction false} ExpandsCapped(env: Env, s: string, n: nat)
    requires (forall name :: '}' !in name && env(name).Some? ==> Capped(env(name).value)) && s != "" && s[|s| - 1] != '$'
    ensures Iterate(env, s, n).Value? ==> Capped(Iterate(env, s, n).s)
    decreases n
  {
    hide NoOpening, FindOpen, FindClose;
    ResultHasNoOpening(env, s, n);
    if Rewrite(env, s).More? && n > 0 {
      var i := FindOpen(s, 0);
      var j := FindClose(s, i + 2);
      assert '}' !in s[i + 2..j];
      ExpandsCapped(env, Rewrite(env, s).s, n - 1);
    }
  }

  lemma {:induction false} ExpandsBlunt(env: Env, s: string, n: nat)
    requires BluntValues(env) && s != "" && s[0] != '{'
    ensures Iterate(env, s, n).Value? ==> Blunt(Iterate(env, s, n).s)
    decreases n
  {
    hide NoOpening, FindOpen, FindClose;
    ResultHasNoOpening(env, s, n);
    if Rewrite(env, s).More? && n > 0 {
      var i := FindOpen(s, 0);
      var j := FindClose(s, i + 2);
      assert '}' !in s[i + 2..j];
      ExpandsBlunt(env, Rewrite(env, s).s, n - 1);
    }
  }

  lemma {:induction false} LiveBound(s: string)
    ensures Live(s) <= |s| && Ahead(s) <= |s|
  {
    if s != "" { LiveBound(s[1..]); }
  }

  /** A file loads or is rejected if no text of it ends in a dollar sign. */
  lemma {:induction false} LoadEndsIfCapped(h: Table, es: seq<Elem>, limit: nat)
    requires All(h, Capped) && forall i :: 0 <= i < |es| ==> |es[i].text| <= limit
    requires forall i :: 0 <= i < |es| && es[i].text != "" ==> es[i].text[|es[i].text| - 1] != '$'
    ensures Load(h, es, limit).1 != Stuck
    decreases |es|
  {
    hide Iterate, Capped, Live, Ahead;
    if es != [] {
      var k, text := Enter(h, es[0].key), es[0].text;
      var env := Lookup(k);
      assert forall name :: env(name).Some? ==> Capped(env(name).value);
      LiveBound(text);
      CappedIsShut();
      Finishes(env, text, limit);
      var o := Stored(k, text, limit);
      if o.Value? {
        if text != "" { ExpandsCapped(env, text, limit); }
        LoadEndsIfCapped(Put(k, es[0].key, o.s), es[1..], limit);
      }
    }
  }

  lemma CappedIsShut()
    ensures (forall v :: Capped(v) ==> Shut(v)) && Capped("1") && Blunt("1")
  {}

  /** So it does if no text of it begins with a brace. */
  lemma {:induction false} LoadEndsIfBlunt(h: Table, es: seq<Elem>, limit: nat)
    requires All(h, Blunt) && forall i :: 0 <= i < |es| ==> |es[i].text| <= limit
    requires forall i :: 0 <= i < |es| && es[i].text != "" ==> es[i].text[0] != '{'
    ensures Load(h, es, limit).1 != Stuck
    decreases |es|
  {
    hide Iterate, Blunt, Live, Ahead;
    if es != [] {
      var k, text := Enter(h, es[0].key), es[0].text;
      var env := Lookup(k);
      assert forall name :: env(name).Some? ==> Blunt(env(name).value);
      LiveBound(text);
      CappedIsShut();
      FinishesAhead(env, text, limit);
      var o := Stored(k, text, limit);
      if o.Value? {
        if text != "" { ExpandsBlunt(env, text, limit); }
        LoadEndsIfBlunt(Put(k, es[0].key, o.s), es[1..], limit);
      }
    }
  }

  // ----- loading as documented

  /** Loading with each text substituted once. */
  function LoadDocumented(h: Table, es: seq<Elem>): (Table, Loading)
    decreases |es|
  {
    if es == [] then (h, Loaded)
    else
      var k := Enter(h, es[0].key);
      match if es[0].text == "" then Value("1") else Substitute(Lookup(k), es[0].text)
      case Value(v) => LoadDocumented(Put(k, es[0].key, v), es[1..])
      case _ => (k, Rejected)
  }

  /** A text that leaves an inert value. */
  predicate Closed(text: string) {
    text != "" ==> text[0] != '{' && text[|text| - 1] != '$'
  }

  lemma {:induction false} SubstituteEnds(env: Env, s: string)
    requires InertValues(env) && Substitute(env, s).Value? && s != ""
    ensures var t := Substitute(env, s).s;
      t != "" && (t[0] == '{' ==> s[0] == '{') && (t[|t| - 1] == '$' ==> s[|s| - 1] == '$')
    decreases |s|
  {
    hide FindClose, FindOpen, NoOpening, InertValues, Substitute, OpensAt;
    var i := FindOpen(s, 0);
    SubstituteStops(env, s);
    if i < |s| {
      var j := FindClose(s, i + 2);
      SubstituteIs(env, s, i, j);
      var name, tail := s[i + 2..j], s[j + 1..];
      InertValue(env, name);
      var v := env(name).value;
      var head := s[..i] + v;
      assert head[0] == if i > 0 then s[0] else v[0];
      if tail == "" {
        SubstituteStops(env, tail);
        assert head + "" == head;
      } else {
        SubstituteEnds(env, tail);
      }
    }
  }

  lemma InertValue(env: Env, name: string)
    requires InertValues(env) && '}' !in name && env(name).Some?
    ensures Inert(env(name).value)
  {}

  /** A file whose texts do not begin with a brace or end in a dollar sign is loaded as documented. */
  lemma {:induction false} LoadsAsDocumented(h: Table, es: seq<Elem>, limit: nat)
    requires All(h, Inert) && forall i :: 0 <= i < |es| ==> Closed(es[i].text) && |es[i].text| <= limit
    ensures Load(h, es, limit) == LoadDocumented(h, es) && All(Load(h, es, limit).0, Inert)
    decreases |es|
  {
    hide Iterate, Substitute, Inert;
    if es != [] {
      var k, text := Enter(h, es[0].key), es[0].text;
      InertTable(h, es[0].key);
      ExpandIsSubstitution(Lookup(k), text, limit);
      var o := Stored(k, text, limit);
      if o.Value? {
        StoredIsInert(k, text, limit);
        LoadsAsDocumented(Put(k, es[0].key, o.s), es[1..], limit);
      }
    }
  }

  lemma InertTable(h: Table, key: string)
    requires All(h, Inert)
    ensures All(Enter(h, key), Inert) && InertValues(Lookup(Enter(h, key)))
  {
    hide Inert;
  }

  lemma StoredIsInert(h: Table, text: string, limit: nat)
    requires InertValues(Lookup(h)) && Closed(text) && |text| <= limit && Stored(h, text, limit).Value?
    ensures Inert(Stored(h, text, limit).s)
  {
    hide Iterate, Substitute, InertValues, Lookup;
    if text != "" {
      ExpandIsSubstitution(Lookup(h), text, limit);
      SubstituteEnds(Lookup(h), text);
      ResultHasNoOpening(Lookup(h), text, limit);
    }
  }

  // ----- on texts put together from their parts

  /** Text before the first opening. */
  lemma OpensFirst(p: string, rest: string)
    requires forall k :: 0 <= k < |p| - 1 ==> !(p[k] == '$' && p[k + 1] == '{')
    ensures FindOpen(p + "${" + rest, 0) == |p|
  {
    var s := p + "${" + rest;
    assert OpensAt(s, |p|);
    forall k | 0 <= k < |p| ensures !OpensAt(s, k) {
      assert s[k] == p[k] && (k + 1 < |p| ==> s[k + 1] == p[k + 1]);
    }
    OpensLater(s, 0, |p|);
  }

  lemma ClosesFirst(p: string, name: string, rest: string)
    requires '}' !in name
    ensures FindClose(p + "${" + name + "}" + rest, |p| + 2) == |p| + 2 + |name|
    ensures FindClose(p + "${" + name, |p| + 2) == |p| + 2 + |name|
  {
    var s := p + "${" + name + "}" + rest;
    var t := p + "${" + name;
    assert s[|p| + 2 + |name|] == '}';
    assert forall k :: |p| + 2 <= k < |p| + 2 + |name| ==> s[k] == name[k - |p| - 2] == t[k] && s[k] != '}';
  }

  /** One round: the first ${name} gives way to the first value of the name, or the text is refused. */
  lemma RoundIs(env: Env, p: string, name: string, rest: string, n: nat)
    requires forall k :: 0 <= k < |p| - 1 ==> !(p[k] == '$' && p[k + 1] == '{')
    requires '}' !in name
    ensures Iterate(env, p + "${" + name + "}" + rest, n) ==
      if env(name).None? then Failure else if n == 0 then Unfinished else Iterate(env, p + env(name).value + rest, n - 1)
    ensures Iterate(env, p + "${" + name, n) == Failure
    ensures Iterate(env, p, n) == Value(p)
  {
    hide FindOpen, FindClose;
    OpensFirst(p, name + "}" + rest);
    OpensFirst(p, name);
    ClosesFirst(p, name, rest);
    var s := p + "${" + name + "}" + rest;
    assert s == p + "${" + (name + "}" + rest);
    assert s[|p| + 2..|p| + 2 + |name|] == name && s[..|p|] == p && s[|p| + 2 + |name| + 1..] == rest;
    assert NoOpening(p) ==> FindOpen(p, 0) == |p|;
  }

  /** What the documentation promises: each ${name} gives way to the first value of the name, from left to right. */
  lemma SubstitutedIs(env: Env, p: string, name: string, rest: string)
    requires forall k :: 0 <= k < |p| - 1 ==> !(p[k] == '$' && p[k + 1] == '{')
    requires '}' !in name
    ensures Substitute(env, p + "${" + name + "}" + rest) ==
      if env(name).None? then Failure
      else match Substitute(env, rest) case Value(t) => Value(p + env(name).value + t) case o => o
    ensures Substitute(env, p + "${" + name) == Failure
    ensures Substitute(env, p) == Value(p)
  {
    hide FindOpen, FindClose;
    OpensFirst(p, name + "}" + rest);
    OpensFirst(p, name);
    ClosesFirst(p, name, rest);
    var s := p + "${" + name + "}" + rest;
    assert s == p + "${" + (name + "}" + rest);
    assert s[|p| + 2..|p| + 2 + |name|] == name && s[..|p|] == p && s[|p| + 2 + |name| + 1..] == rest;
    assert NoOpening(p) ==> FindOpen(p, 0) == |p|;
  }

  /** What loading does with one element: its expanded text, or "1", is added under its key; a failure ends it. */
  lemma LoadIs(h: Table, key: string, text: string, es: seq<Elem>, limit: nat)
    ensures Load(h, [], limit) == (h, Loaded)
    ensures var k: Table := if key in h then h else h[key := []];
      var env: Env := name => if name in k && k[name] != [] then Some(k[name][0]) else None;
      Load(h, [Elem(key, text)] + es, limit) ==
      if text == "" then Load(k[key := k[key] + ["1"]], es, limit)
      else match Iterate(env, text, limit)
        case Value(v) => Load(k[key := k[key] + [v]], es, limit)
        case Failure => (k, Rejected)
        case Unfinished => (k, Stuck)
  {
    hide Iterate;
    var k: Table := if key in h then h else h[key := []];
    assert ([Elem(key, text)] + es)[1..] == es;
    assert Lookup(k) == (name => if name in k && k[name] != [] then Some(k[name][0]) else None);
  }
}
