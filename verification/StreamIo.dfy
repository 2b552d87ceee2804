/**
 sx/io.c: the write queue of a stream, its partly written buffer, and the graceful close
 that waits for both.
 */
module StreamIo {
  import opened Wrappers

  type byte = bv8

  datatype Phase = NONE | STREAM_RECEIVED | STREAM_SENT | STREAM | OPEN | CLOSING | CLOSED

  function Rank(p: Phase): nat {
    match p
    case NONE => 0 case STREAM_RECEIVED => 1 case STREAM_SENT => 2 case STREAM => 3
    case OPEN => 4 case CLOSING => 5 case CLOSED => 6
  }

  /** The queue is a jqueue whose entries all have priority 0: first in, first out. */
  datatype State = State(
    phase: Phase, queue: seq<seq<byte>>, pending: Option<seq<byte>>, wantWrite: nat, wantRead: bool)

  /** What the write chain of the plugins makes of a buffer: 1, -1, 0 or -2. */
  datatype Verdict = Pass(out: seq<byte>) | Retry | Drop | Fatal

  /** How much of a buffer the application writes. */
  datatype Written = Wrote(n: nat) | Failed

  /**
   The outcome of a read event: something, or nothing, was read and handed on; the plugins kept it back;
   or a plugin or the application failed it for good.
   */
  datatype Reading = Decoded | Undecoded | ReadFailed

  datatype Effect = Effect(state: State, sent: seq<byte>)

  /** The buffer the plugins are asked about: an empty one if there is nothing to write. */
  function Front(s: State): seq<byte> {
    if s.queue == [] then [] else s.queue[0]
  }

  function Pulled(s: State): seq<seq<byte>> {
    if s.queue == [] then [] else s.queue[1..]
  }

  /** `_sx_get_pending_write`; a buffer to be tried again goes to the back of the queue. */
  function GetPending(s: State, v: Verdict): State {
    if s.pending.Some? then s
    else
      var t := s.(queue := Pulled(s), wantWrite := |Pulled(s)|);
      match v
      case Retry => t.(queue := t.queue + [Front(s)], wantWrite := 1)
      case Drop => t
      case Fatal => t.(wantWrite := 0, wantRead := false)
      case Pass(out) => if out == [] then t else t.(pending := Some(out))
  }

  predicate Fits(s: State, v: Verdict, w: Written) {
    var t := GetPending(s, v);
    w.Wrote? && t.pending.Some? ==> w.n <= |t.pending.value|
  }

  /** `sx_can_write` */
  function CanWrite(s: State, v: Verdict, w: Written): Effect
    requires Fits(s, v, w)
  {
    if s.wantWrite == 0 && Rank(s.phase) < Rank(CLOSING) then Effect(s, [])
    else
      var t := GetPending(s, v);
      if s.pending.None? && v.Fatal? then Effect(t.(phase := CLOSED), [])
      else if t.pending.None? then Effect(t, [])
      else if w.Failed? then Effect(t.(pending := None, wantRead := false, wantWrite := 0), [])
      else
        var out := t.pending.value;
        var u := if w.n < |out| then t.(pending := Some(out[w.n..]), wantWrite := t.wantWrite + 1)
                 else t.(pending := None);
        Effect(if u.wantWrite == 0 && u.phase == CLOSING then u.(phase := CLOSED) else u, out[..w.n])
  }

  /** `sx_can_read`, as far as it concerns writing and closing */
  function CanRead(s: State, r: Reading): State {
    if !s.wantRead && Rank(s.phase) < Rank(CLOSING) then s
    else match r
      case ReadFailed => s.(wantRead := false, wantWrite := 0)
      case Undecoded => s
      case Decoded => if s.wantWrite == 0 && s.phase == CLOSING then s.(phase := CLOSED) else s
  }

  /** `_sx_raw_write` */
  function RawWrite(s: State, buf: seq<byte>): State {
    if Rank(s.phase) >= Rank(CLOSING) then s else s.(queue := s.queue + [buf], wantWrite := 1)
  }

  /** `sx_close`; `tail` is the closing tag. */
  function Close(s: State, tail: seq<byte>): State {
    if Rank(s.phase) >= Rank(CLOSING) then s
    else if Rank(s.phase) >= Rank(STREAM_SENT) then
      s.(queue := s.queue + [tail], wantWrite := 1, phase := CLOSING)
    else s.(phase := CLOSED)
  }

  // ----- runs

  datatype Event =
    | Push(buf: seq<byte>) | Closing(tail: seq<byte>) | Negotiated(phase: Phase)
    | Writable(verdict: Verdict, written: Written) | Readable(reading: Reading) | WantsRead

  predicate Possible(s: State, e: Event) {
    match e
    case Writable(v, w) => Fits(s, v, w)
    case Negotiated(phase) => Rank(s.phase) <= Rank(phase) < Rank(CLOSING)
    case _ => true
  }

  function Step(s: State, e: Event): Effect
    requires Possible(s, e)
  {
    match e
    case Push(buf) => Effect(RawWrite(s, buf), [])
    case Closing(tail) => Effect(Close(s, tail), [])
    case Negotiated(phase) => Effect(s.(phase := phase), [])
    case Writable(v, w) => CanWrite(s, v, w)
    case Readable(r) => Effect(CanRead(s, r), [])
    case WantsRead => Effect(s.(wantRead := true), [])
  }

  /** What an event adds to the queue. */
  function Added(s: State, e: Event): seq<byte> {
    match e
    case Push(buf) => if Rank(s.phase) >= Rank(CLOSING) then [] else buf
    case Closing(tail) => if Rank(STREAM_SENT) <= Rank(s.phase) < Rank(CLOSING) then tail else []
    case _ => []
  }

  /** No plugin interferes and nothing fails. */
  predicate Smooth(s: State, e: Event) {
    match e
    case Writable(v, w) => w.Wrote? && (s.pending.None? ==> v == Pass(Front(s)))
    case Readable(r) => r != ReadFailed
    case _ => true
  }

  function Concat(bufs: seq<seq<byte>>): seq<byte> {
    if bufs == [] then [] else bufs[0] + Concat(bufs[1..])
  }

  function Left(s: State): seq<byte> {
    (if s.pending.Some? then s.pending.value else []) + Concat(s.queue)
  }

  /** Nothing is left behind unless somebody wants to write. */
  predicate Armed(s: State) {
    s.wantWrite == 0 ==> s.queue == [] && s.pending.None?
  }

  lemma {:induction false} ConcatSnoc(bufs: seq<seq<byte>>, b: seq<byte>)
    ensures Concat(bufs + [b]) == Concat(bufs) + b
  {
    if bufs == [] {
      assert [b][1..] == [];
    } else {
      assert (bufs + [b])[1..] == bufs[1..] + [b];
      ConcatSnoc(bufs[1..], b);
    }
  }

  lemma PendingConserves(s: State)
    ensures s.pending.None? ==> Left(GetPending(s, Pass(Front(s)))) == Left(s)
    ensures s.pending.None? ==> Armed(GetPending(s, Pass(Front(s))).(pending := None))
    ensures s.pending.Some? ==> forall v :: GetPending(s, v) == s
  {}

  /** Whatever part of the buffer is written, nothing is lost and nothing changes places. */
  lemma WriteConserves(s: State, v: Verdict, w: Written)
    requires Fits(s, v, w) && Armed(s) && w.Wrote? && (s.pending.None? ==> v == Pass(Front(s)))
    ensures Armed(CanWrite(s, v, w).state)
    ensures CanWrite(s, v, w).sent + Left(CanWrite(s, v, w).state) == Left(s)
  {
    PendingConserves(s);
    var t := GetPending(s, v);
    hide GetPending, Front, Concat;
    assert Left(t) == Left(s);
    if t.pending.Some? {
      var out, rest := t.pending.value, Concat(t.queue);
      assert out[..w.n] + (out[w.n..] + rest) == out + rest;
      if w.n == |out| { assert out[..w.n] + ([] + rest) == out + rest; }
    }
  }

  /** One event. */
  lemma StepConserves(s: State, e: Event)
    requires Possible(s, e) && Smooth(s, e) && Armed(s)
    ensures Armed(Step(s, e).state)
    ensures Step(s, e).sent + Left(Step(s, e).state) == Left(s) + Added(s, e)
  {
    hide CanWrite, Concat;
    match e {
      case Push(buf) => ConcatSnoc(s.queue, buf);
      case Closing(tail) => ConcatSnoc(s.queue, tail);
      case Writable(v, w) => WriteConserves(s, v, w);
      case _ =>
    }
  }

  ghost predicate Run(states: seq<State>, events: seq<Event>) {
    && |states| == |events| + 1 && Armed(states[0])
    && forall k :: 0 <= k < |events| ==>
         Possible(states[k], events[k]) && states[k + 1] == Step(states[k], events[k]).state
  }

  function Sent(states: seq<State>, events: seq<Event>, k: nat): seq<byte>
    requires k <= |events| && |states| == |events| + 1
    requires forall i :: 0 <= i < k ==> Possible(states[i], events[i])
  {
    if k == 0 then [] else Sent(states, events, k - 1) + Step(states[k - 1], events[k - 1]).sent
  }

  function Pushed(states: seq<State>, events: seq<Event>, k: nat): seq<byte>
    requires k <= |events| && |states| == |events| + 1
  {
    if k == 0 then [] else Pushed(states, events, k - 1) + Added(states[k - 1], events[k - 1])
  }

  /** Over every run: what was there, and what was pushed, is what was sent and what is left, in order. */
  lemma {:induction false} RunConserves(states: seq<State>, events: seq<Event>, k: nat)
    requires Run(states, events) && k <= |events|
    requires forall i :: 0 <= i < k ==> Smooth(states[i], events[i])
    ensures Armed(states[k])
    ensures Sent(states, events, k) + Left(states[k]) == Left(states[0]) + Pushed(states, events, k)
  {
    hide Step, Left, Added, Armed, Smooth;
    if k > 0 {
      RunConserves(states, events, k - 1);
      StepConserves(states[k - 1], events[k - 1]);
      Regroup(Sent(states, events, k - 1), Step(states[k - 1], events[k - 1]).sent, Left(states[k]),
              Left(states[k - 1]), Added(states[k - 1], events[k - 1]), Left(states[0]), Pushed(states, events, k - 1));
    }
  }

  lemma Regroup(sent: seq<byte>, out: seq<byte>, left: seq<byte>, before: seq<byte>, added: seq<byte>,
                first: seq<byte>, pushed: seq<byte>)
    requires sent + before == first + pushed && out + left == before + added
    ensures (sent + out) + left == first + (pushed + added)
  {
    assert (sent + out) + left == sent + (out + left);
    assert sent + (before + added) == (sent + before) + added;
  }

  lemma ClosedIsEmpty(s: State, e: Event)
    requires Possible(s, e) && Smooth(s, e) && Armed(s)
    requires s.phase == CLOSING && Step(s, e).state.phase == CLOSED
    ensures Left(Step(s, e).state) == []
  {
    StepConserves(s, e);
    hide GetPending, Front;
  }

  /** A graceful close drops nothing: when it completes, everything pushed in the run has been sent. */
  lemma GracefulCloseIsComplete(states: seq<State>, events: seq<Event>, k: nat)
    requires Run(states, events) && k < |events| && states[0].queue == [] && states[0].pending.None?
    requires forall i :: 0 <= i <= k ==> Smooth(states[i], events[i])
    requires states[k].phase == CLOSING && states[k + 1].phase == CLOSED
    ensures Sent(states, events, k + 1) == Pushed(states, events, k + 1)
  {
    RunConserves(states, events, k);
    RunConserves(states, events, k + 1);
    ClosedIsEmpty(states[k], events[k]);
    var sent, pushed := Sent(states, events, k + 1), Pushed(states, events, k + 1);
    assert Left(states[0]) == [] && states[k + 1] == Step(states[k], events[k]).state;
    assert sent + [] == sent && [] + pushed == pushed;
  }

  // ----- what the close waits for

  /** Writing completes a close exactly when one call takes and writes the last buffer whole. */
  lemma CloseCompletesIff(s: State, w: Written)
    requires s.phase == CLOSING && Armed(s) && w.Wrote? && (s.pending.Some? ==> s.wantWrite > 0)
    requires forall b :: b in s.queue ==> b != []
    requires Fits(s, Pass(Front(s)), w)
    ensures CanWrite(s, Pass(Front(s)), w).state.phase == CLOSED
      <==> s.pending.None? && |s.queue| == 1 && w.n == |Front(s)|
  {
    if s.queue != [] { assert s.queue[0] in s.queue; }
  }

  /** So after a partial write of the last buffer, write events alone never complete the close; a read event does. */
  lemma PartialWriteStallsClose(s: State, w: Written, w': Written, w'': Written)
    requires s.phase == CLOSING && s.pending.None? && |s.queue| == 1
    requires w.Wrote? && 0 < w.n < |Front(s)|
    requires w' == Wrote(|Front(s)| - w.n) && w''.Wrote?
    ensures var a := CanWrite(s, Pass(Front(s)), w);
            var b := CanWrite(a.state, Pass([]), w');
            var c := CanWrite(b.state, Pass([]), w'');
            && a.sent + b.sent == Front(s)
            && c.state == State(CLOSING, [], None, 0, s.wantRead)
            && CanWrite(c.state, Pass([]), w'') == Effect(c.state, [])
            && CanRead(c.state, Decoded).phase == CLOSED
  {
    assert Front(s)[..w.n] + Front(s)[w.n..] == Front(s);
  }

  // ----- retries

  lemma {:induction false} RotatedIsSame<T>(q: seq<T>, i: nat)
    requires i < |q| && q == q[1..] + [q[0]]
    ensures q[i] == q[0]
  {
    if i > 0 {
      RotatedIsSame(q, i - 1);
      assert (q[1..] + [q[0]])[i - 1] == q[i];
    }
  }

  /** Asking to try again keeps the order exactly when nothing else was waiting, or only more of the same. */
  lemma RetryKeepsOrderIff(s: State)
    requires s.pending.None?
    ensures s.queue != [] ==> (GetPending(s, Retry).queue == s.queue <==> forall b :: b in s.queue ==> b == s.queue[0])
    ensures multiset(GetPending(s, Retry).queue) == multiset(s.queue) + if s.queue == [] then multiset{[]} else multiset{}
  {
    var q := s.queue;
    if q == [] {
      assert GetPending(s, Retry).queue == [[]];
      return;
    }
    assert q == [q[0]] + q[1..] && GetPending(s, Retry).queue == q[1..] + [q[0]];
    if q[1..] + [q[0]] == q {
      forall b | b in q ensures b == q[0] {
        var i :| 0 <= i < |q| && q[i] == b;
        RotatedIsSame(q, i);
      }
    } else {
      var i :| 0 <= i < |q| && (q[1..] + [q[0]])[i] != q[i];
      assert q[i] in q && (i + 1 < |q| ==> q[i + 1] in q);
    }
  }

  // ----- what fails

  /** A stream that is not closing and wants nothing written is left alone, and so is one that wants nothing read. */
  lemma IdleIsLeftAlone(s: State, v: Verdict, w: Written, r: Reading)
    requires Fits(s, v, w) && s.phase != CLOSING && s.phase != CLOSED
    ensures s.wantWrite == 0 ==> CanWrite(s, v, w) == Effect(s, [])
    ensures !s.wantRead ==> CanRead(s, r) == s
  {}

  /** A plugin that fails for good closes the stream: nothing is sent, and the buffer it was asked about is gone. */
  lemma FatalCloses(s: State, w: Written)
    requires Fits(s, Fatal, w) && s.pending.None? && (s.wantWrite > 0 || s.phase == CLOSING)
    ensures var e := CanWrite(s, Fatal, w);
      e == Effect(State(CLOSED, if s.queue == [] then [] else s.queue[1..], None, 0, false), [])
  {}

  /** A plugin that keeps a buffer for itself, or makes nothing of it, costs that buffer and nothing else. */
  lemma KeptIsGone(s: State, w: Written, v: Verdict)
    requires (v.Drop? || v == Pass([])) && Fits(s, v, w) && s.pending.None? && (s.wantWrite > 0 || s.phase == CLOSING)
    ensures var e, rest := CanWrite(s, v, w), if s.queue == [] then [] else s.queue[1..];
      e == Effect(State(s.phase, rest, None, |rest|, s.wantRead), [])
  {}

  /** One that asks for another try sends nothing and goes on wanting to write. */
  lemma RetryWaits(s: State, w: Written)
    requires Fits(s, Retry, w) && s.pending.None? && (s.wantWrite > 0 || s.phase == CLOSING)
    ensures var e := CanWrite(s, Retry, w);
      e == Effect(State(s.phase, if s.queue == [] then [[]] else s.queue[1..] + [s.queue[0]], None, 1, s.wantRead), [])
  {}

  /**
   A buffer on its way out, encoded now or left over from before: what is written of it is sent from its front, the
   rest waits; a write that fails loses the whole of it, and stops reading and writing without closing the stream.
   */
  lemma WriteIs(s: State, v: Verdict, w: Written, out: seq<byte>)
    requires Fits(s, v, w) && (s.wantWrite > 0 || s.phase == CLOSING) && out != []
    requires if s.pending.Some? then s.pending.value == out else v == Pass(out)
    ensures var e := CanWrite(s, v, w);
      var rest := if s.pending.Some? || s.queue == [] then s.queue else s.queue[1..];
      var want := if s.pending.Some? then s.wantWrite else |rest|;
      match w
      case Failed => e == Effect(State(s.phase, rest, None, 0, false), [])
      case Wrote(n) =>
        if n < |out| then e == Effect(State(s.phase, rest, Some(out[n..]), want + 1, s.wantRead), out[..n])
        else
          var phase := if want == 0 && s.phase == CLOSING then CLOSED else s.phase;
          e == Effect(State(phase, rest, None, want, s.wantRead), out)
  {
    assert out[..|out|] == out;
  }

  /**
   Reading closes a stream that was closing and has nothing more to write, if something was read; a failure stops
   reading and writing; neither touches what waits to be written.
   */
  lemma ReadIs(s: State, r: Reading)
    ensures var t := CanRead(s, r);
      && t.queue == s.queue && t.pending == s.pending
      && (t.phase != s.phase <==> s.phase == CLOSING && r == Decoded && s.wantWrite == 0)
      && (t.phase != s.phase ==> t.phase == CLOSED)
      && ((t.wantWrite, t.wantRead) ==
          if r == ReadFailed && (s.wantRead || s.phase == CLOSING || s.phase == CLOSED) then (0, false)
          else (s.wantWrite, s.wantRead))
  {}

  /** Nothing is queued on a stream that is closing or closed, and a close queues its tag if the header has gone out. */
  lemma QueuedIs(s: State, buf: seq<byte>)
    ensures s.phase == CLOSING || s.phase == CLOSED ==> RawWrite(s, buf) == s == Close(s, buf)
    ensures s.phase != CLOSING && s.phase != CLOSED ==>
      RawWrite(s, buf) == State(s.phase, s.queue + [buf], s.pending, 1, s.wantRead)
    ensures s.phase == STREAM_SENT || s.phase == STREAM || s.phase == OPEN ==>
      Close(s, buf) == State(CLOSING, s.queue + [buf], s.pending, 1, s.wantRead)
    ensures s.phase == NONE || s.phase == STREAM_RECEIVED ==>
      Close(s, buf) == State(CLOSED, s.queue, s.pending, s.wantWrite, s.wantRead)
  {}

  /** The events of a run: everything but a write of more than there is may happen at any time, and each is its function. */
  lemma EventsAre(s: State, buf: seq<byte>, r: Reading, v: Verdict, w: Written, phase: Phase)
    ensures Possible(s, Push(buf)) && Step(s, Push(buf)) == Effect(RawWrite(s, buf), [])
    ensures Possible(s, Closing(buf)) && Step(s, Closing(buf)) == Effect(Close(s, buf), [])
    ensures Possible(s, Readable(r)) && Step(s, Readable(r)) == Effect(CanRead(s, r), [])
    ensures Possible(s, WantsRead) && Step(s, WantsRead) == Effect(s.(wantRead := true), [])
    ensures Fits(s, v, w) ==> Possible(s, Writable(v, w)) && Step(s, Writable(v, w)) == CanWrite(s, v, w)
    ensures Possible(s, Negotiated(phase)) ==>
      phase != CLOSING && phase != CLOSED && Step(s, Negotiated(phase)) == Effect(s.(phase := phase), [])
    ensures s.phase != CLOSING && s.phase != CLOSED ==> Possible(s, Negotiated(OPEN)) && Possible(s, Negotiated(s.phase))
    ensures Smooth(s, Push(buf)) && Smooth(s, Closing(buf)) && Smooth(s, WantsRead) && Smooth(s, Negotiated(phase))
    ensures Smooth(s, Readable(Decoded)) && Smooth(s, Readable(Undecoded))
  {}

  // ----- the code

  class Stream {
    var phase: Phase
    var wbufq: seq<seq<byte>>
    var wbufpending: Option<seq<byte>>
    var wantWrite: nat
    var wantRead: bool

    constructor ()
      ensures View() == State(NONE, [], None, 0, false)
    {
      phase, wbufq, wbufpending, wantWrite, wantRead := NONE, [], None, 0, false;
    }

    function View(): State
      reads this
    {
      State(phase, wbufq, wbufpending, wantWrite, wantRead)
    }

    /** `_sx_get_pending_write`; false is its -1. */
    method GetPendingWrite(v: Verdict) returns (ok: bool)
      modifies this
      ensures View() == GetPending(old(View()), v)
      ensures ok <==> !(old(wbufpending).None? && v.Fatal?)
    {
      if wbufpending.Some? { return true; }
      var input := [];
      if wbufq != [] {
        input, wbufq := wbufq[0], wbufq[1..];
      }
      wantWrite := |wbufq|;
      match v {
        case Retry =>
          wbufq := wbufq + [input];
          wantWrite := 1;
        case Drop =>
        case Fatal =>
          wantRead, wantWrite := false, 0;
          return false;
        case Pass(out) =>
          if out != [] {
            wbufpending := Some(out);
          }
      }
      ok := true;
    }

    /** `sx_can_write` */
    method SxCanWrite(v: Verdict, w: Written) returns (sent: seq<byte>)
      requires Fits(View(), v, w)
      modifies this
      ensures Effect(View(), sent) == CanWrite(old(View()), v, w)
    {
      sent := [];
      if wantWrite == 0 && Rank(phase) < Rank(CLOSING) { return; }
      var ok := GetPendingWrite(v);
      if !ok {
        phase := CLOSED;
        return;
      }
      if wbufpending.None? { return; }
      var out := wbufpending.value;
      wbufpending := None;
      if w.Failed? {
        wantRead, wantWrite := false, 0;
        return;
      }
      sent := out[..w.n];
      if w.n < |out| {
        wbufpending := Some(out[w.n..]);
        wantWrite := wantWrite + 1;
      }
      if wantWrite == 0 && phase == CLOSING {
        phase := CLOSED;
      }
    }

    /** `sx_can_read`, after the application has read */
    method SxCanRead(r: Reading)
      modifies this
      ensures View() == CanRead(old(View()), r)
    {
      if !wantRead && Rank(phase) < Rank(CLOSING) { return; }
      match r {
        case ReadFailed => wantRead, wantWrite := false, 0;
        case Undecoded =>
        case Decoded =>
          if wantWrite == 0 && phase == CLOSING {
            phase := CLOSED;
          }
      }
    }

    /** `_sx_raw_write` */
    method SxRawWrite(buf: seq<byte>)
      modifies this
      ensures View() == RawWrite(old(View()), buf)
    {
      if Rank(phase) >= Rank(CLOSING) { return; }
      wbufq := wbufq + [buf];
      wantWrite := 1;
    }

    /** `sx_close` */
    method SxClose(tail: seq<byte>)
      modifies this
      ensures View() == Close(old(View()), tail)
    {
      if Rank(phase) >= Rank(CLOSING) { return; }
      if Rank(phase) >= Rank(STREAM_SENT) {
        wbufq := wbufq + [tail];
        wantWrite := 1;
        phase := CLOSING;
      } else {
        phase := CLOSED;
      }
    }
  }
}
