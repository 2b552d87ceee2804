/**
 sx/websocket.c as a function of the byte stream: what each byte of a client's masked
 frames (RFC 6455 sections 5.2 and 5.3) does to the frame being read and to the output.
 WebSocket.dfy proves the buffered, in-place code against it.
 */
module WebSocketModel {
  type byte = bv8

  const CONTINUE: byte := 0
  const TEXT: byte := 1
  const CLOSE: byte := 8
  const PING: byte := 9

  /** The size above which rounding up to a power of two leaves the range of an int. */
  const LIMIT := 0x4000_0000

  function N(b: byte): (n: nat)
    ensures n < 256
  {
    b as nat
  }

  /**
   `raw` holds the bytes of the frame being read; `broken` is set once a frame has announced a size
   beyond LIMIT, and nothing is said about what follows it.
   */
  datatype State = State(
    raw: seq<byte>, opcode: byte, out: seq<byte>, pongs: seq<seq<byte>>, closing: bool, broken: bool)

  const START := State([], CONTINUE, [], [], false, false)

  // ----- the header

  function Short(raw: seq<byte>): byte
    requires |raw| >= 2
  {
    raw[1] & 0x7f
  }

  function MaskAt(raw: seq<byte>): (n: nat)
    requires |raw| >= 2
    ensures 2 <= n <= 10
  {
    if Short(raw) == 126 then 4 else if Short(raw) == 127 then 10 else 2
  }

  function PayloadAt(raw: seq<byte>): nat
    requires |raw| >= 2
  {
    MaskAt(raw) + 4
  }

  predicate Loaded(raw: seq<byte>) {
    |raw| >= 2 && |raw| >= PayloadAt(raw)
  }

  /** Of an eight-byte length only the low four bytes are read. */
  function PayloadLen(raw: seq<byte>): nat
    requires |raw| >= 2 && |raw| >= MaskAt(raw)
  {
    if Short(raw) == 126 then N(raw[2]) * 0x100 + N(raw[3])
    else if Short(raw) == 127 then
      N(raw[6]) * 0x100_0000 + N(raw[7]) * 0x1_0000 + N(raw[8]) * 0x100 + N(raw[9])
    else N(Short(raw))
  }

  function FrameSize(raw: seq<byte>): nat
    requires |raw| >= 2 && |raw| >= MaskAt(raw)
  {
    PayloadAt(raw) + PayloadLen(raw)
  }

  // ----- the payload

  function Unmask(p: seq<byte>, mask: seq<byte>): (u: seq<byte>)
    requires |mask| == 4
    ensures |u| == |p|
  {
    seq(|p|, j requires 0 <= j < |p| => p[j] ^ mask[j % 4])
  }

  function Zeros(n: nat): (z: seq<byte>)
    ensures |z| == n
  {
    seq(n, _ => 0)
  }

  function NulAt(p: seq<byte>): (k: nat)
    ensures k <= |p| && (forall i :: 0 <= i < k ==> p[i] != 0) && (k < |p| ==> p[k] == 0)
  {
    if p == [] || p[0] == 0 then 0 else 1 + NulAt(p[1..])
  }

  /** `strncpy` of the whole payload */
  function Strncpy(p: seq<byte>): (q: seq<byte>)
    ensures |q| == |p|
  {
    p[..NulAt(p)] + Zeros(|p| - NulAt(p))
  }

  /** "<open" and "/>" */
  const OPEN: seq<byte> := [0x3c, 0x6f, 0x70, 0x65, 0x6e]
  const SLASH_GT: seq<byte> := [0x2f, 0x3e]

  predicate IsOpen(p: seq<byte>) {
    |p| >= 7 && p[..5] == OPEN && p[|p| - 2..] == SLASH_GT
  }

  /** The open element of RFC 7395 is handed on unclosed. */
  function Unclose(p: seq<byte>): seq<byte> {
    if IsOpen(p) then p[..|p| - 2] + [0x3e] else p
  }

  function Emit(p: seq<byte>): seq<byte> {
    Unclose(Strncpy(p))
  }

  // ----- one byte

  function Mask(raw: seq<byte>): (m: seq<byte>)
    requires Loaded(raw)
    ensures |m| == 4
  {
    raw[MaskAt(raw)..PayloadAt(raw)]
  }

  function Payload(raw: seq<byte>): seq<byte>
    requires Loaded(raw)
  {
    Unmask(raw[PayloadAt(raw)..], Mask(raw))
  }

  /** A complete frame; a continuation is treated like whatever opcode came last. */
  function Finish(st: State, raw: seq<byte>): State
    requires Loaded(raw)
  {
    var op := raw[0] & 0x0f;
    var opcode := if op != CONTINUE then op else st.opcode;
    var next := st.(raw := [], opcode := opcode);
    if opcode == TEXT then next.(out := st.out + Emit(Payload(raw)))
    else if opcode == CLOSE then next.(closing := true)
    else if opcode == PING then next.(pongs := st.pongs + [raw[PayloadAt(raw)..]])
    else next
  }

  function Step(st: State, b: byte): State {
    var raw := st.raw + [b];
    if st.closing || st.broken then st
    else if !Loaded(raw) then st.(raw := raw)
    else if FrameSize(raw) > LIMIT then st.(raw := [], broken := true)
    else if |raw| < FrameSize(raw) then st.(raw := raw)
    else Finish(st, raw)
  }

  function Consume(st: State, data: seq<byte>): State
    decreases |data|
  {
    if data == [] then st else Consume(Step(st, data[0]), data[1..])
  }

  /** One read event: the new state and what is handed on; a close frame discards everything. */
  function Read(st: State, data: seq<byte>): (State, seq<byte>) {
    var next := Consume(st, data);
    if next.closing then (next, []) else (next.(out := []), next.out)
  }

  // ----- consuming in pieces

  lemma {:induction false} ConsumeAppend(st: State, a: seq<byte>, b: seq<byte>)
    ensures Consume(st, a + b) == Consume(Consume(st, a), b)
    decreases |a|
  {
    if a == [] {
      assert a + b == b;
    } else {
      assert (a + b)[0] == a[0] && (a + b)[1..] == a[1..] + b;
      ConsumeAppend(Step(st, a[0]), a[1..], b);
    }
  }

  lemma StepOut(st: State, o: seq<byte>, b: byte)
    ensures Step(st.(out := o + st.out), b) == Step(st, b).(out := o + Step(st, b).out)
  {
    hide Emit, Payload;
    var raw := st.raw + [b];
    if Loaded(raw) {
      assert (o + st.out) + Emit(Payload(raw)) == o + (st.out + Emit(Payload(raw)));
    }
  }

  /** What is in the output buffer already is only appended to. */
  lemma {:induction false} ConsumeOut(st: State, o: seq<byte>, data: seq<byte>)
    ensures Consume(st.(out := o + st.out), data) == Consume(st, data).(out := o + Consume(st, data).out)
    decreases |data|
  {
    hide Step;
    if data != [] {
      StepOut(st, o, data[0]);
      ConsumeOut(Step(st, data[0]), o, data[1..]);
    }
  }

  function Concat(pieces: seq<seq<byte>>): seq<byte> {
    if pieces == [] then [] else pieces[0] + Concat(pieces[1..])
  }

  /** All that a series of reads hands on, and the state after it. */
  function Reads(st: State, pieces: seq<seq<byte>>): (State, seq<byte>)
    decreases |pieces|
  {
    if pieces == [] then (st, [])
    else
      var (next, out) := Read(st, pieces[0]);
      var (last, rest) := Reads(next, pieces[1..]);
      (last, out + rest)
  }

  lemma {:induction false} ClosingStays(st: State, data: seq<byte>)
    requires st.closing
    ensures Consume(st, data) == st
  {
    if data != [] { ClosingStays(st, data[1..]); }
  }

  /** However the stream is split into reads, the same is handed on, as long as no close frame came. */
  lemma {:induction false} SplitsDoNotMatter(st: State, pieces: seq<seq<byte>>)
    requires st.out == [] && !Consume(st, Concat(pieces)).closing
    ensures var all := Consume(st, Concat(pieces)); Reads(st, pieces) == (all.(out := []), all.out)
    decreases |pieces|
  {
    hide Step;
    if pieces != [] {
      var rest := Concat(pieces[1..]);
      ConsumeAppend(st, pieces[0], rest);
      var mid := Consume(st, pieces[0]);
      if mid.closing { ClosingStays(mid, rest); }
      var next := mid.(out := []);
      assert mid.out + [] == mid.out;
      ConsumeOut(next, mid.out, rest);
      SplitsDoNotMatter(next, pieces[1..]);
    }
  }

  /** Bytes of a loaded frame short of its end only pile up. */
  lemma {:induction false} Piles(st: State, data: seq<byte>)
    requires !st.closing && !st.broken && Loaded(st.raw) && FrameSize(st.raw) <= LIMIT
    requires |st.raw| + |data| < FrameSize(st.raw)
    ensures Consume(st, data) == st.(raw := st.raw + data)
    decreases |data|
  {
    if data == [] {
      assert st.raw + data == st.raw;
    } else {
      SameHeader(st.raw, [data[0]]);
      assert st.raw + data == (st.raw + [data[0]]) + data[1..];
      Piles(st.(raw := st.raw + [data[0]]), data[1..]);
    }
  }

  /** The header does not depend on what follows it. */
  lemma SameHeader(raw: seq<byte>, more: seq<byte>)
    requires |raw| >= 2 && |raw| >= MaskAt(raw)
    ensures MaskAt(raw + more) == MaskAt(raw) && PayloadLen(raw + more) == PayloadLen(raw)
    ensures Loaded(raw) ==> Loaded(raw + more) && Mask(raw + more) == Mask(raw)
  {
    hide N;
    var all := raw + more;
    assert all[1] == raw[1];
    if Loaded(raw) { assert all[MaskAt(raw)..PayloadAt(raw)] == raw[MaskAt(raw)..PayloadAt(raw)]; }
  }

  lemma Completes(st: State, data: seq<byte>)
    requires !st.closing && !st.broken && Loaded(st.raw) && FrameSize(st.raw) <= LIMIT
    requires |st.raw| < FrameSize(st.raw) && |st.raw| + |data| == FrameSize(st.raw)
    ensures Consume(st, data) == Finish(st, st.raw + data)
  {
    hide Finish, PayloadLen;
    var most, last := data[..|data| - 1], data[|data| - 1];
    assert data == most + [last];
    ConsumeAppend(st, most, [last]);
    Piles(st, most);
    SameHeader(st.raw, most + [last]);
    assert (st.raw + most) + [last] == st.raw + data;
    FinishIgnores(st, st.raw + most, st.raw + data);
  }

  lemma FinishIgnores(st: State, raw: seq<byte>, all: seq<byte>)
    requires Loaded(all)
    ensures Finish(st.(raw := raw), all) == Finish(st, all)
  {}

  /** A byte that leaves a frame loaded, and the bytes after it that complete the frame. */
  lemma CompletesWith(st: State, b: byte, rest: seq<byte>, n: nat)
    requires !st.closing && !st.broken
    requires Loaded(st.raw + [b]) && FrameSize(st.raw + [b]) <= LIMIT && |st.raw| + 1 + n == FrameSize(st.raw + [b])
    requires n <= |rest|
    ensures Consume(st, [b] + rest) == Consume(Finish(st, st.raw + [b] + rest[..n]), rest[n..])
  {
    hide Finish, PayloadLen;
    var raw := st.raw + [b];
    assert ([b] + rest)[1..] == rest && rest[..n] + rest[n..] == rest;
    ConsumeAppend(Step(st, b), rest[..n], rest[n..]);
    if n == 0 {
      assert raw + rest[..n] == raw;
    } else {
      Completes(st.(raw := raw), rest[..n]);
      FinishIgnores(st, raw, raw + rest[..n]);
    }
  }

  /** The same, when the read ends before the frame does. */
  lemma PilesWith(st: State, b: byte, rest: seq<byte>)
    requires !st.closing && !st.broken
    requires Loaded(st.raw + [b]) && FrameSize(st.raw + [b]) <= LIMIT && |st.raw| + 1 + |rest| < FrameSize(st.raw + [b])
    ensures Consume(st, [b] + rest) == st.(raw := st.raw + [b] + rest)
  {
    hide Finish, PayloadLen;
    assert ([b] + rest)[1..] == rest;
    Piles(st.(raw := st.raw + [b]), rest);
  }

  lemma ConsumeOne(st: State, b: byte, rest: seq<byte>)
    ensures Consume(st, [b] + rest) == Consume(Step(st, b), rest)
  {
    assert ([b] + rest)[1..] == rest;
  }

  lemma ConsumeNone(st: State, none: seq<byte>)
    requires none == []
    ensures Consume(st, none) == st
  {}

  lemma {:induction false} BrokenStays(st: State, data: seq<byte>)
    requires st.broken
    ensures Consume(st, data) == st
  {
    if data != [] { BrokenStays(st, data[1..]); }
  }
}
