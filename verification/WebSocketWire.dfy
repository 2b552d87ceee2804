/**
 WebSocket frames byte by byte: what the header bytes of RFC 6455 section 5.2 announce, how the masking key of section
 5.3 is applied, what each opcode does, and what becomes of a payload.
 */
module WebSocketWire {
  import opened WebSocketModel
  import opened WebSocketFrames

  // ----- headers

  lemma LowBits(b: byte)
    ensures (b & 0x7f) as int < 128
    ensures b & 0x7f == 126 <==> (b & 0x7f) as int == 126
    ensures b & 0x7f == 127 <==> (b & 0x7f) as int == 127
  {}

  lemma ValueIs(b: byte)
    ensures N(b) == b as int
  {}

  lemma MaskAtIs(head: seq<byte>)
    requires |head| >= 2
    ensures var s := (head[1] & 0x7f) as int;
      s < 128 && MaskAt(head) == if s == 126 then 4 else if s == 127 then 10 else 2
  {
    LowBits(head[1]);
  }

  lemma PayloadLenIs(head: seq<byte>)
    requires |head| >= 2 && |head| == MaskAt(head)
    ensures var s := (head[1] & 0x7f) as int;
      PayloadLen(head) ==
      if s == 126 then head[2] as int * 256 + head[3] as int
      else if s == 127 then
        head[6] as int * 16777216 + head[7] as int * 65536 + head[8] as int * 256 + head[9] as int
      else s
  {
    hide N;
    LowBits(head[1]);
    forall k | 0 <= k < |head| ensures N(head[k]) == head[k] as int { ValueIs(head[k]); }
    ValueIs(head[1] & 0x7f);
  }

  /**
   The three length forms: seven bits, or 126 and two bytes, or 127 and eight bytes of which the last four count; the
   masking key follows, and a frame has at most 2^30 bytes.
   */
  lemma FrameOkIff(f: ClientFrame)
    ensures FrameOk(f) <==>
      && |f.mask| == 4 && |f.head| + 4 + |f.payload| <= 0x4000_0000
      && (|| (|f.head| == 2 && (f.head[1] & 0x7f) as int <= 125 && |f.payload| == (f.head[1] & 0x7f) as int)
          || (|f.head| == 4 && (f.head[1] & 0x7f) as int == 126
              && |f.payload| == f.head[2] as int * 256 + f.head[3] as int)
          || (|f.head| == 10 && (f.head[1] & 0x7f) as int == 127
              && |f.payload| == f.head[6] as int * 16777216 + f.head[7] as int * 65536
                                + f.head[8] as int * 256 + f.head[9] as int))
  {
    hide MaskAt, PayloadLen;
    if |f.head| >= 2 {
      MaskAtIs(f.head);
      if |f.head| == MaskAt(f.head) { PayloadLenIs(f.head); }
    }
  }

  /** On the wire stand the header, the key, and the payload with its j-th byte changed by the key's (j mod 4)-th. */
  lemma WireIs(f: ClientFrame, j: nat)
    requires FrameOk(f) && j < |f.payload|
    ensures var w, n := Wire(f), |f.head| + 4;
      |w| == n + |f.payload| && w[..n] == f.head + f.mask && w[n + j] == f.payload[j] ^ f.mask[j % 4]
  {
    var w, n := Wire(f), |f.head| + 4;
    assert w[n..] == Unmask(f.payload, f.mask) && w[n + j] == w[n..][j];
    assert w[..n] == f.head + f.mask;
  }

  /** A header that announces more ends the reading: nothing is made of that frame or of anything behind it. */
  lemma TooLargeBreaks(st: State, b: byte, rest: seq<byte>)
    requires !st.closing && !st.broken && Loaded(st.raw + [b]) && FrameSize(st.raw + [b]) > 0x4000_0000
    ensures Consume(st, [b] + rest) == st.(raw := [], broken := true)
  {
    ConsumeOne(st, b, rest);
    BrokenStays(Step(st, b), rest);
  }

  // ----- payloads

  /**
   What becomes of a payload: it is copied up to the first NUL and filled up with NULs; and if that begins with "<open",
   ends in "/>" and has seven characters or more, the slash goes.
   */
  lemma EmitIs(p: seq<byte>, k: nat, q: seq<byte>)
    requires k <= |p| && (forall i :: 0 <= i < k ==> p[i] != 0) && (k < |p| ==> p[k] == 0)
    requires |q| == |p| && forall i :: 0 <= i < |p| ==> q[i] == if i < k then p[i] else 0
    ensures Emit(p) ==
      if && |p| >= 7 && q[0] as char == '<' && q[1] as char == 'o' && q[2] as char == 'p' && q[3] as char == 'e'
         && q[4] as char == 'n' && q[|p| - 2] as char == '/' && q[|p| - 1] as char == '>'
      then q[..|p| - 2] + [q[|p| - 1]] else q
  {
    FirstNul(p, k);
    assert Strncpy(p) == q;
    if |p| >= 7 {
      OpenBytes(q);
    }
  }

  lemma {:induction false} FirstNul(p: seq<byte>, k: nat)
    requires k <= |p| && (forall i :: 0 <= i < k ==> p[i] != 0) && (k < |p| ==> p[k] == 0)
    ensures NulAt(p) == k
  {
    var n := NulAt(p);
    assert n < |p| ==> p[n] == 0;
  }

  lemma SameChar(b: byte, c: byte)
    ensures b as char == c as char <==> b == c
  {
    if b as char == c as char {
      assert b as int == c as int;
      assert b as int as byte == b && c as int as byte == c;
    }
  }

  lemma OpenBytes(q: seq<byte>)
    requires |q| >= 7
    ensures IsOpen(q) <==>
      && q[0] as char == '<' && q[1] as char == 'o' && q[2] as char == 'p' && q[3] as char == 'e'
      && q[4] as char == 'n' && q[|q| - 2] as char == '/' && q[|q| - 1] as char == '>'
    ensures q[|q| - 1] as char == '>' <==> q[|q| - 1] == 0x3e
  {
    SameChar(q[0], 0x3c);
    SameChar(q[1], 0x6f);
    SameChar(q[2], 0x70);
    SameChar(q[3], 0x65);
    SameChar(q[4], 0x6e);
    SameChar(q[|q| - 2], 0x2f);
    SameChar(q[|q| - 1], 0x3e);
    assert q[..5] == [q[0], q[1], q[2], q[3], q[4]] && q[|q| - 2..] == [q[|q| - 2], q[|q| - 1]];
  }

  // ----- opcodes

  /**
   A frame is taken for what its low four bits say, or, if they are 0, for what the frame before it was taken for: 1 hands
   on its payload, 8 closes, 9 is answered with its payload as it stood on the wire, and anything else does nothing.
   */
  lemma FrameDoes(st: State, f: ClientFrame, op: byte)
    requires FrameOk(f) && st.raw == [] && !st.closing && !st.broken
    requires op == (if f.head[0] & 0x0f != 0 then f.head[0] & 0x0f else st.opcode)
    ensures var w := Wire(f);
      Consume(st, w) ==
      State([], op, st.out + (if op == 1 then Emit(f.payload) else []),
            st.pongs + (if op == 9 then [w[|f.head| + 4..]] else []), op == 8, false)
  {
    hide Emit, Unmask, Mask, Payload, PayloadLen, MaskAt;
    FrameIsRead(st, f);
    WireHeader(f);
    assert st.out + [] == st.out && st.pongs + [] == st.pongs;
  }

  /**
   A close frame discards the text that was read before it in the same read event, and everything after it; what
   earlier read events handed on stays.
   */
  lemma CloseDiscards(fs: seq<ClientFrame>, close: ClientFrame, rest: seq<byte>)
    requires FramesOk(fs) && NoClose(fs) && FrameOk(close) && close.head[0] & 0x0f == 8
    ensures Reads(START, [WireAll(fs) + (Wire(close) + rest)]).1 == []
    ensures Reads(START, [WireAll(fs), Wire(close) + rest]).1 == Emitted(CONTINUE, fs)
  {
    hide Emit, Wire, WireAll, Emitted, Finish;
    FramesAreRead(START, fs);
    var mid := Consume(START, WireAll(fs));
    ClosesAll(mid, close, rest);
    ConsumeAppend(START, WireAll(fs), Wire(close) + rest);
    ReadOne(START, WireAll(fs) + (Wire(close) + rest));
    var next := mid.(out := []);
    ClosesAll(next, close, rest);
    assert Reads(START, [WireAll(fs), Wire(close) + rest]).1
        == Read(START, WireAll(fs)).1 + Reads(next, [Wire(close) + rest]).1 by {
      assert [WireAll(fs), Wire(close) + rest][1..] == [Wire(close) + rest];
    }
    ReadOne(next, Wire(close) + rest);
    assert START.out + Emitted(CONTINUE, fs) == Emitted(CONTINUE, fs) == mid.out;
    assert mid.out + [] == mid.out;
  }

  lemma ReadOne(st: State, data: seq<byte>)
    ensures Reads(st, [data]).1 == Read(st, data).1
  {
    hide Read;
    assert [data][1..] == [];
    assert Reads(Read(st, data).0, []).1 == [];
    assert Read(st, data).1 + [] == Read(st, data).1;
  }

  lemma ClosesAll(st: State, close: ClientFrame, rest: seq<byte>)
    requires FrameOk(close) && close.head[0] & 0x0f == 8 && st.raw == [] && !st.closing && !st.broken
    ensures Consume(st, Wire(close) + rest).closing
  {
    hide Wire, Step;
    FrameDoes(st, close, 8);
    ConsumeAppend(st, Wire(close), rest);
    ClosingStays(Consume(st, Wire(close)), rest);
  }
}
