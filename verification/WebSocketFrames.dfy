/**
 What a client's frames amount to: masked frames of RFC 6455 section 5.2 in any of the
 three length forms, cut into reads at any place.
 */
module WebSocketFrames {
  import opened WebSocketModel

  /** `head` is everything before the masking key. */
  datatype ClientFrame = ClientFrame(head: seq<byte>, mask: seq<byte>, payload: seq<byte>)

  predicate FrameOk(f: ClientFrame) {
    && |f.head| >= 2 && |f.head| == MaskAt(f.head) && PayloadLen(f.head) == |f.payload|
    && |f.mask| == 4 && |f.head| + 4 + |f.payload| <= LIMIT
  }

  function Opcode(f: ClientFrame): byte
    requires FrameOk(f)
  {
    f.head[0] & 0x0f
  }

  /** The frame on the wire, with its payload masked. */
  function Wire(f: ClientFrame): seq<byte>
    requires FrameOk(f)
  {
    f.head + f.mask + Unmask(f.payload, f.mask)
  }

  lemma UnmaskTwice(p: seq<byte>, mask: seq<byte>)
    requires |mask| == 4
    ensures Unmask(Unmask(p, mask), mask) == p
  {
    forall j | 0 <= j < |p| ensures Unmask(Unmask(p, mask), mask)[j] == p[j] {
      XorTwice(p[j], mask[j % 4]);
    }
  }

  lemma XorTwice(a: byte, b: byte)
    ensures (a ^ b) ^ b == a
  {}

  lemma {:induction false} HeaderPiles(st: State, data: seq<byte>)
    requires !st.closing && !st.broken && st.raw == []
    requires forall k :: 0 <= k <= |data| ==> !Loaded(data[..k])
    ensures Consume(st, data) == st.(raw := data)
    decreases |data|
  {
    if data != [] {
      var most, last := data[..|data| - 1], data[|data| - 1];
      assert data == most + [last] && data[..|data|] == data;
      ConsumeAppend(st, most, [last]);
      forall k | 0 <= k <= |most| ensures !Loaded(most[..k]) {
        assert most[..k] == data[..k];
      }
      HeaderPiles(st, most);
    }
  }

  lemma WireHeader(f: ClientFrame)
    requires FrameOk(f)
    ensures var w, n := Wire(f), |f.head| + 4;
            && Loaded(w) && PayloadAt(w) == n && FrameSize(w) == |w| && Mask(w) == f.mask && Payload(w) == f.payload
            && w[n..] == Unmask(f.payload, f.mask) && w[0] == f.head[0]
            && Loaded(w[..n]) && FrameSize(w[..n]) == |w| && PayloadAt(w[..n]) == n
            && forall k :: 0 <= k < n ==> !Loaded(w[..k])
  {
    hide N;
    var w, n := Wire(f), |f.head| + 4;
    var rest := f.mask + Unmask(f.payload, f.mask);
    assert w == f.head + rest && w[..n] == f.head + f.mask;
    SameHeader(f.head, rest);
    SameHeader(f.head, f.mask);
    forall k | 0 <= k < n ensures !Loaded(w[..k]) {
      if k >= 2 { assert w[..k][1] == f.head[1]; }
    }
    UnmaskTwice(f.payload, f.mask);
    assert w[n..] == Unmask(f.payload, f.mask);
    assert w[|f.head|..n] == f.mask;
  }

  /** One frame, from its first byte to its last. */
  lemma FrameIsRead(st: State, f: ClientFrame)
    requires FrameOk(f) && st.raw == [] && !st.closing && !st.broken
    ensures Consume(st, Wire(f)) == Finish(st, Wire(f))
  {
    hide Finish, Mask, Payload, PayloadLen, PayloadAt;
    var w, n := Wire(f), |f.head| + 4;
    WireHeader(f);
    var before, last, rest := w[..n - 1], w[n - 1], w[n..];
    forall k | 0 <= k <= n - 1 ensures !Loaded(before[..k]) {
      assert before[..k] == w[..k];
    }
    HeaderPiles(st, before);
    assert before + [last] == w[..n] && w[..n] + rest == w && before + ([last] + rest) == w;
    ConsumeAppend(st, before, [last] + rest);
    assert ([last] + rest)[0] == last && ([last] + rest)[1..] == rest;
    var mid := st.(raw := before);
    if rest == [] {
      assert w[..n] == w;
      assert Step(mid, last) == Finish(mid, w);
      FinishIgnores(st, before, w);
    } else {
      assert Step(mid, last) == st.(raw := w[..n]);
      Completes(st.(raw := w[..n]), rest);
      FinishIgnores(st, w[..n], w);
    }
  }

  // ----- series of frames

  predicate FramesOk(fs: seq<ClientFrame>) {
    forall i :: 0 <= i < |fs| ==> FrameOk(fs[i])
  }

  function WireAll(fs: seq<ClientFrame>): seq<byte>
    requires FramesOk(fs)
    decreases |fs|
  {
    if fs == [] then [] else Wire(fs[0]) + WireAll(fs[1..])
  }

  function Remember(opcode: byte, f: ClientFrame): byte
    requires FrameOk(f)
  {
    if Opcode(f) != CONTINUE then Opcode(f) else opcode
  }

  /** What a series of frames hands on, given the opcode remembered before it. */
  function Emitted(opcode: byte, fs: seq<ClientFrame>): seq<byte>
    requires FramesOk(fs)
    decreases |fs|
  {
    if fs == [] then []
    else
      var now := Remember(opcode, fs[0]);
      (if now == TEXT then Emit(fs[0].payload) else []) + Emitted(now, fs[1..])
  }

  predicate NoClose(fs: seq<ClientFrame>)
    requires FramesOk(fs)
  {
    forall i :: 0 <= i < |fs| ==> Opcode(fs[i]) != CLOSE
  }

  lemma {:induction false} FramesAreRead(st: State, fs: seq<ClientFrame>)
    requires FramesOk(fs) && NoClose(fs) && st.raw == [] && !st.closing && !st.broken && st.opcode != CLOSE
    ensures var next := Consume(st, WireAll(fs));
            next.raw == [] && !next.closing && !next.broken && next.out == st.out + Emitted(st.opcode, fs)
    decreases |fs|
  {
    hide Emit, Unmask, Mask, PayloadLen;
    if fs == [] {
      assert st.out + [] == st.out;
    } else {
      WireHeader(fs[0]);
      FrameIsRead(st, fs[0]);
      ConsumeAppend(st, Wire(fs[0]), WireAll(fs[1..]));
      var next := Finish(st, Wire(fs[0]));
      var first := if next.opcode == TEXT then Emit(fs[0].payload) else [];
      assert next.opcode == Remember(st.opcode, fs[0]) && next.out == st.out + first;
      FramesAreRead(next, fs[1..]);
      assert st.out + first + Emitted(next.opcode, fs[1..]) == st.out + (first + Emitted(next.opcode, fs[1..]));
    }
  }

  // ----- text

  /** Nothing after a NUL byte but NUL bytes. */
  predicate NulTerminated(p: seq<byte>) {
    forall i :: NulAt(p) <= i < |p| ==> p[i] == 0
  }

  /** The payloads that are handed on as they are. */
  lemma EmitsUnchangedIff(p: seq<byte>)
    ensures Emit(p) == p <==> NulTerminated(p) && !IsOpen(p)
  {
    var q := Strncpy(p);
    if NulTerminated(p) {
      assert q == p;
    } else {
      var i :| NulAt(p) <= i < |p| && p[i] != 0;
      assert q[i] == 0;
    }
    if Emit(p) == p {
      assert |Unclose(q)| == |p| && !IsOpen(q) && q == p;
    }
  }

  function Payloads(fs: seq<ClientFrame>): seq<byte>
    decreases |fs|
  {
    if fs == [] then [] else fs[0].payload + Payloads(fs[1..])
  }

  lemma {:induction false} TextIsEmitted(opcode: byte, fs: seq<ClientFrame>)
    requires FramesOk(fs) && (fs != [] ==> Remember(opcode, fs[0]) == TEXT)
    requires forall i :: 0 <= i < |fs| ==> Opcode(fs[i]) == TEXT || Opcode(fs[i]) == CONTINUE
    requires forall i :: 0 <= i < |fs| ==> NulTerminated(fs[i].payload) && !IsOpen(fs[i].payload)
    ensures Emitted(opcode, fs) == Payloads(fs)
    decreases |fs|
  {
    hide Emit;
    if fs != [] {
      EmitsUnchangedIff(fs[0].payload);
      TextIsEmitted(TEXT, fs[1..]);
    }
  }

  /**
   Any series of TEXT and CONTINUATION frames, split into reads anyhow, hands on exactly the
   concatenated payloads.
   */
  lemma TextArrives(fs: seq<ClientFrame>, pieces: seq<seq<byte>>)
    requires FramesOk(fs) && Concat(pieces) == WireAll(fs)
    requires forall i :: 0 <= i < |fs| ==> fs[i].head[0] & 0x0f == 1 || fs[i].head[0] & 0x0f == 0
    requires fs != [] ==> fs[0].head[0] & 0x0f == 1
    requires forall i :: 0 <= i < |fs| ==> NulTerminated(fs[i].payload) && !IsOpen(fs[i].payload)
    ensures Reads(START, pieces).1 == Payloads(fs)
  {
    hide Consume, Emitted, Payloads;
    FramesAreRead(START, fs);
    TextIsEmitted(CONTINUE, fs);
    SplitsDoNotMatter(START, pieces);
    assert START.out + Payloads(fs) == Payloads(fs);
  }

  // ----- where continuations go wrong

  /** A continuation is handed on as text exactly when TEXT is the last opcode remembered. */
  lemma ContinuationIff(st: State, f: ClientFrame)
    requires FrameOk(f) && Opcode(f) == CONTINUE && Emit(f.payload) != []
    requires st.raw == [] && !st.closing && !st.broken
    ensures Consume(st, Wire(f)).out == st.out + Emit(f.payload) <==> st.opcode == TEXT
  {
    hide Emit;
    WireHeader(f);
    FrameIsRead(st, f);
  }

  /** The text of a series of frames: what its text frames and continuations are to hand on. */
  function Text(fs: seq<ClientFrame>): seq<byte>
    requires FramesOk(fs)
    decreases |fs|
  {
    if fs == [] then []
    else (if Opcode(fs[0]) == TEXT || Opcode(fs[0]) == CONTINUE then Emit(fs[0].payload) else []) + Text(fs[1..])
  }

  /** Some frame of another opcode stands before a continuation with output. */
  ghost predicate Interrupted(fs: seq<ClientFrame>)
    requires FramesOk(fs)
  {
    exists i, j :: 0 <= i < j < |fs| && Opcode(fs[i]) != TEXT && Opcode(fs[i]) != CONTINUE
                   && Opcode(fs[j]) == CONTINUE && Emit(fs[j].payload) != []
  }

  /** Fragments without another TEXT, after a frame of another opcode, hand on nothing. */
  lemma {:induction false} Swallowed(opcode: byte, fs: seq<ClientFrame>)
    requires FramesOk(fs) && opcode != TEXT && forall i :: 0 <= i < |fs| ==> Opcode(fs[i]) != TEXT
    ensures Emitted(opcode, fs) == []
    ensures Text(fs) == [] <==> forall j :: 0 <= j < |fs| && Opcode(fs[j]) == CONTINUE ==> Emit(fs[j].payload) == []
    decreases |fs|
  {
    hide Emit;
    if fs != [] {
      Swallowed(Remember(opcode, fs[0]), fs[1..]);
      assert forall j :: 1 <= j < |fs| ==> fs[j] == fs[1..][j - 1];
    }
  }

  lemma InterruptedStep(fs: seq<ClientFrame>)
    requires FramesOk(fs) && fs != []
    ensures Interrupted(fs) <==>
            (Interrupted(fs[1..])
             || (Opcode(fs[0]) != TEXT && Opcode(fs[0]) != CONTINUE
                 && exists j :: 1 <= j < |fs| && Opcode(fs[j]) == CONTINUE && Emit(fs[j].payload) != []))
  {
    hide Emit, FrameOk;
    assert forall j :: 1 <= j < |fs| ==> fs[j] == fs[1..][j - 1];
    if Interrupted(fs[1..]) {
      var i, j :| 0 <= i < j < |fs| - 1 && Opcode(fs[1..][i]) != TEXT && Opcode(fs[1..][i]) != CONTINUE
                  && Opcode(fs[1..][j]) == CONTINUE && Emit(fs[1..][j].payload) != [];
      assert fs[i + 1] == fs[1..][i] && fs[j + 1] == fs[1..][j];
    }
    if Interrupted(fs) {
      var i, j :| 0 <= i < j < |fs| && Opcode(fs[i]) != TEXT && Opcode(fs[i]) != CONTINUE
                  && Opcode(fs[j]) == CONTINUE && Emit(fs[j].payload) != [];
      if i > 0 { assert fs[1..][i - 1] == fs[i] && fs[1..][j - 1] == fs[j]; }
    }
  }

  lemma {:induction false} EmittedIsTextIff(fs: seq<ClientFrame>)
    requires FramesOk(fs) && forall i :: 0 <= i < |fs| ==> Opcode(fs[i]) != TEXT
    ensures Emitted(TEXT, fs) == Text(fs) <==> !Interrupted(fs)
    decreases |fs|
  {
    hide Emit, FrameOk, Interrupted;
    if fs == [] {
      NotInterrupted(fs);
    } else {
      var rest := fs[1..];
      InterruptedStep(fs);
      assert forall j :: 1 <= j < |fs| ==> fs[j] == rest[j - 1];
      if Opcode(fs[0]) == CONTINUE {
        EmittedIsTextIff(rest);
        SameFront(Emit(fs[0].payload), Emitted(TEXT, rest), Text(rest));
      } else {
        Swallowed(Opcode(fs[0]), rest);
        InterruptedLater(rest);
        assert [] + Text(rest) == Text(rest);
      }
    }
  }

  lemma NotInterrupted(fs: seq<ClientFrame>)
    requires fs == []
    ensures !Interrupted(fs)
  {}

  lemma InterruptedLater(fs: seq<ClientFrame>)
    requires FramesOk(fs)
    ensures Interrupted(fs) ==> exists j :: 0 <= j < |fs| && Opcode(fs[j]) == CONTINUE && Emit(fs[j].payload) != []
  {
    hide Emit, FrameOk;
  }

  lemma SameFront(p: seq<byte>, a: seq<byte>, b: seq<byte>)
    ensures p + a == p + b <==> a == b
  {
    if p + a == p + b { assert (p + a)[|p|..] == a && (p + b)[|p|..] == b; }
  }

  /**
   A fragmented message, in any split into reads: its text is handed on exactly if no frame of another opcode,
   which RFC 6455 section 5.4 allows, stands before a continuation of it that has output.
   */
  lemma MessageArrivesIff(fs: seq<ClientFrame>, pieces: seq<seq<byte>>)
    requires FramesOk(fs) && NoClose(fs) && Concat(pieces) == WireAll(fs)
    requires fs != [] && Opcode(fs[0]) == TEXT && forall i :: 0 < i < |fs| ==> Opcode(fs[i]) != TEXT
    ensures Reads(START, pieces).1 == Text(fs) <==> !Interrupted(fs[1..])
  {
    hide Consume, Interrupted, Emit, FrameOk;
    FramesAreRead(START, fs);
    SplitsDoNotMatter(START, pieces);
    EmittedIsTextIff(fs[1..]);
    SameFront(Emit(fs[0].payload), Emitted(TEXT, fs[1..]), Text(fs[1..]));
    assert START.out + Emitted(CONTINUE, fs) == Emitted(CONTINUE, fs);
  }

  /** RFC 6455 section 5.4 lets a ping stand between the fragments of a message; the rest is then answered, not read. */
  lemma PingSwallowsContinuation(st: State, ping: ClientFrame, f: ClientFrame)
    requires FrameOk(ping) && FrameOk(f) && Opcode(ping) == PING && Opcode(f) == CONTINUE
    requires st.raw == [] && !st.closing && !st.broken
    ensures var next := Consume(st, Wire(ping) + Wire(f));
            next.out == st.out && next.opcode == PING
            && next.pongs == st.pongs + [Unmask(ping.payload, ping.mask), Unmask(f.payload, f.mask)]
  {
    hide Emit, Unmask;
    WireHeader(ping);
    WireHeader(f);
    FrameIsRead(st, ping);
    ConsumeAppend(st, Wire(ping), Wire(f));
    FrameIsRead(Finish(st, Wire(ping)), f);
  }
}
