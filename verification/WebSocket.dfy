/**
 sx/websocket.c: the frame buffer, the header state machine and the read loop, proved
 against WebSocketModel.
 */
module WebSocket {
  import opened Wrappers
  import opened WebSocketModel
  import Rounding

  const CHUNK := 1024

  datatype HeaderState = START_STATE | GOT_SHORT_LEN | GOT_FULL_LEN | LOADED_MASK

  const UNSIGNED := 0x1_0000_0000

  /** The field `size`, an unsigned int. */
  function UnsignedSize(raw: seq<byte>): nat
    requires |raw| >= 2 && |raw| >= MaskAt(raw)
  {
    FrameSize(raw) % UNSIGNED
  }

  lemma SizeIs(raw: seq<byte>)
    requires |raw| >= 2 && |raw| >= MaskAt(raw)
    ensures UnsignedSize(raw) == FrameSize(raw) >= PayloadAt(raw)
      || (UnsignedSize(raw) < PayloadAt(raw) && FrameSize(raw) > LIMIT)
  {
    hide N;
  }

  /** The capacity of the buffer once the header is loaded, if rounding gives one. */
  function Capacity(raw: seq<byte>): Option<nat>
    requires |raw| >= 2 && |raw| >= MaskAt(raw)
  {
    var size := UnsignedSize(raw);
    if size <= CHUNK then Some(CHUNK) else if size <= LIMIT then Some(Rounding.RoundUp(size)) else None
  }

  /**
   The payload that the header announces, which is what the unmasking loop runs over, lies inside the buffer
   exactly for frames up to the limit.
   */
  lemma StaysInsideIff(raw: seq<byte>)
    requires |raw| >= 2 && |raw| >= MaskAt(raw)
    ensures Capacity(raw).Some? && PayloadAt(raw) + PayloadLen(raw) <= Capacity(raw).value <==> FrameSize(raw) <= LIMIT
  {
    hide Rounding.RoundUp, PayloadLen;
    SizeIs(raw);
    var size := UnsignedSize(raw);
    if CHUNK < size <= LIMIT { Rounding.RoundUpIsLeast(size); }
  }

  const LARGE: seq<byte> := [0x81, 0xff, 0, 0, 0, 0, 0x40, 0, 0, 0]

  /** There are frames beyond the limit: this header announces one. */
  lemma LargeFrame()
    ensures MaskAt(LARGE) == |LARGE| && FrameSize(LARGE) == LIMIT + 14 && Capacity(LARGE).None?
  {
    hide N, Rounding.RoundUp;
    assert LARGE[1] & 0x7f == 127;
    TwoBytes();
  }

  lemma TwoBytes()
    ensures N(0) == 0 && N(0x40) == 0x40
  {}

  class Frame {
    var opcode: byte
    var maskOffset: nat
    var payloadOffset: nat
    var idx: nat
    var size: nat
    var lenShort: byte
    var payloadLen: nat
    var rawdata: array<byte>
    var mask: seq<byte>
    var state: HeaderState

    constructor ()
      ensures Valid() && fresh(rawdata) && Raw() == []
    {
      opcode, maskOffset, payloadOffset, idx, size, lenShort, payloadLen := 0, 0, 0, 0, 0, 0, 0;
      rawdata := new byte[CHUNK](_ => 0);
      mask, state := [], START_STATE;
    }

    function Raw(): seq<byte>
      reads this, rawdata
      requires idx <= rawdata.Length
    {
      rawdata[..idx]
    }

    /** The header fields read so far are those of the bytes in the buffer. */
    ghost predicate Fields()
      reads this, rawdata
    {
      && idx <= rawdata.Length
      && (state != START_STATE ==> idx >= 2 && lenShort == Short(Raw()) && opcode == Raw()[0] & 0x0f)
      && (state == GOT_SHORT_LEN ==> maskOffset == 2 && idx <= MaskAt(Raw()))
      && (state == GOT_FULL_LEN || state == LOADED_MASK ==>
            && maskOffset == MaskAt(Raw()) && payloadOffset == PayloadAt(Raw())
            && idx >= maskOffset && payloadLen == PayloadLen(Raw()))
      && (state == GOT_FULL_LEN ==> idx <= payloadOffset)
      && (state == LOADED_MASK ==>
            && Loaded(Raw()) && mask == Mask(Raw()) && size == FrameSize(Raw()) <= LIMIT
            && idx <= size <= rawdata.Length)
      && (state != LOADED_MASK ==> idx <= 14 && rawdata.Length == CHUNK)
    }

    /** Between bytes the frame is incomplete, and as much of its header is known as can be. */
    ghost predicate Valid()
      reads this, rawdata
    {
      && Fields()
      && (if state == LOADED_MASK then idx < size else !Loaded(Raw()))
      && (state == START_STATE ==> idx < 2)
      && (state == GOT_SHORT_LEN ==> idx < MaskAt(Raw()))
    }

    /** `libwebsock_read_header` after another byte: more is needed, the header is loaded, or the frame is too large. */
    method ReadHeader() returns (loaded: bool, tooLarge: bool)
      requires Fields() && state != LOADED_MASK && idx >= 1 && (state == START_STATE ==> idx <= 2)
      modifies this`state, this`opcode, this`maskOffset, this`payloadOffset, this`lenShort, this`payloadLen
      modifies this`size, this`mask, this`rawdata
      ensures idx <= rawdata.Length && (rawdata == old(rawdata) || fresh(rawdata)) && Raw() == old(Raw())
      ensures loaded <==> Loaded(Raw()) && FrameSize(Raw()) <= LIMIT
      ensures tooLarge <==> Loaded(Raw()) && FrameSize(Raw()) > LIMIT
      ensures loaded ==> Fields() && state == LOADED_MASK
      ensures !loaded && !tooLarge ==> Valid()
    {
      hide N, PayloadLen;
      loaded, tooLarge := false, false;
      if state == START_STATE {
        if idx < 2 { return; }
        maskOffset := 2;
        opcode := rawdata[0] & 0x0f;
        lenShort := rawdata[1] & 0x7f;
        state := GOT_SHORT_LEN;
      }
      if state == GOT_SHORT_LEN {
        var known := ReadLength();
        if !known { return; }
      }
      if idx < payloadOffset { return; }
      tooLarge := FinishHeader();
      loaded := !tooLarge;
    }

    method FinishHeader() returns (tooLarge: bool)
      requires Fields() && state == GOT_FULL_LEN && idx >= payloadOffset
      modifies this`state, this`size, this`mask, this`rawdata
      ensures idx <= rawdata.Length && (rawdata == old(rawdata) || fresh(rawdata)) && Raw() == old(Raw())
      ensures Loaded(Raw()) && tooLarge == (FrameSize(Raw()) > LIMIT)
      ensures !tooLarge ==> Fields() && state == LOADED_MASK
    {
      hide N, PayloadLen;
      LoadMask();
      SizeIs(Raw());
      if size < payloadOffset { return true; }
      tooLarge := false;
      if size > rawdata.Length {
        tooLarge := Grow();
      }
    }

    /** The three length forms; of the eight-byte form only the low half is read. */
    method ReadLength() returns (known: bool)
      requires Fields() && state == GOT_SHORT_LEN
      modifies this`state, this`maskOffset, this`payloadOffset, this`payloadLen
      ensures Fields() && known == (idx >= MaskAt(Raw())) && state == if known then GOT_FULL_LEN else GOT_SHORT_LEN
    {
      hide N;
      if lenShort == 126 {
        if idx < 4 { return false; }
        maskOffset := maskOffset + 2;
        payloadLen := N(rawdata[2]) * 0x100 + N(rawdata[3]);
      } else if lenShort == 127 {
        if idx < 10 { return false; }
        maskOffset := maskOffset + 8;
        payloadLen := N(rawdata[6]) * 0x100_0000 + N(rawdata[7]) * 0x1_0000 + N(rawdata[8]) * 0x100 + N(rawdata[9]);
      } else {
        payloadLen := N(lenShort);
      }
      payloadOffset := maskOffset + 4;
      state := GOT_FULL_LEN;
      known := true;
    }

    method LoadMask()
      requires Fields() && state == GOT_FULL_LEN && idx >= payloadOffset
      modifies this`state, this`mask, this`size
      ensures Loaded(Raw()) && mask == Mask(Raw()) && size == UnsignedSize(Raw()) && state == LOADED_MASK
      ensures payloadOffset == PayloadAt(Raw()) && payloadLen == PayloadLen(Raw())
    {
      hide N, PayloadLen;
      mask := [];
      for i := 0 to 4
        invariant |mask| == i && forall k :: 0 <= k < i ==> mask[k] == Raw()[maskOffset + k]
      {
        mask := mask + [rawdata[maskOffset + i]];
      }
      state := LOADED_MASK;
      size := (payloadOffset + payloadLen) % UNSIGNED;
    }

    /** `realloc` */
    method Enlarge(newSize: nat)
      requires idx <= rawdata.Length <= newSize
      modifies this`rawdata
      ensures fresh(rawdata) && rawdata.Length == newSize && Raw() == old(Raw())
    {
      var bigger := new byte[newSize](_ => 0);
      forall k | 0 <= k < idx {
        bigger[k] := rawdata[k];
      }
      rawdata := bigger;
    }

    /** To the next power of two, unless rounding leaves the range of an int. */
    method Grow() returns (failed: bool)
      requires size >= 1 && rawdata.Length < size && idx <= rawdata.Length
      modifies this`rawdata
      ensures failed == (size > LIMIT) && idx <= rawdata.Length && Raw() == old(Raw())
      ensures failed ==> rawdata == old(rawdata)
      ensures !failed ==> fresh(rawdata) && size <= rawdata.Length == Rounding.RoundUp(size)
    {
      hide Rounding.RoundUp, Rounding.Pow2, Rounding.Bits;
      var newSize := Rounding.NewSize(size);
      if newSize.None? { return true; }
      Rounding.RoundUpIsLeast(size);
      Enlarge(newSize.value);
      failed := false;
    }

    /** Storing one byte; the index never passes the capacity. */
    method Store(b: byte)
      requires Valid()
      modifies this`idx, rawdata
      ensures Fields() && state == old(state) && idx == old(idx) + 1 && Raw() == old(Raw()) + [b]
      ensures state == START_STATE ==> idx <= 2
    {
      hide N, PayloadLen;
      ghost var raw := Raw();
      rawdata[idx] := b;
      idx := idx + 1;
      assert Raw() == raw + [b];
      if state != START_STATE {
        assert (raw + [b])[1] == raw[1] && (raw + [b])[0] == raw[0];
        if idx - 1 >= MaskAt(raw) { SameHeader(raw, [b]); }
      }
    }

    /** `memcpy` of the part of a read that belongs to this frame */
    method Append(bytes: seq<byte>)
      requires Fields() && state == LOADED_MASK && idx + |bytes| <= size
      modifies this`idx, rawdata
      ensures Fields() && state == LOADED_MASK && size == old(size) && Raw() == old(Raw()) + bytes
    {
      hide N, PayloadLen;
      ghost var raw := Raw();
      var i := 0;
      while i < |bytes|
        invariant i <= |bytes|
        invariant forall k :: 0 <= k < idx ==> rawdata[k] == raw[k]
        invariant forall k :: 0 <= k < i ==> rawdata[idx + k] == bytes[k]
        modifies rawdata
      {
        rawdata[idx + i] := bytes[i];
        i := i + 1;
      }
      idx := idx + |bytes|;
      assert Raw() == raw + bytes;
      SameHeader(raw, bytes);
    }

    /** Unmasking in place */
    method UnmaskPayload()
      requires Fields() && state == LOADED_MASK && idx == size
      modifies rawdata
      ensures rawdata[payloadOffset..idx] == Payload(old(Raw()))
    {
      hide N, PayloadLen;
      assert rawdata[payloadOffset..payloadOffset + payloadLen] == Raw()[payloadOffset..];
      UnmaskRange(rawdata, payloadOffset, payloadLen, mask);
    }
  }

  /** The unmasking loop */
  method UnmaskRange(buf: array<byte>, at: nat, len: nat, key: seq<byte>)
    requires at + len <= buf.Length && |key| == 4
    modifies buf
    ensures buf[at..at + len] == Unmask(old(buf[at..at + len]), key)
  {
    var j := 0;
    while j < len
      invariant j <= len
      invariant forall k :: at <= k < at + j ==> buf[k] == old(buf[k]) ^ key[(k - at) % 4]
      invariant forall k :: at + j <= k < at + len ==> buf[k] == old(buf[k])
    {
      buf[at + j] := buf[at + j] ^ key[j % 4];
      j := j + 1;
    }
  }

  /** The connection, `_sx_websocket_conn_st`. */
  class Conn {
    var frame: Frame?
    var opcode: byte
    var buf: seq<byte>
    var closing: bool
    var broken: bool
    var pongs: seq<seq<byte>>

    constructor ()
      ensures Valid() && View() == START
    {
      frame, opcode, buf, closing, broken, pongs := null, CONTINUE, [], false, false, [];
    }

    ghost predicate Valid()
      reads this, frame, if frame == null then {} else {frame.rawdata}
    {
      frame != null ==> frame.Valid() && !closing
    }

    ghost function View(): State
      reads this, frame, if frame == null then {} else {frame.rawdata}
      requires frame != null ==> frame.idx <= frame.rawdata.Length
    {
      State(if frame == null then [] else frame.Raw(), opcode, buf, pongs, closing, broken)
    }

    /** `strncpy` of a payload to the end of the output buffer, and the unclosing of <open/> */
    method Output(payload: seq<byte>)
      modifies this`buf
      ensures buf == old(buf) + Emit(payload)
    {
      var newbuf := CopyText(payload);
      buf := buf + newbuf;
      if |payload| >= 7 && newbuf[..5] == OPEN && newbuf[|payload| - 2..] == SLASH_GT {
        buf := buf[..|buf| - 1];
        buf := buf[|buf| - 1 := 0x3e];
        assert buf == old(buf) + (newbuf[..|newbuf| - 2] + [0x3e]);
      }
    }

    method CopyText(src: seq<byte>) returns (dst: seq<byte>)
      ensures dst == Strncpy(src)
    {
      dst := [];
      var i := 0;
      while i < |src| && src[i] != 0
        invariant i <= NulAt(src) && dst == src[..i]
      {
        dst := dst + [src[i]];
        i := i + 1;
      }
      ghost var k := i;
      while i < |src|
        invariant k <= i <= |src| && dst == src[..k] + Zeros(i - k)
      {
        dst := dst + [0];
        i := i + 1;
      }
    }

    /** What is done with a complete frame. */
    method Complete()
      requires frame != null && frame.Fields() && frame.state == LOADED_MASK && frame.idx == frame.size
      requires !closing && !broken
      modifies this, frame.rawdata
      ensures frame == null && View() == Finish(old(View()), old(frame.Raw()))
    {
      hide Emit;
      ghost var raw := frame.Raw();
      if frame.opcode != CONTINUE {
        opcode := frame.opcode;
      }
      if opcode == TEXT {
        frame.UnmaskPayload();
        Output(frame.rawdata[frame.payloadOffset..frame.idx]);
      } else if opcode == CLOSE {
        closing := true;
      } else if opcode == PING {
        pongs := pongs + [frame.rawdata[frame.payloadOffset..frame.idx]];
        assert frame.rawdata[frame.payloadOffset..frame.idx] == raw[PayloadAt(raw)..];
      }
      frame := null;
    }

    /** The frame being read is the one from before or a new one. */
    twostate predicate Owned()
      reads this, frame
    {
      frame != null ==>
        && (frame == old(frame) || fresh(frame))
        && ((old(frame) != null && frame.rawdata == old(frame.rawdata)) || fresh(frame.rawdata))
    }

    /** One byte into the frame; `loaded` when its header is complete and acceptable. */
    method Take(b: byte) returns (loaded: bool)
      requires Valid() && !closing && !broken
      modifies this, frame, if frame == null then {} else {frame.rawdata}
      ensures Owned() && opcode == old(opcode) && buf == old(buf) && pongs == old(pongs) && !closing
      ensures var raw := old(View()).raw + [b];
              && loaded == (Loaded(raw) && FrameSize(raw) <= LIMIT)
              && (loaded ==> frame != null && frame.Fields() && frame.state == LOADED_MASK && frame.Raw() == raw && !broken)
              && (!loaded ==> Valid() && View() == Step(old(View()), b))
    {
      hide Finish, N, PayloadLen;
      if frame == null {
        frame := new Frame();
      }
      if frame.state == LOADED_MASK {
        ghost var raw := frame.Raw();
        frame.Store(b);
        SameHeader(raw, [b]);
        return true;
      }
      frame.Store(b);
      var tooLarge;
      loaded, tooLarge := frame.ReadHeader();
      if tooLarge {
        frame, broken := null, true;
      }
    }

    /** One round of the read loop: a byte, and if its frame is loaded as much of the rest as belongs to it. */
    method OneFrame(data: seq<byte>, from: nat) returns (i: nat)
      requires Valid() && !closing && !broken && from < |data|
      modifies this, frame, if frame == null then {} else {frame.rawdata}
      ensures Valid() && Owned() && from < i <= |data|
      ensures Consume(View(), data[i..]) == Consume(old(View()), data[from..])
    {
      hide Finish, N, PayloadLen, Loaded, Consume;
      ghost var st, rest := View(), data[from + 1..];
      var b := data[from];
      assert data[from..] == [b] + rest;
      i := from + 1;
      var loaded := Take(b);
      if !loaded {
        ConsumeOne(st, b, rest);
        return;
      }
      var missing := frame.size - frame.idx;
      if |data| - i >= missing {
        CompletesWith(st, b, rest, missing);
        assert data[i..i + missing] == rest[..missing] && data[i + missing..] == rest[missing..];
        frame.Append(data[i..i + missing]);
        i := i + missing;
        FinishIgnores(st, View().raw, View().raw);
        Complete();
      } else {
        PilesWith(st, b, rest);
        assert data[i..] == rest;
        frame.Append(data[i..]);
        i := |data|;
        ConsumeNone(View(), data[i..]);
      }
    }

    /** The reading half of the plugin, `_sx_websocket_rio`, on an active connection. */
    method Rio(data: seq<byte>) returns (out: seq<byte>)
      requires Valid() && !closing && !broken
      modifies this, frame, if frame == null then {} else {frame.rawdata}
      ensures Valid() && (View(), out) == Read(old(View()), data)
    {
      hide Finish, N, PayloadLen, Step, Consume;
      var i := 0;
      assert data[0..] == data;
      while i < |data| && !closing && !broken
        invariant i <= |data| && Valid() && Owned()
        invariant Consume(View(), data[i..]) == Consume(old(View()), data)
      {
        i := OneFrame(data, i);
      }
      if closing {
        ClosingStays(View(), data[i..]);
      } else if broken {
        BrokenStays(View(), data[i..]);
      } else {
        ConsumeNone(View(), data[i..]);
      }
      out := buf;
      if closing {
        out := [];
      } else {
        buf := [];
      }
    }
  }
}
