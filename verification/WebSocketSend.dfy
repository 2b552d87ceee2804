/**
 sx/websocket.c, `libwebsock_fragment_buffer`: the frames of the server, which are not
 masked, against a reader of RFC 6455 section 5.2.
 */
module WebSocketSend {
  import opened Wrappers
  import opened WebSocketModel

  const MAX := 0xffff_fff0

  function ToByte(n: nat): byte
    requires n < 256
  {
    if n == 0 then 0 else ToByte(n - 1) + 1
  }

  lemma {:induction false} ToByteIs(n: nat)
    requires n < 256
    ensures N(ToByte(n)) == n
  {
    if n == 0 {
      ZeroIs();
    } else {
      ToByteIs(n - 1);
      NextIs(ToByte(n - 1));
    }
  }

  lemma ZeroIs()
    ensures N(0) == 0 && N(255) == 255
  {}

  lemma NextIs(b: byte)
    requires N(b) < 255
    ensures N(b + 1) == N(b) + 1
  {
    ZeroIs();
  }

  /** The bytes between the first and the payload. */
  function Length(n: nat): (h: seq<byte>)
    requires n <= MAX
    ensures |h| == if n <= 125 then 1 else if n <= 0xffff then 3 else 9
  {
    if n <= 125 then [ToByte(n)]
    else if n <= 0xffff then [126, ToByte(n / 0x100), ToByte(n % 0x100)]
    else [127, 0, 0, 0, 0, ToByte(n / 0x100_0000), ToByte(n / 0x1_0000 % 0x100), ToByte(n / 0x100 % 0x100), ToByte(n % 0x100)]
  }

  function Frame(flags: byte, data: seq<byte>): Option<seq<byte>> {
    if |data| <= MAX then Some([flags] + Length(|data|) + data) else None
  }

  // ----- a reader

  datatype Read = Bad | Frame(first: byte, payload: seq<byte>)

  /** Big-endian */
  function Number(b: seq<byte>): nat {
    if b == [] then 0 else Number(b[..|b| - 1]) * 0x100 + N(b[|b| - 1])
  }

  /** A whole unmasked frame whose length is written in as few bytes as possible. */
  function ReadFrame(b: seq<byte>): Read {
    if |b| < 2 then Bad
    else if N(b[1]) <= 125 then
      if |b| == 2 + N(b[1]) then Read.Frame(b[0], b[2..]) else Bad
    else if N(b[1]) == 126 then
      if |b| >= 4 && 125 < Number(b[2..4]) && |b| == 4 + Number(b[2..4]) then Read.Frame(b[0], b[4..]) else Bad
    else if N(b[1]) == 127 then
      if |b| >= 10 && 0xffff < Number(b[2..10]) && |b| == 10 + Number(b[2..10]) then Read.Frame(b[0], b[10..]) else Bad
    else Bad
  }

  lemma Number2(a: byte, b: byte)
    ensures Number([a, b]) == N(a) * 0x100 + N(b)
  {
    var z: seq<byte> := [];
    assert Number(z) == 0;
    NumberSnoc(z, a);
    NumberSnoc(z + [a], b);
    assert z + [a] + [b] == [a, b];
  }

  lemma NumberSnoc(s: seq<byte>, b: byte)
    ensures Number(s + [b]) == Number(s) * 0x100 + N(b)
  {
    assert (s + [b])[..|s|] == s;
  }

  lemma Number8(a: byte, b: byte, c: byte, d: byte)
    ensures Number([0, 0, 0, 0, a, b, c, d]) == ((N(a) * 0x100 + N(b)) * 0x100 + N(c)) * 0x100 + N(d)
  {
    ZeroIs();
    var z: seq<byte> := [];
    assert Number(z) == 0;
    NumberSnoc(z, 0);
    NumberSnoc(z + [0], 0);
    NumberSnoc(z + [0] + [0], 0);
    NumberSnoc(z + [0] + [0] + [0], 0);
    var y := z + [0] + [0] + [0] + [0];
    NumberSnoc(y, a);
    NumberSnoc(y + [a], b);
    NumberSnoc(y + [a] + [b], c);
    NumberSnoc(y + [a] + [b] + [c], d);
    assert y + [a] + [b] + [c] + [d] == [0, 0, 0, 0, a, b, c, d];
  }

  lemma FormBytes()
    ensures N(126) == 126 && N(127) == 127
  {
    ToByteIs(126);
    ToByteIs(127);
    ZeroIs();
  }

  /** Every frame that is built is read back, its length in the shortest form; it is built up to the limit. */
  lemma FrameIsReadBack(flags: byte, data: seq<byte>)
    ensures Frame(flags, data).Some? <==> |data| <= MAX
    ensures |data| <= MAX ==> ReadFrame(Frame(flags, data).value) == Read.Frame(flags, data)
  {
    hide ToByte, Number, N;
    var n := |data|;
    if n <= 125 {
      ToByteIs(n);
      assert ([flags] + Length(n) + data)[2..] == data;
    } else if n <= 0xffff {
      MediumIsReadBack(flags, data);
    } else if n <= MAX {
      LongIsReadBack(flags, data);
    }
  }

  lemma MediumIsReadBack(flags: byte, data: seq<byte>)
    requires 125 < |data| <= 0xffff
    ensures ReadFrame([flags] + Length(|data|) + data) == Read.Frame(flags, data)
  {
    hide ToByte, Number, N;
    FormBytes();
    var n := |data|;
    var f := [flags] + Length(n) + data;
    ToByteIs(n / 0x100);
    ToByteIs(n % 0x100);
    Number2(ToByte(n / 0x100), ToByte(n % 0x100));
    assert f[1] == 126 && f[2..4] == [ToByte(n / 0x100), ToByte(n % 0x100)] && f[4..] == data;
  }

  lemma LongIsReadBack(flags: byte, data: seq<byte>)
    requires 0xffff < |data| <= MAX
    ensures ReadFrame([flags] + Length(|data|) + data) == Read.Frame(flags, data)
  {
    hide ToByte, Number, N, Length;
    FormBytes();
    var n := |data|;
    var l := Length(n);
    LongLength(n);
    var f := [flags] + l + data;
    assert f[1] == l[0] && f[2..10] == l[1..9] && f[10..] == data;
  }

  lemma LongLength(n: nat)
    requires 0xffff < n <= MAX
    ensures Length(n)[0] == 127 && Number(Length(n)[1..9]) == n
  {
    hide ToByte, Number, N;
    var a, b, c, d := n / 0x100_0000, n / 0x1_0000 % 0x100, n / 0x100 % 0x100, n % 0x100;
    ToByteIs(a);
    ToByteIs(b);
    ToByteIs(c);
    ToByteIs(d);
    Number8(ToByte(a), ToByte(b), ToByte(c), ToByte(d));
    assert Length(n)[1..9] == [0, 0, 0, 0, ToByte(a), ToByte(b), ToByte(c), ToByte(d)];
    Digits(n);
  }

  lemma Digits(n: nat)
    ensures ((n / 0x100_0000 * 0x100 + n / 0x1_0000 % 0x100) * 0x100 + n / 0x100 % 0x100) * 0x100 + n % 0x100 == n
  {
    var q, r := n / 0x100, n % 0x100;
    var p, s := q / 0x100, q % 0x100;
    var o, t := p / 0x100, p % 0x100;
    assert n == 0x1_0000 * p + (0x100 * s + r);
    assert n == 0x100_0000 * o + (0x1_0000 * t + 0x100 * s + r);
    assert n / 0x1_0000 == p && n / 0x100_0000 == o;
  }

  lemma ByteBack(b: byte)
    ensures ToByte(N(b)) == b
  {
    ToByteIs(N(b));
    SameByte(ToByte(N(b)), b);
  }

  lemma SameByte(a: byte, b: byte)
    requires N(a) == N(b)
    ensures a == b
  {
    assert a as nat as byte == a && b as nat as byte == b;
  }

  lemma NumberOf(s: seq<byte>)
    requires |s| == 8
    ensures Number(s) == ((Number(s[..4]) * 0x100 + N(s[4])) * 0x100 + N(s[5])) * 0x1_0000 + N(s[6]) * 0x100 + N(s[7])
  {
    hide N, Number;
    assert s[..5] == s[..4] + [s[4]] && s[..6] == s[..5] + [s[5]] && s[..7] == s[..6] + [s[6]] && s == s[..7] + [s[7]];
    NumberSnoc(s[..4], s[4]);
    NumberSnoc(s[..5], s[5]);
    NumberSnoc(s[..6], s[6]);
    NumberSnoc(s[..7], s[7]);
  }

  lemma {:induction false} NumberZero(s: seq<byte>)
    requires Number(s) == 0
    ensures forall i :: 0 <= i < |s| ==> s[i] == 0
    decreases |s|
  {
    hide N;
    if s != [] {
      NumberZero(s[..|s| - 1]);
      ZeroIs();
      SameByte(s[|s| - 1], 0);
    }
  }

  /** The digits of a number of four bytes, the highest first. */
  lemma DigitsAre(n: nat, a: nat, b: nat, c: nat, d: nat)
    requires a < 0x100 && b < 0x100 && c < 0x100 && d < 0x100 && n == a * 0x100_0000 + b * 0x1_0000 + c * 0x100 + d
    ensures n / 0x100_0000 == a && n / 0x1_0000 % 0x100 == b && n / 0x100 % 0x100 == c && n % 0x100 == d
  {
    assert n / 0x100 == a * 0x1_0000 + b * 0x100 + c && n / 0x1_0000 == a * 0x100 + b;
  }

  /** And it reads nothing else: whatever is read is the frame that is built of its payload. */
  lemma ReadIsBuilt(b: seq<byte>)
    requires ReadFrame(b).Frame? && |ReadFrame(b).payload| <= MAX
    ensures Frame(ReadFrame(b).first, ReadFrame(b).payload) == Some(b)
  {
    hide N, Number, ToByte, Length;
    FormBytes();
    var r := ReadFrame(b);
    var n := |r.payload|;
    LengthBack(b, n);
    assert b == [b[0]] + Length(n) + r.payload;
  }

  lemma LengthBack(b: seq<byte>, n: nat)
    requires ReadFrame(b).Frame? && n == |ReadFrame(b).payload| <= MAX
    ensures 1 + |Length(n)| <= |b| && b[1..1 + |Length(n)|] == Length(n) && b[1 + |Length(n)|..] == ReadFrame(b).payload
  {
    hide N, Number, ToByte;
    FormBytes();
    if N(b[1]) <= 125 {
      ByteBack(b[1]);
      assert b[1..2] == [b[1]];
    } else if N(b[1]) == 126 {
      SameByte(b[1], 126);
      assert b[2..4] == [b[2], b[3]] && b[1..4] == [b[1], b[2], b[3]];
      Number2(b[2], b[3]);
      DigitsAre(n, 0, 0, N(b[2]), N(b[3]));
      ByteBack(b[2]);
      ByteBack(b[3]);
    } else {
      SameByte(b[1], 127);
      LongBack(b, n);
    }
  }

  lemma LongBack(b: seq<byte>, n: nat)
    requires |b| >= 10 && b[1] == 127 && n == Number(b[2..10]) && 0xffff < n <= MAX
    ensures b[1..10] == Length(n)
  {
    hide N, Number, ToByte;
    var s := b[2..10];
    NumberOf(s);
    var top := Number(s[..4]);
    assert top == 0;
    NumberZero(s[..4]);
    assert s[0] == s[..4][0] && s[1] == s[..4][1] && s[2] == s[..4][2] && s[3] == s[..4][3];
    DigitsAre(n, N(s[4]), N(s[5]), N(s[6]), N(s[7]));
    ByteBack(s[4]);
    ByteBack(s[5]);
    ByteBack(s[6]);
    ByteBack(s[7]);
    assert b[1..10] == [b[1]] + s;
    assert s == [s[0], s[1], s[2], s[3], s[4], s[5], s[6], s[7]];
  }

  lemma ToByteInt(n: nat)
    requires n < 256
    ensures ToByte(n) as int == n
  {
    ToByteIs(n);
    assert N(ToByte(n)) == ToByte(n) as nat;
  }

  /**
   A frame is built for at most 4294967280 bytes: the flags; the length in one byte, or in two behind 126, or in
   the last four of eight behind 127; and the bytes.
   */
  lemma BuiltIs(flags: byte, data: seq<byte>)
    ensures var f, n := Frame(flags, data), |data|;
      && (f.Some? <==> n <= 4294967280)
      && (n <= 125 ==> |f.value| == 2 + n && f.value[0] == flags && f.value[1] as int == n && f.value[2..] == data)
      && (125 < n <= 65535 ==>
            && |f.value| == 4 + n && f.value[0] == flags && f.value[1] as int == 126
            && f.value[2] as int * 256 + f.value[3] as int == n && f.value[4..] == data)
      && (65535 < n <= 4294967280 ==>
            && |f.value| == 10 + n && f.value[0] == flags && f.value[1] as int == 127
            && f.value[2] as int == 0 && f.value[3] as int == 0 && f.value[4] as int == 0 && f.value[5] as int == 0
            && f.value[6] as int * 16777216 + f.value[7] as int * 65536 + f.value[8] as int * 256 + f.value[9] as int == n
            && f.value[10..] == data)
  {
    hide ToByte;
    var n := |data|;
    if n <= 125 {
      ToByteInt(n);
    } else if n <= 65535 {
      ToByteInt(n / 0x100);
      ToByteInt(n % 0x100);
    } else if n <= 4294967280 {
      ToByteInt(n / 0x100_0000);
      ToByteInt(n / 0x1_0000 % 0x100);
      ToByteInt(n / 0x100 % 0x100);
      ToByteInt(n % 0x100);
      Digits(n);
    }
  }

  /** The head of a frame in the buffer. */
  method PutHead(frame: array<byte>, flags: byte, len: nat)
    requires len <= MAX && frame.Length == 1 + |Length(len)| + len
    modifies frame
    ensures frame[..1 + |Length(len)|] == [flags] + Length(len)
  {
    hide ToByte;
    frame[0] := flags;
    if len <= 125 {
      frame[1] := ToByte(len);
    } else if len <= 0xffff {
      frame[1] := 126;
      frame[2], frame[3] := ToByte(len / 0x100), ToByte(len % 0x100);
    } else {
      frame[1] := 127;
      frame[2], frame[3], frame[4], frame[5] := 0, 0, 0, 0;
      frame[6], frame[7] := ToByte(len / 0x100_0000), ToByte(len / 0x1_0000 % 0x100);
      frame[8], frame[9] := ToByte(len / 0x100 % 0x100), ToByte(len % 0x100);
    }
  }

  /** `libwebsock_fragment_buffer`; null is its NULL. */
  method FragmentBuffer(data: seq<byte>, flags: byte) returns (frame: array?<byte>)
    ensures frame == null <==> Frame(flags, data).None?
    ensures frame != null ==> fresh(frame) && frame[..] == Frame(flags, data).value
  {
    var len := |data|;
    var offset := 2;
    if len <= 125 {
    } else if len <= 0xffff {
      offset := 4;
    } else if len <= MAX {
      offset := 10;
    } else {
      return null;
    }
    hide Length;
    frame := new byte[offset + len](_ => 0);
    PutHead(frame, flags, len);
    var i := 0;
    while i < len
      invariant i <= len && frame[..offset] == [flags] + Length(len)
      invariant forall k :: 0 <= k < i ==> frame[offset + k] == data[k]
    {
      frame[offset + i] := data[i];
      i := i + 1;
    }
    assert frame[..] == frame[..offset] + data;
  }
}
