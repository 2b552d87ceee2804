/**
 util/crypt_blowfish.c: bcrypt's own base 64, which writes no padding and stops in the
 middle of a group.
 */
module BcryptBase64 {
  import opened Wrappers

  type byte = bv8

  /** BF_itoa64 */
  function Itoa(c: byte): byte
    requires c < 64
  {
    if c < 2 then c + 0x2e
    else if c < 28 then c - 2 + 0x41
    else if c < 54 then c - 28 + 0x61
    else c - 54 + 0x30
  }

  /** BF_atoi64 with the range test of BF_safe_atoi64; 64 stands for a character it refuses. */
  function Atoi(ch: byte): byte {
    if 0x2e <= ch <= 0x2f then ch - 0x2e
    else if 0x30 <= ch <= 0x39 then ch - 0x30 + 54
    else if 0x41 <= ch <= 0x5a then ch - 0x41 + 2
    else if 0x61 <= ch <= 0x7a then ch - 0x61 + 28
    else 64
  }

  lemma ItoaAtoi(c: byte)
    requires c < 64
    ensures Atoi(Itoa(c)) == c && Itoa(c) != 0
  {}

  lemma AtoiItoa(ch: byte)
    requires Atoi(ch) < 64
    ensures Itoa(Atoi(ch)) == ch
  {}

  /** A C string, read where its terminator or something before it may be. */
  function At(s: seq<byte>, i: nat): byte {
    if i < |s| then s[i] else 0
  }

  // ----- the bit moves of one group

  function Byte0(c1: byte, c2: byte): byte { (c1 << 2) | ((c2 & 0x30) >> 4) }
  function Byte1(c2: byte, c3: byte): byte { ((c2 & 0x0f) << 4) | ((c3 & 0x3c) >> 2) }
  function Byte2(c3: byte, c4: byte): byte { ((c3 & 0x03) << 6) | c4 }

  function Code1(a: byte): (c: byte) ensures c < 64 { a >> 2 }
  function Code2(a: byte, b: byte): (c: byte) ensures c < 64 { ((a & 0x03) << 4) | (b >> 4) }
  function Code3(b: byte, c: byte): (d: byte) ensures d < 64 { ((b & 0x0f) << 2) | (c >> 6) }
  function Code4(c: byte): (d: byte) ensures d < 64 { c & 0x3f }

  lemma GroupDecodes(a: byte, b: byte, c: byte)
    ensures Byte0(Code1(a), Code2(a, b)) == a
    ensures Byte1(Code2(a, b), Code3(b, c)) == b
    ensures Byte2(Code3(b, c), Code4(c)) == c
  {}

  lemma GroupEncodes(c1: byte, c2: byte, c3: byte, c4: byte)
    requires c1 < 64 && c2 < 64 && c3 < 64 && c4 < 64
    ensures Code1(Byte0(c1, c2)) == c1
    ensures Code2(Byte0(c1, c2), Byte1(c2, c3)) == c2 && Code2(Byte0(c1, c2), 0) == c2 & 0x30
    ensures Code3(Byte1(c2, c3), Byte2(c3, c4)) == c3 && Code3(Byte1(c2, c3), 0) == c3 & 0x3c
    ensures Code4(Byte2(c3, c4)) == c4
  {}

  // ----- BF_encode

  function Encode(s: seq<byte>): (e: seq<byte>)
    ensures |e| == CodeLength(|s|)
  {
    if |s| == 0 then []
    else if |s| == 1 then [Itoa(Code1(s[0])), Itoa(Code2(s[0], 0))]
    else if |s| == 2 then [Itoa(Code1(s[0])), Itoa(Code2(s[0], s[1])), Itoa(Code3(s[1], 0))]
    else [Itoa(Code1(s[0])), Itoa(Code2(s[0], s[1])), Itoa(Code3(s[1], s[2])), Itoa(Code4(s[2]))] + Encode(s[3..])
  }

  function CodeLength(n: nat): nat {
    n / 3 * 4 + if n % 3 == 0 then 0 else n % 3 + 1
  }

  /** The code of the first group of up to three bytes. */
  function Group(s: seq<byte>): (e: seq<byte>)
    requires s != []
    ensures |e| == if |s| >= 3 then 4 else |s| + 1
  {
    if |s| == 1 then [Itoa(Code1(s[0])), Itoa(Code2(s[0], 0))]
    else if |s| == 2 then [Itoa(Code1(s[0])), Itoa(Code2(s[0], s[1])), Itoa(Code3(s[1], 0))]
    else [Itoa(Code1(s[0])), Itoa(Code2(s[0], s[1])), Itoa(Code3(s[1], s[2])), Itoa(Code4(s[2]))]
  }

  /** One round of `BF_encode`. */
  method EncodeGroup(dst: array<byte>, at: nat, src: seq<byte>, from: nat) returns (s: nat, d: nat)
    requires from < |src| && at + |Group(src[from..])| <= dst.Length
    modifies dst
    ensures s == (if |src| - from >= 3 then from + 3 else |src|) && d == at + |Group(src[from..])|
    ensures forall k :: at <= k < d ==> dst[k] == Group(src[from..])[k - at]
    ensures forall k :: 0 <= k < dst.Length && !(at <= k < d) ==> dst[k] == old(dst[k])
  {
    hide Itoa, Code1, Code2, Code3, Code4;
    s, d := from, at;
    var c1 := src[s];
    s := s + 1;
    dst[d] := Itoa(Code1(c1));
    d := d + 1;
    if s >= |src| {
      dst[d] := Itoa(Code2(c1, 0));
      d := d + 1;
      return;
    }
    var c2 := src[s];
    s := s + 1;
    dst[d] := Itoa(Code2(c1, c2));
    d := d + 1;
    if s >= |src| {
      dst[d] := Itoa(Code3(c2, 0));
      d := d + 1;
      return;
    }
    var c3 := src[s];
    s := s + 1;
    dst[d] := Itoa(Code3(c2, c3));
    dst[d + 1] := Itoa(Code4(c3));
    d := d + 2;
  }

  lemma EncodeIsGroups(s: seq<byte>)
    requires s != []
    ensures Encode(s) == Group(s) + if |s| > 3 then Encode(s[3..]) else []
  {
    if |s| == 3 { assert Encode(s[3..]) == []; }
  }

  /** `BF_encode` into `dst` from position `at` */
  method EncodeInto(dst: array<byte>, at: nat, src: seq<byte>)
    requires src != [] && at + CodeLength(|src|) <= dst.Length
    modifies dst
    ensures dst[at..at + CodeLength(|src|)] == Encode(src)
    ensures forall k :: 0 <= k < dst.Length && !(at <= k < at + CodeLength(|src|)) ==> dst[k] == old(dst[k])
  {
    ghost var e := Encode(src);
    assert |e| == CodeLength(|src|);
    hide Group, Encode, CodeLength;
    var s, d := 0, at;
    assert src[0..] == src;
    while s < |src|
      invariant s <= |src| && at <= d <= at + |e|
      invariant forall k :: 0 <= k < at || d <= k < dst.Length ==> dst[k] == old(dst[k])
      invariant forall k :: at <= k < d ==> dst[k] == e[k - at]
      invariant if s < |src| then e[d - at..] == Encode(src[s..]) else d == at + |e|
    {
      s, d := EncodeNext(dst, at, d, src, s, e);
    }
  }

  /** One group, as part of the whole code e. */
  method EncodeNext(dst: array<byte>, at: nat, from: nat, src: seq<byte>, p: nat, ghost e: seq<byte>)
      returns (s: nat, d: nat)
    requires p < |src| && at <= from <= at + |e| <= dst.Length && e[from - at..] == Encode(src[p..])
    modifies dst
    ensures p < s <= |src| && from <= d <= at + |e|
    ensures forall k :: from <= k < d ==> dst[k] == e[k - at]
    ensures forall k :: 0 <= k < from || d <= k < dst.Length ==> dst[k] == old(dst[k])
    ensures if s < |src| then e[d - at..] == Encode(src[s..]) else d == at + |e|
  {
    hide Group, Encode;
    NextGroup(e, src, p, from - at);
    s, d := EncodeGroup(dst, from, src, p);
  }

  lemma NextGroup(e: seq<byte>, src: seq<byte>, s: nat, i: nat)
    requires s < |src| && i <= |e| && e[i..] == Encode(src[s..])
    ensures var g := Group(src[s..]);
            && |g| <= |e| - i && (forall k :: 0 <= k < |g| ==> e[i + k] == g[k])
            && (|src| - s > 3 ==> e[i + |g|..] == Encode(src[s + 3..]))
            && (|src| - s <= 3 ==> |e| == i + |g|)
  {
    hide Group, Encode;
    var g := Group(src[s..]);
    EncodeIsGroups(src[s..]);
    assert forall k :: 0 <= k < |g| ==> e[i..][k] == g[k];
    if |src| - s > 3 {
      assert src[s..][3..] == src[s + 3..];
      assert e[i + |g|..] == e[i..][|g|..];
    }
  }

  // ----- BF_decode

  function Decode(s: seq<byte>, from: nat, size: nat): (d: Option<seq<byte>>)
    requires size >= 1
    ensures d.Some? ==> |d.value| == size
    decreases size
  {
    var c1, c2, c3, c4 := Atoi(At(s, from)), Atoi(At(s, from + 1)), Atoi(At(s, from + 2)), Atoi(At(s, from + 3));
    if c1 > 63 || c2 > 63 then None
    else if size == 1 then Some([Byte0(c1, c2)])
    else if c3 > 63 then None
    else if size == 2 then Some([Byte0(c1, c2), Byte1(c2, c3)])
    else if c4 > 63 then None
    else if size == 3 then Some([Byte0(c1, c2), Byte1(c2, c3), Byte2(c3, c4)])
    else
      match Decode(s, from + 4, size - 3)
      case None => None
      case Some(rest) => Some([Byte0(c1, c2), Byte1(c2, c3), Byte2(c3, c4)] + rest)
  }

  /** One round of `BF_decode`; at most `size` bytes are wanted. */
  method DecodeGroup(src: seq<byte>, p: nat, size: nat) returns (out: seq<byte>, ok: bool)
    requires size >= 1
    ensures Decode(src, p, size) == if !ok then None else if size <= 3 then Some(out)
                                    else Prepend(out, Decode(src, p + 4, size - 3))
    ensures ok ==> |out| == if size <= 3 then size else 3
  {
    hide Atoi, Byte0, Byte1, Byte2;
    out, ok := [], false;
    var c1 := Atoi(At(src, p));
    if c1 > 63 { return; }
    var c2 := Atoi(At(src, p + 1));
    if c2 > 63 { return; }
    out := [Byte0(c1, c2)];
    if |out| >= size { return out, true; }
    var c3 := Atoi(At(src, p + 2));
    if c3 > 63 { return; }
    out := [Byte0(c1, c2), Byte1(c2, c3)];
    if |out| >= size { return out, true; }
    var c4 := Atoi(At(src, p + 3));
    if c4 > 63 { return; }
    out := [Byte0(c1, c2), Byte1(c2, c3), Byte2(c3, c4)];
    ok := true;
  }

  /** `BF_decode` of the characters from `from` on */
  method DecodeFrom(src: seq<byte>, from: nat, size: nat) returns (d: Option<seq<byte>>)
    requires size >= 1
    ensures d == Decode(src, from, size)
  {
    hide Decode;
    var out, p := [], from;
    PrependNothing(Decode(src, p, size));
    while |out| < size
      invariant |out| <= size
      invariant Decode(src, from, size) == if |out| < size then Prepend(out, Decode(src, p, size - |out|)) else Some(out)
      decreases size - |out|
    {
      ghost var before := out;
      var group, ok := DecodeGroup(src, p, size - |out|);
      if !ok { return None; }
      out, p := out + group, p + 4;
      if |out| < size { PrependTwice(before, group, Decode(src, p, size - |out|)); }
    }
    d := Some(out);
  }

  lemma PrependNothing(d: Option<seq<byte>>)
    ensures Prepend([], d) == d
  {
    if d.Some? { assert [] + d.value == d.value; }
  }

  lemma PrependTwice(a: seq<byte>, b: seq<byte>, d: Option<seq<byte>>)
    ensures Prepend(a, Prepend(b, d)) == Prepend(a + b, d)
  {
    if d.Some? { assert a + (b + d.value) == (a + b) + d.value; }
  }

  function Prepend(head: seq<byte>, tail: Option<seq<byte>>): Option<seq<byte>> {
    match tail
    case None => None
    case Some(rest) => Some(head + rest)
  }

  // ----- the two together

  /** Decoding inverts encoding, wherever the text stands and whatever follows it. */
  lemma {:induction false} DecodeEncode(s: seq<byte>, text: seq<byte>, from: nat)
    requires s != [] && from + CodeLength(|s|) <= |text| && text[from..from + CodeLength(|s|)] == Encode(s)
    ensures Decode(text, from, |s|) == Some(s)
    decreases |s|
  {
    hide Itoa, Atoi, Byte0, Byte1, Byte2, Code1, Code2, Code3, Code4, Encode, Group, Decode;
    var e := Encode(s);
    EncodeIsGroups(s);
    forall k | 0 <= k < |Group(s)| ensures At(text, from + k) == Group(s)[k] {
      assert text[from..from + CodeLength(|s|)][k] == text[from + k];
    }
    DecodeOne(s, text, from);
    if |s| > 3 {
      assert text[from + 4..from + 4 + CodeLength(|s| - 3)] == e[4..] == Encode(s[3..]);
      DecodeEncode(s[3..], text, from + 4);
      assert s[..3] + s[3..] == s;
    }
  }

  lemma DecodeOne(s: seq<byte>, text: seq<byte>, from: nat)
    requires s != [] && forall k :: 0 <= k < |Group(s)| ==> At(text, from + k) == Group(s)[k]
    ensures Decode(text, from, |s|)
         == if |s| <= 3 then Some(s) else Prepend(s[..3], Decode(text, from + 4, |s| - 3))
  {
    hide Itoa, Atoi, Byte0, Byte1, Byte2, Code1, Code2, Code3, Code4, Group, At;
    GroupCodes(s);
    assert At(text, from + 0) == Group(s)[0] && At(text, from + 1) == Group(s)[1];
    assert |s| > 1 ==> At(text, from + 2) == Group(s)[2];
    assert |s| > 2 ==> At(text, from + 3) == Group(s)[3];
    assert |s| <= 3 ==> s[..|s|] == s;
    assert s[..if |s| < 3 then |s| else 3] == if |s| == 1 then [s[0]] else if |s| == 2 then [s[0], s[1]] else [s[0], s[1], s[2]];
  }

  lemma GroupCodes(s: seq<byte>)
    requires s != []
    ensures var g, b, c := Group(s), if |s| > 1 then s[1] else 0, if |s| > 2 then s[2] else 0;
            && Atoi(g[0]) == Code1(s[0]) && Atoi(g[1]) == Code2(s[0], b)
            && (|s| > 1 ==> Atoi(g[2]) == Code3(b, c)) && (|s| > 2 ==> Atoi(g[3]) == Code4(c))
            && Byte0(Code1(s[0]), Code2(s[0], b)) == s[0]
            && Byte1(Code2(s[0], b), Code3(b, c)) == b && Byte2(Code3(b, c), Code4(c)) == c
  {
    hide Itoa, Atoi, Byte0, Byte1, Byte2, Code1, Code2, Code3, Code4;
    var b, c := if |s| > 1 then s[1] else 0, if |s| > 2 then s[2] else 0;
    ItoaAtoi(Code1(s[0]));
    ItoaAtoi(Code2(s[0], b));
    ItoaAtoi(Code3(b, c));
    ItoaAtoi(Code4(c));
    GroupDecodes(s[0], b, c);
  }

  /** Encoding inverts decoding up to the unused bits of the last character. */
  lemma {:induction false} EncodeDecode(text: seq<byte>, from: nat, size: nat)
    requires size >= 1 && Decode(text, from, size).Some?
    ensures from + CodeLength(size) <= |text|
    ensures Encode(Decode(text, from, size).value) == Canonical(text[from..from + CodeLength(size)], size)
    decreases size
  {
    hide Itoa, Atoi, Byte0, Byte1, Byte2, Code1, Code2, Code3, Code4;
    var c1, c2, c3, c4 := Atoi(At(text, from)), Atoi(At(text, from + 1)), Atoi(At(text, from + 2)), Atoi(At(text, from + 3));
    DecodeReads(text, from, size);
    CodesOf(text, from, size);
    if size <= 3 {
      EncodeDecodeShort(text, from, size);
    } else {
      EncodeDecode(text, from + 4, size - 3);
      EncodeDecodeLong(text, from, size);
    }
  }

  lemma EncodeDecodeShort(text: seq<byte>, from: nat, size: nat)
    requires 1 <= size <= 3 && Decode(text, from, size).Some? && from + CodeLength(size) <= |text|
    ensures Encode(Decode(text, from, size).value) == Canonical(text[from..from + CodeLength(size)], size)
  {
    hide Itoa, Atoi, Byte0, Byte1, Byte2, Code1, Code2, Code3, Code4, Decode, Encode, Canonical, Group;
    var code, d := text[from..from + CodeLength(size)], Decode(text, from, size).value;
    CodesOf(text, from, size);
    EncodeIsGroups(d);
    if size == 1 {
      assert code == [text[from], text[from + 1]];
      ShortGroup1(d, code[0], code[1]);
    } else if size == 2 {
      assert code == [text[from], text[from + 1], text[from + 2]];
      ShortGroup2(d, code[0], code[1], code[2]);
    } else {
      assert code == [text[from], text[from + 1], text[from + 2], text[from + 3]];
      ShortGroup3(d, code[0], code[1], code[2], code[3]);
    }
  }

  lemma ShortGroup1(d: seq<byte>, p: byte, q: byte)
    requires |d| == 1 && Itoa(Code1(d[0])) == p && Atoi(q) & 0x30 < 64 && Code2(d[0], 0) == Atoi(q) & 0x30
    ensures Group(d) == Canonical([p, q], 1)
  {
    hide Itoa, Atoi, Code1, Code2, Code3, Code4;
    assert [p, q][..1] == [p];
  }

  lemma ShortGroup2(d: seq<byte>, p: byte, q: byte, r: byte)
    requires |d| == 2 && Itoa(Code1(d[0])) == p && Itoa(Code2(d[0], d[1])) == q
    requires Atoi(r) & 0x3c < 64 && Code3(d[1], 0) == Atoi(r) & 0x3c
    ensures Group(d) == Canonical([p, q, r], 2)
  {
    hide Itoa, Atoi, Code1, Code2, Code3, Code4;
    assert [p, q, r][..2] == [p, q];
  }

  lemma ShortGroup3(d: seq<byte>, p: byte, q: byte, r: byte, t: byte)
    requires |d| == 3 && Itoa(Code1(d[0])) == p && Itoa(Code2(d[0], d[1])) == q && Itoa(Code3(d[1], d[2])) == r
    requires Itoa(Code4(d[2])) == t && Atoi(t) & 0x3f < 64 && Itoa(Atoi(t) & 0x3f) == t
    ensures Group(d) == Canonical([p, q, r, t], 3)
  {
    hide Itoa, Atoi, Code1, Code2, Code3, Code4;
    assert [p, q, r, t][..3] == [p, q, r];
  }

  lemma EncodeDecodeLong(text: seq<byte>, from: nat, size: nat)
    requires size > 3 && Decode(text, from, size).Some? && from + CodeLength(size) <= |text|
    requires Decode(text, from + 4, size - 3).Some?
    requires Encode(Decode(text, from + 4, size - 3).value)
          == Canonical(text[from + 4..from + 4 + CodeLength(size - 3)], size - 3)
    ensures Encode(Decode(text, from, size).value) == Canonical(text[from..from + CodeLength(size)], size)
  {
    hide Itoa, Atoi, Byte0, Byte1, Byte2, Code1, Code2, Code3, Code4, Encode, Canonical;
    CodesOf(text, from, size);
    var d := Decode(text, from, size).value;
    var head, rest := text[from..from + 4], text[from + 4..from + 4 + CodeLength(size - 3)];
    assert d[3..] == Decode(text, from + 4, size - 3).value;
    EncodeIsGroups(d);
    assert Group(d) == head;
    assert text[from..from + CodeLength(size)] == head + rest;
    CanonicalAppend(head, rest, size);
  }

  lemma CanonicalAppend(head: seq<byte>, rest: seq<byte>, size: nat)
    requires size > 3 && |head| == 4 && |rest| == CodeLength(size - 3)
    ensures Canonical(head + rest, size) == head + Canonical(rest, size - 3)
  {
    var code := head + rest;
    assert code[|code| - 1] == rest[|rest| - 1];
    assert code[..|code| - 1] == head + rest[..|rest| - 1];
  }

  lemma {:induction false} DecodeReads(text: seq<byte>, from: nat, size: nat)
    requires size >= 1 && Decode(text, from, size).Some?
    ensures from + CodeLength(size) <= |text|
    decreases size
  {
    hide Atoi, Byte0, Byte1, Byte2;
    NulIsNoCode();
    if size > 3 { DecodeReads(text, from + 4, size - 3); }
  }

  /** The codes of the first group are the characters they were read from. */
  lemma CodesOf(text: seq<byte>, from: nat, size: nat)
    requires size >= 1 && Decode(text, from, size).Some? && from + CodeLength(size) <= |text|
    ensures var d, c2, c3 := Decode(text, from, size).value, Atoi(text[from + 1]), Atoi(At(text, from + 2));
            && Itoa(Code1(d[0])) == text[from] && c2 < 64
            && (size == 1 ==> c2 & 0x30 < 64 && Code2(d[0], 0) == c2 & 0x30)
            && (size > 1 ==> Itoa(Code2(d[0], d[1])) == text[from + 1] && c3 < 64)
            && (size == 2 ==> c3 & 0x3c < 64 && Code3(d[1], 0) == c3 & 0x3c)
            && (size > 2 ==> Itoa(Code3(d[1], d[2])) == text[from + 2] && Itoa(Code4(d[2])) == text[from + 3])
            && (size == 3 ==> Atoi(text[from + 3]) & 0x3f < 64 && Itoa(Atoi(text[from + 3]) & 0x3f) == text[from + 3])
  {
    hide Itoa, Atoi, Byte0, Byte1, Byte2, Code1, Code2, Code3, Code4, Decode;
    BytesOf(text, from, size);
    var c1, c2 := Atoi(text[from]), Atoi(text[from + 1]);
    var c3 := if size > 1 then Atoi(text[from + 2]) else 0;
    var c4 := if size > 2 then Atoi(text[from + 3]) else 0;
    GroupEncodes(c1, c2, c3, c4);
    Masks(c2);
    Masks(c3);
    Masks(c4);
    AtoiItoa(text[from]);
    AtoiItoa(text[from + 1]);
    if size > 1 { AtoiItoa(text[from + 2]); }
    if size > 2 { AtoiItoa(text[from + 3]); }
  }

  /** The bytes of the first group, and the range of its codes. */
  lemma BytesOf(text: seq<byte>, from: nat, size: nat)
    requires size >= 1 && Decode(text, from, size).Some? && from + CodeLength(size) <= |text|
    ensures var d, c1, c2 := Decode(text, from, size).value, Atoi(text[from]), Atoi(text[from + 1]);
            && d[0] == Byte0(c1, c2) && c1 < 64 && c2 < 64
            && (size > 1 ==> d[1] == Byte1(c2, Atoi(text[from + 2])) && Atoi(text[from + 2]) < 64)
            && (size > 2 ==> d[2] == Byte2(Atoi(text[from + 2]), Atoi(text[from + 3])) && Atoi(text[from + 3]) < 64)
  {
    hide Itoa, Atoi, Byte0, Byte1, Byte2, Code1, Code2, Code3, Code4;
  }

  lemma Masks(c: byte)
    requires c < 64
    ensures c & 0x30 < 64 && c & 0x3c < 64 && c & 0x3f == c
  {}

  lemma NulIsNoCode()
    ensures Atoi(0) == 64
  {}

  /** The last character with the bits cleared that encode nothing. */
  function Canonical(code: seq<byte>, size: nat): seq<byte>
    requires size >= 1 && |code| == CodeLength(size)
  {
    var last := Atoi(code[|code| - 1]) & (if size % 3 == 1 then 0x30 else if size % 3 == 2 then 0x3c else 0x3f);
    code[..|code| - 1] + [Itoa(if last < 64 then last else 0)]
  }
}
