/**
 util/base64.c: the encoder and decoder of RFC 4648 section 4 that are used without OpenSSL.
 */
module Base64 {
  type byte = bv8

  const PAD: byte := 0x3d

  /** basis_64 */
  function Basis(c: byte): byte
    requires c < 64
  {
    if c < 26 then c + 0x41
    else if c < 52 then c - 26 + 0x61
    else if c < 62 then c - 52 + 0x30
    else if c == 62 then 0x2b else 0x2f
  }

  /** pr2six; 64 stands for a character outside the alphabet. */
  function Six(ch: byte): byte {
    if 0x41 <= ch <= 0x5a then ch - 0x41
    else if 0x61 <= ch <= 0x7a then ch - 0x61 + 26
    else if 0x30 <= ch <= 0x39 then ch - 0x30 + 52
    else if ch == 0x2b then 62 else if ch == 0x2f then 63 else 64
  }

  predicate Letter(ch: byte) { Six(ch) <= 63 }

  lemma SixBasis(c: byte)
    requires c < 64
    ensures Six(Basis(c)) == c && Letter(Basis(c))
  {}

  lemma NotLetters()
    ensures !Letter(0) && !Letter(PAD)
  {}

  // ----- the bit moves

  function E1(a: byte): (c: byte) ensures c < 64 { (a >> 2) & 0x3f }
  function E2(a: byte, b: byte): (c: byte) ensures c < 64 { ((a & 0x3) << 4) | ((b & 0xf0) >> 4) }
  function E3(b: byte, c: byte): (d: byte) ensures d < 64 { ((b & 0xf) << 2) | ((c & 0xc0) >> 6) }
  function E4(c: byte): (d: byte) ensures d < 64 { c & 0x3f }

  function D1(c1: byte, c2: byte): byte { (c1 << 2) | (c2 >> 4) }
  function D2(c2: byte, c3: byte): byte { (c2 << 4) | (c3 >> 2) }
  function D3(c3: byte, c4: byte): byte { (c3 << 6) | c4 }

  lemma GroupBack(a: byte, b: byte, c: byte)
    ensures D1(E1(a), E2(a, b)) == a && D2(E2(a, b), E3(b, c)) == b && D3(E3(b, c), E4(c)) == c
  {}

  // ----- encoding

  /** The number of groups of up to three bytes. */
  function Groups(n: nat): nat {
    (n + 2) / 3
  }

  /** The letters without padding. */
  function Letters(s: seq<byte>): (e: seq<byte>)
    ensures |e| == |s| + Groups(|s|)
    decreases |s|
  {
    if |s| == 0 then []
    else if |s| == 1 then [Basis(E1(s[0])), Basis(E2(s[0], 0))]
    else if |s| == 2 then [Basis(E1(s[0])), Basis(E2(s[0], s[1])), Basis(E3(s[1], 0))]
    else [Basis(E1(s[0])), Basis(E2(s[0], s[1])), Basis(E3(s[1], s[2])), Basis(E4(s[2]))] + Letters(s[3..])
  }

  function Padding(n: nat): (p: seq<byte>)
    ensures |p| == 3 * Groups(n) - n
  {
    if n % 3 == 0 then [] else if n % 3 == 1 then [PAD, PAD] else [PAD]
  }

  function Encode(s: seq<byte>): seq<byte> {
    Letters(s) + Padding(|s|)
  }

  /** `apr_base64_encode_len` */
  function EncodeLen(n: nat): nat {
    Groups(n) * 4 + 1
  }

  /** The encoder writes exactly as much as is announced, its terminator included. */
  lemma EncodeLenIs(s: seq<byte>)
    ensures |Encode(s)| + 1 == EncodeLen(|s|)
  {
    hide Letters, Padding, Groups;
  }

  lemma OneGroup(n: nat)
    ensures n >= 3 ==> Groups(n) == Groups(n - 3) + 1 && Padding(n) == Padding(n - 3)
    ensures 0 < n < 3 ==> Groups(n) == 1
    ensures Groups(0) == 0
  {}

  lemma LettersStep(s: seq<byte>, i: nat)
    requires i + 3 <= |s|
    ensures Letters(s[i..]) == [Basis(E1(s[i])), Basis(E2(s[i], s[i + 1])), Basis(E3(s[i + 1], s[i + 2])), Basis(E4(s[i + 2]))]
                             + Letters(s[i + 3..])
  {
    assert s[i..][3..] == s[i + 3..];
  }

  /** One whole group of the encoder. */
  method EncodeGroup(encoded: array<byte>, p: nat, a: byte, b: byte, c: byte)
    requires p + 4 <= encoded.Length
    modifies encoded
    ensures encoded[p] == Basis(E1(a)) && encoded[p + 1] == Basis(E2(a, b))
    ensures encoded[p + 2] == Basis(E3(b, c)) && encoded[p + 3] == Basis(E4(c))
    ensures forall k :: 0 <= k < encoded.Length && !(p <= k < p + 4) ==> encoded[k] == old(encoded[k])
  {
    hide Basis, E1, E2, E3, E4;
    encoded[p] := Basis(E1(a));
    encoded[p + 1] := Basis(E2(a, b));
    encoded[p + 2] := Basis(E3(b, c));
    encoded[p + 3] := Basis(E4(c));
  }

  /** The last one or two bytes, with padding. */
  method EncodeRest(encoded: array<byte>, p: nat, s: seq<byte>)
    requires 1 <= |s| <= 2 && p + 4 <= encoded.Length
    modifies encoded
    ensures encoded[p..p + 4] == Encode(s)
    ensures forall k :: 0 <= k < encoded.Length && !(p <= k < p + 4) ==> encoded[k] == old(encoded[k])
  {
    hide Basis, E1, E2, E3, E4;
    encoded[p] := Basis(E1(s[0]));
    if |s| == 1 {
      encoded[p + 1] := Basis(E2(s[0], 0));
      encoded[p + 2] := PAD;
    } else {
      encoded[p + 1] := Basis(E2(s[0], s[1]));
      encoded[p + 2] := Basis(E3(s[1], 0));
    }
    encoded[p + 3] := PAD;
  }

  /** The loop over whole groups. */
  method EncodeGroups(encoded: array<byte>, input: seq<byte>) returns (i: nat, p: nat)
    requires encoded.Length >= EncodeLen(|input|)
    modifies encoded
    ensures i <= |input| < i + 3 && p + 1 + 4 * Groups(|input| - i) <= encoded.Length
    ensures encoded[..p] + Letters(input[i..]) == Letters(input) && Padding(|input|) == Padding(|input| - i)
    ensures forall k :: p <= k < encoded.Length ==> encoded[k] == old(encoded[k])
  {
    hide Letters, Padding, Groups, Basis, E1, E2, E3, E4;
    ghost var e := Letters(input);
    i, p := 0, 0;
    assert input[0..] == input;
    while i < |input| - 2
      invariant i <= |input| && p + 1 + 4 * Groups(|input| - i) <= encoded.Length
      invariant Padding(|input|) == Padding(|input| - i)
      invariant p <= |e| && e[p..] == Letters(input[i..])
      invariant forall k :: 0 <= k < p ==> encoded[k] == e[k]
      invariant forall k :: p <= k < encoded.Length ==> encoded[k] == old(encoded[k])
    {
      OneGroup(|input| - i);
      EncodeGroup(encoded, p, input[i], input[i + 1], input[i + 2]);
      NextGroup(e, p, input, i);
      i, p := i + 3, p + 4;
    }
    assert encoded[..p] == e[..p];
  }

  /** The text, without its terminator. */
  method EncodeText(encoded: array<byte>, input: seq<byte>) returns (p: nat)
    requires encoded.Length >= EncodeLen(|input|)
    modifies encoded
    ensures p + 1 == EncodeLen(|input|) && encoded[..p] == Encode(input)
    ensures forall k :: p <= k < encoded.Length ==> encoded[k] == old(encoded[k])
  {
    hide Letters, Padding, EncodeLen, Groups;
    var i;
    i, p := EncodeGroups(encoded, input);
    OneGroup(|input| - i);
    ghost var done, q, rest := encoded[..p], p, input[i..];
    if i < |input| {
      EncodeRest(encoded, p, input[i..]);
      p := p + 4;
    } else {
      NoLetters(rest);
    }
    assert encoded[..p] == done + encoded[q..p];
    assert encoded[q..p] == Encode(rest);
    assert encoded[..p] == (done + Letters(rest)) + Padding(|input|);
    EncodeLenIs(input);
  }

  /** `apr_base64_encode_binary`; the result is the number of characters written. */
  method EncodeBinary(encoded: array<byte>, input: seq<byte>) returns (n: nat)
    requires encoded.Length >= EncodeLen(|input|)
    modifies encoded
    ensures n == EncodeLen(|input|) && encoded[..n] == Encode(input) + [0]
    ensures forall k :: n <= k < encoded.Length ==> encoded[k] == old(encoded[k])
  {
    hide Encode, EncodeLen;
    var p := EncodeText(encoded, input);
    encoded[p] := 0;
    n := p + 1;
    assert encoded[..n] == encoded[..p] + [0];
  }

  lemma NoLetters(s: seq<byte>)
    requires s == []
    ensures Letters(s) == [] && Padding(|s|) == []
  {}

  lemma NextGroup(e: seq<byte>, p: nat, s: seq<byte>, i: nat)
    requires i + 3 <= |s| && p <= |e| && e[p..] == Letters(s[i..])
    ensures p + 4 <= |e| && e[p + 4..] == Letters(s[i + 3..])
    ensures e[p] == Basis(E1(s[i])) && e[p + 1] == Basis(E2(s[i], s[i + 1]))
    ensures e[p + 2] == Basis(E3(s[i + 1], s[i + 2])) && e[p + 3] == Basis(E4(s[i + 2]))
  {
    hide Letters, Basis, E1, E2, E3, E4;
    LettersStep(s, i);
    var t := e[p..];
    assert t[0] == e[p] && t[1] == e[p + 1] && t[2] == e[p + 2] && t[3] == e[p + 3];
    assert t[4..] == e[p + 4..];
  }

  // ----- decoding

  /** A C string. */
  function At(s: seq<byte>, i: nat): byte {
    if i < |s| then s[i] else 0
  }

  /** The number of leading letters, at most n. */
  function Count(s: seq<byte>, n: nat): (k: nat)
    ensures k <= n && k <= |s| && (forall i :: 0 <= i < k ==> Letter(s[i])) && (k < n ==> !Letter(At(s, k)))
  {
    NotLetters();
    if n == 0 || !Letter(At(s, 0)) then 0 else 1 + Count(s[1..], n - 1)
  }

  /** `apr_base64_decode_len` for that many letters */
  function DecodeLen(k: nat): nat {
    (k + 3) / 4 * 3 + 1
  }

  function Bytes(c: seq<byte>): (d: seq<byte>)
    decreases |c|
  {
    if |c| > 4 then [D1(Six(c[0]), Six(c[1])), D2(Six(c[1]), Six(c[2])), D3(Six(c[2]), Six(c[3]))] + Bytes(c[4..])
    else
      (if |c| > 1 then [D1(Six(c[0]), Six(c[1]))] else [])
      + (if |c| > 2 then [D2(Six(c[1]), Six(c[2]))] else [])
      + (if |c| > 3 then [D3(Six(c[2]), Six(c[3]))] else [])
  }

  /** What decoding the first n characters of a text gives. */
  function Decode(s: seq<byte>, n: nat): seq<byte> {
    Bytes(s[..Count(s, n)])
  }

  /** The scan that both decoding functions start with. */
  method Scan(coded: seq<byte>, n: nat) returns (k: nat)
    ensures k == Count(coded, n)
  {
    hide Letter;
    k := 0;
    var left: nat := n;
    assert coded[0..] == coded;
    while Letter(At(coded, k)) && left > 0
      invariant k <= |coded| && left <= n && k + left == n
      invariant k + Count(coded[k..], left) == Count(coded, n)
      decreases left
    {
      NotLetters();
      assert coded[k..][1..] == coded[k + 1..];
      k, left := k + 1, left - 1;
    }
  }

  /** `apr_base64_decode_len` */
  method DecodeLength(coded: seq<byte>, n: nat) returns (len: nat)
    ensures len == DecodeLen(Count(coded, n))
  {
    var nprbytes := Scan(coded, n);
    len := (nprbytes + 3) / 4 * 3 + 1;
  }

  lemma {:induction false} BytesLength(c: seq<byte>)
    ensures var n: int := |c|; |Bytes(c)| == (n + 3) / 4 * 3 - (4 - n) % 4
    decreases |c|
  {
    hide Six, D1, D2, D3;
    if |c| > 4 {
      BytesLength(c[4..]);
      FourMore(|c| - 4);
    } else {
      assert |c| == 0 || |c| == 1 || |c| == 2 || |c| == 3 || |c| == 4;
    }
  }

  lemma FourMore(n: int)
    ensures (n + 4 + 3) / 4 * 3 - (4 - (n + 4)) % 4 == (n + 3) / 4 * 3 - (4 - n) % 4 + 3
  {}

  /** One whole group of the decoder. */
  method DecodeGroup(plain: array<byte>, at: nat, c: seq<byte>, i: nat)
    requires at + 3 <= plain.Length && i + 4 <= |c|
    modifies plain
    ensures plain[at..at + 3] == [D1(Six(c[i]), Six(c[i + 1])), D2(Six(c[i + 1]), Six(c[i + 2])), D3(Six(c[i + 2]), Six(c[i + 3]))]
    ensures forall k :: 0 <= k < plain.Length && !(at <= k < at + 3) ==> plain[k] == old(plain[k])
  {
    hide Six, D1, D2, D3;
    plain[at] := D1(Six(c[i]), Six(c[i + 1]));
    plain[at + 1] := D2(Six(c[i + 1]), Six(c[i + 2]));
    plain[at + 2] := D3(Six(c[i + 2]), Six(c[i + 3]));
  }

  method DecodeRest(plain: array<byte>, at: nat, c: seq<byte>) returns (end: nat)
    requires |c| <= 4 && at + |Bytes(c)| <= plain.Length
    modifies plain
    ensures end == at + |Bytes(c)| && plain[at..end] == Bytes(c)
    ensures forall k :: 0 <= k < plain.Length && !(at <= k < end) ==> plain[k] == old(plain[k])
  {
    hide Six, D1, D2, D3;
    end := at;
    if |c| > 1 {
      plain[end] := D1(Six(c[0]), Six(c[1]));
      end := end + 1;
    }
    if |c| > 2 {
      plain[end] := D2(Six(c[1]), Six(c[2]));
      end := end + 1;
    }
    if |c| > 3 {
      plain[end] := D3(Six(c[2]), Six(c[3]));
      end := end + 1;
    }
  }

  /** The loop over whole groups, which leaves up to four letters. */
  method DecodeGroups(plain: array<byte>, c: seq<byte>) returns (i: nat, out: nat)
    requires plain.Length >= |Bytes(c)|
    modifies plain
    ensures i <= |c| <= i + 4 && out <= |Bytes(c)| && plain[..out] + Bytes(c[i..]) == Bytes(c)
    ensures forall k :: out <= k < plain.Length ==> plain[k] == old(plain[k])
  {
    hide Bytes, Six, D1, D2, D3;
    i, out := 0, 0;
    ghost var d := Bytes(c);
    assert c[0..] == c;
    while |c| - i > 4
      invariant i <= |c| && out <= |d|
      invariant plain[..out] == d[..out] && d[out..] == Bytes(c[i..])
      invariant forall k :: out <= k < plain.Length ==> plain[k] == old(plain[k])
    {
      BytesStep(c, i);
      ghost var before := plain[..out];
      NextBytes(d, out, plain.Length, Bytes(c[i..]));
      DecodeGroup(plain, out, c, i);
      assert plain[..out] == before && plain[..out + 3] == before + plain[out..out + 3];
      assert d[out..][..3] == d[out..out + 3] && d[out..][3..] == d[out + 3..];
      i, out := i + 4, out + 3;
    }
    assert plain[..out] + d[out..] == d;
  }

  lemma NextBytes(d: seq<byte>, out: nat, n: nat, rest: seq<byte>)
    requires out <= |d| <= n && d[out..] == rest && |rest| >= 3
    ensures out + 3 <= n && out + 3 <= |d|
  {}

  lemma BoundIs(letters: nat, bytes: nat)
    requires var n: int := letters; bytes == (n + 3) / 4 * 3 - (4 - n) % 4
    ensures bytes + 1 <= DecodeLen(letters)
  {}

  /** The bytes of the letters counted. */
  method DecodeText(plain: array<byte>, c: seq<byte>) returns (out: nat)
    requires plain.Length >= |Bytes(c)|
    modifies plain
    ensures out == |Bytes(c)| && plain[..out] == Bytes(c)
    ensures forall k :: out <= k < plain.Length ==> plain[k] == old(plain[k])
  {
    hide Bytes;
    var i;
    i, out := DecodeGroups(plain, c);
    ghost var before, at := plain[..out], out;
    out := DecodeRest(plain, out, c[i..]);
    assert plain[..out] == before + plain[at..out];
  }

  /** `apr_base64_decode_binary`; the result is the number of bytes. */
  method DecodeBinary(plain: array<byte>, coded: seq<byte>, n: nat) returns (len: nat)
    requires plain.Length + 1 >= DecodeLen(Count(coded, n))
    modifies plain
    ensures len == |Decode(coded, n)| && len + 1 <= DecodeLen(Count(coded, n))
    ensures plain[..len] == Decode(coded, n)
    ensures forall k :: len <= k < plain.Length ==> plain[k] == old(plain[k])
  {
    hide Bytes, Count, DecodeLen;
    var nprbytes := Scan(coded, n);
    BytesLength(coded[..nprbytes]);
    BoundIs(nprbytes, |Bytes(coded[..nprbytes])|);
    var _ := DecodeText(plain, coded[..nprbytes]);
    var nbytesdecoded: int := (nprbytes + 3) / 4 * 3;
    var letters: int := nprbytes;
    len := nbytesdecoded - (4 - letters) % 4;
  }

  lemma BytesStep(c: seq<byte>, i: nat)
    requires i + 4 < |c|
    ensures Bytes(c[i..]) == [D1(Six(c[i]), Six(c[i + 1])), D2(Six(c[i + 1]), Six(c[i + 2])), D3(Six(c[i + 2]), Six(c[i + 3]))]
                           + Bytes(c[i + 4..])
  {
    assert c[i..][4..] == c[i + 4..];
  }

  // ----- the two together

  lemma {:induction false} LettersAreLetters(s: seq<byte>)
    ensures forall i :: 0 <= i < |Letters(s)| ==> Letter(Letters(s)[i])
    decreases |s|
  {
    hide Basis, Letter, E1, E2, E3, E4;
    if s != [] {
      var a, b, c := s[0], if |s| > 1 then s[1] else 0, if |s| > 2 then s[2] else 0;
      SixBasis(E1(a));
      SixBasis(E2(a, b));
      SixBasis(E3(b, c));
      SixBasis(E4(c));
      if |s| > 3 { LettersAreLetters(s[3..]); } else if |s| == 3 { assert Letters(s[3..]) == []; }
    }
  }

  lemma {:induction false} BytesOfLetters(s: seq<byte>)
    ensures Bytes(Letters(s)) == s
    decreases |s|
  {
    hide Basis, Six, E1, E2, E3, E4, D1, D2, D3;
    if |s| > 3 {
      hide Bytes, Letters;
      BytesOfLetters(s[3..]);
      FirstLetters(s);
      FirstBytes(s[0], s[1], s[2], Letters(s[3..]));
      assert s == [s[0], s[1], s[2]] + s[3..];
    } else {
      LastBytes(s);
    }
  }

  lemma FirstLetters(s: seq<byte>)
    requires |s| > 3
    ensures Letters(s) == [Basis(E1(s[0])), Basis(E2(s[0], s[1])), Basis(E3(s[1], s[2])), Basis(E4(s[2]))] + Letters(s[3..])
    ensures |Letters(s[3..])| > 0
  {
    hide Basis, E1, E2, E3, E4;
  }

  lemma FirstBytes(a: byte, b: byte, c: byte, rest: seq<byte>)
    requires |rest| > 0
    ensures Bytes([Basis(E1(a)), Basis(E2(a, b)), Basis(E3(b, c)), Basis(E4(c))] + rest) == [a, b, c] + Bytes(rest)
  {
    hide Basis, Six, E1, E2, E3, E4, D1, D2, D3;
    SixBasis(E1(a));
    SixBasis(E2(a, b));
    SixBasis(E3(b, c));
    SixBasis(E4(c));
    GroupBack(a, b, c);
    assert ([Basis(E1(a)), Basis(E2(a, b)), Basis(E3(b, c)), Basis(E4(c))] + rest)[4..] == rest;
  }

  lemma LastBytes(s: seq<byte>)
    requires |s| <= 3
    ensures Bytes(Letters(s)) == s
  {
    hide Basis, E1, E2, E3, E4, Bytes, Letters, Groups;
    FewLetters(s);
    if |s| == 0 {
      NoBytes();
    } else if |s| == 1 {
      OneByte(s[0]);
      assert s == [s[0]];
    } else if |s| == 2 {
      TwoBytes(s[0], s[1]);
      assert s == [s[0], s[1]];
    } else {
      ThreeBytes(s[0], s[1], s[2]);
      assert s == [s[0], s[1], s[2]];
    }
  }

  lemma FewLetters(s: seq<byte>)
    requires |s| <= 3
    ensures Letters(s) ==
      if |s| == 0 then []
      else if |s| == 1 then [Basis(E1(s[0])), Basis(E2(s[0], 0))]
      else if |s| == 2 then [Basis(E1(s[0])), Basis(E2(s[0], s[1])), Basis(E3(s[1], 0))]
      else [Basis(E1(s[0])), Basis(E2(s[0], s[1])), Basis(E3(s[1], s[2])), Basis(E4(s[2]))]
  {
    hide Basis, E1, E2, E3, E4, Groups;
    if |s| == 3 { NoLetters(s[3..]); }
  }

  lemma NoBytes()
    ensures Bytes([]) == []
  {}

  lemma OneByte(a: byte)
    ensures Bytes([Basis(E1(a)), Basis(E2(a, 0))]) == [a]
  {
    hide Basis, Six, E1, E2, E3, E4, D1, D2, D3;
    SixBasis(E1(a));
    SixBasis(E2(a, 0));
    GroupBack(a, 0, 0);
  }

  lemma TwoBytes(a: byte, b: byte)
    ensures Bytes([Basis(E1(a)), Basis(E2(a, b)), Basis(E3(b, 0))]) == [a, b]
  {
    hide Basis, Six, E1, E2, E3, E4, D1, D2, D3;
    SixBasis(E1(a));
    SixBasis(E2(a, b));
    SixBasis(E3(b, 0));
    GroupBack(a, b, 0);
  }

  lemma ThreeBytes(a: byte, b: byte, c: byte)
    ensures Bytes([Basis(E1(a)), Basis(E2(a, b)), Basis(E3(b, c)), Basis(E4(c))]) == [a, b, c]
  {
    hide Basis, Six, E1, E2, E3, E4, D1, D2, D3;
    SixBasis(E1(a));
    SixBasis(E2(a, b));
    SixBasis(E3(b, c));
    SixBasis(E4(c));
    GroupBack(a, b, c);
  }

  lemma {:induction false} CountIs(s: seq<byte>, k: nat, n: nat)
    requires k <= n && k <= |s| && (forall i :: 0 <= i < k ==> Letter(s[i])) && (k < n ==> !Letter(At(s, k)))
    ensures Count(s, n) == k
    decreases k
  {
    hide Letter;
    if k > 0 {
      forall i | 0 <= i < k - 1 ensures Letter(s[1..][i]) {
        assert s[1..][i] == s[i + 1];
      }
      CountIs(s[1..], k - 1, n - 1);
    }
  }

  /** Decoding an encoding gives back the input, whatever follows it in the buffer. */
  lemma DecodeEncode(s: seq<byte>, rest: seq<byte>, n: nat)
    requires n >= |Letters(s)| && (|s| % 3 == 0 ==> n == |Letters(s)| || rest == [] || !Letter(rest[0]))
    ensures Decode(Encode(s) + rest, n) == s
  {
    hide Letter, Letters, Bytes, Count;
    var e := Letters(s);
    var text := Encode(s) + rest;
    LettersAreLetters(s);
    NotLetters();
    if |s| % 3 != 0 {
      assert text[|e|] == Padding(|s|)[0] == PAD;
    }
    assert forall i :: 0 <= i < |e| ==> text[i] == e[i];
    CountIs(text, |e|, n);
    assert text[..|e|] == e;
    BytesOfLetters(s);
  }
}
