/**
 The text that Base64 writes and reads, character by character, against the alphabet and the 24-bit groups of RFC 4648
 section 4.
 */
module Base64Text {
  import opened Base64

  // ----- the alphabet

  lemma Upper(c: byte)
    requires c < 26
    ensures (c + 0x41) as int == c as int + 65 && c as int < 26
  {}

  lemma Lower(c: byte)
    requires 26 <= c < 52
    ensures (c - 26 + 0x61) as int == c as int + 71 && 26 <= c as int < 52
  {}

  lemma Digit(c: byte)
    requires 52 <= c < 62
    ensures (c - 52 + 0x30) as int == c as int - 4 && 52 <= c as int < 62
  {}

  lemma UpperLetter(k: nat)
    requires k < 26
    ensures "ABCDEFGHIJKLMNOPQRSTUVWXYZ"[k] as int == k + 65
  {}

  lemma LowerLetter(k: nat)
    requires k < 26
    ensures "abcdefghijklmnopqrstuvwxyz"[k] as int == k + 97
  {}

  lemma Entry(k: nat)
    requires k < 64
    ensures ("ABCDEFGHIJKLMNOPQRSTUVWXYZ" + "abcdefghijklmnopqrstuvwxyz" + "0123456789+/")[k] as int ==
      if k < 26 then k + 65 else if k < 52 then k + 71 else if k < 62 then k - 4 else if k == 62 then 43 else 47
  {
    var upper, lower, rest := "ABCDEFGHIJKLMNOPQRSTUVWXYZ", "abcdefghijklmnopqrstuvwxyz", "0123456789+/";
    if k < 26 {
      assert (upper + lower + rest)[k] == upper[k];
      UpperLetter(k);
    } else if k < 52 {
      assert (upper + lower + rest)[k] == lower[k - 26];
      LowerLetter(k - 26);
    } else {
      assert (upper + lower + rest)[k] == rest[k - 52];
    }
  }

  lemma BasisAt(c: byte)
    requires c < 64
    ensures c as int < 64
    ensures Basis(c) as char == ("ABCDEFGHIJKLMNOPQRSTUVWXYZ" + "abcdefghijklmnopqrstuvwxyz" + "0123456789+/")[c as int]
  {
    BelowInt(c);
    Entry(c as int);
    if c < 26 { Upper(c); } else if c < 52 { Lower(c); } else if c < 62 { Digit(c); }
  }

  lemma BelowInt(c: byte)
    requires c < 64
    ensures c as int < 64
  {}

  lemma BasisSix(ch: byte)
    ensures Six(ch) <= 64 && (Six(ch) < 64 ==> Basis(Six(ch)) == ch)
  {}

  /** The decoder reads each character of the alphabet as its position in it, and takes no other. */
  lemma SixIs(ch: byte)
    ensures Letter(ch) <==> ch as char in "ABCDEFGHIJKLMNOPQRSTUVWXYZ" + "abcdefghijklmnopqrstuvwxyz" + "0123456789+/"
    ensures Letter(ch) ==>
      && Six(ch) as int < 64
      && ("ABCDEFGHIJKLMNOPQRSTUVWXYZ" + "abcdefghijklmnopqrstuvwxyz" + "0123456789+/")[Six(ch) as int] == ch as char
  {
    hide Basis, Six;
    BasisSix(ch);
    var a := "ABCDEFGHIJKLMNOPQRSTUVWXYZ" + "abcdefghijklmnopqrstuvwxyz" + "0123456789+/";
    if Letter(ch) {
      BasisAt(Six(ch));
    } else if ch as char in a {
      var k :| 0 <= k < |a| && a[k] == ch as char;
      SmallBack(k);
      BasisAt(k as byte);
      SixBasis(k as byte);
      SameByte(ch, Basis(k as byte));
    }
  }

  lemma SmallBack(k: nat)
    requires k < 64
    ensures (k as byte) < 64 && (k as byte) as int == k
  {}

  lemma SameByte(a: byte, b: byte)
    requires a as char == b as char
    ensures a == b
  {
    assert a as int == b as int;
    assert a as int as byte == a && b as int as byte == b;
  }

  // ----- the encoder

  /** The byte at i, or 0 behind the end. */
  function Or0(s: seq<byte>, i: nat): byte {
    if i < |s| then s[i] else 0
  }

  /** The four six-bit pieces of three bytes put one behind the other. */
  lemma Pieces(a: byte, b: byte, c: byte)
    ensures var w := ((a as bv24) << 16) | ((b as bv24) << 8) | (c as bv24);
      && E1(a) == ((w >> 18) & 0x3f) as byte && E2(a, b) == ((w >> 12) & 0x3f) as byte
      && E3(b, c) == ((w >> 6) & 0x3f) as byte && E4(c) == (w & 0x3f) as byte
  {}

  lemma {:induction false} LetterAt(s: seq<byte>, i: nat, j: nat)
    requires j < 4 && 4 * i + j < |Letters(s)|
    ensures var a, b, c := Or0(s, 3 * i), Or0(s, 3 * i + 1), Or0(s, 3 * i + 2);
      Letters(s)[4 * i + j]
      == Basis(if j == 0 then E1(a) else if j == 1 then E2(a, b) else if j == 2 then E3(b, c) else E4(c))
    decreases i
  {
    hide Basis, E1, E2, E3, E4;
    if |s| > 3 && i > 0 {
      LetterAt(s[3..], i - 1, j);
    } else if |s| == 3 {
      assert Letters(s[3..]) == [];
    }
  }

  /**
   The text of n bytes has four characters for each three bytes begun, and the last (3 - n % 3) % 3 of them are '='.
   */
  lemma TextEnds(s: seq<byte>)
    ensures |Encode(s)| == (|s| + 2) / 3 * 4
    ensures forall k :: 0 <= k < |Encode(s)| && k >= |Encode(s)| - (3 - |s| % 3) % 3 ==> Encode(s)[k] as char == '='
    ensures |Letters(s)| == |Encode(s)| - (3 - |s| % 3) % 3
  {
    hide Letters, Padding;
    EncodeLenIs(s);
    PaddingIs(|s|);
  }

  lemma PaddingIs(n: nat)
    ensures |Padding(n)| == (3 - n % 3) % 3 && forall k :: 0 <= k < |Padding(n)| ==> Padding(n)[k] as char == '='
  {}

  /** Every other character, the j-th of group i, is the entry in the alphabet of its six bits of its three bytes. */
  lemma TextIs(s: seq<byte>, i: nat, j: nat)
    requires j < 4 && 4 * i + j < |Encode(s)| - (3 - |s| % 3) % 3
    ensures var w := ((Or0(s, 3 * i) as bv24) << 16) | ((Or0(s, 3 * i + 1) as bv24) << 8) | (Or0(s, 3 * i + 2) as bv24);
      var piece := (if j == 0 then (w >> 18) & 0x3f else if j == 1 then (w >> 12) & 0x3f
                    else if j == 2 then (w >> 6) & 0x3f else w & 0x3f) as byte;
      && piece as int < 64
      && Encode(s)[4 * i + j] as char ==
         ("ABCDEFGHIJKLMNOPQRSTUVWXYZ" + "abcdefghijklmnopqrstuvwxyz" + "0123456789+/")[piece as int]
  {
    hide Letters, Padding, Basis, E1, E2, E3, E4, Or0;
    TextEnds(s);
    LetterAt(s, i, j);
    var a, b, c := Or0(s, 3 * i), Or0(s, 3 * i + 1), Or0(s, 3 * i + 2);
    Pieces(a, b, c);
    BasisAt(if j == 0 then E1(a) else if j == 1 then E2(a, b) else if j == 2 then E3(b, c) else E4(c));
  }

  // ----- the decoder

  /** The first of the bytes that the six-bit values of four characters make, and the others. */
  lemma Octets(c1: byte, c2: byte, c3: byte, c4: byte)
    requires c1 < 64 && c2 < 64 && c3 < 64 && c4 < 64
    ensures var w := ((c1 as bv24) << 18) | ((c2 as bv24) << 12) | ((c3 as bv24) << 6) | (c4 as bv24);
      D1(c1, c2) == (w >> 16) as byte && D2(c2, c3) == ((w >> 8) & 0xff) as byte && D3(c3, c4) == (w & 0xff) as byte
  {}

  /** The value of the character at i, or 0 behind the end. */
  function SixOr0(c: seq<byte>, i: nat): byte {
    if i < |c| then Six(c[i]) else 0
  }

  lemma {:induction false} OctetAt(c: seq<byte>, i: nat, j: nat)
    requires j < 3 && 3 * i + j < |Bytes(c)|
    ensures 4 * i + j + 1 < |c|
    ensures var c1, c2, c3, c4 := SixOr0(c, 4 * i), SixOr0(c, 4 * i + 1), SixOr0(c, 4 * i + 2), SixOr0(c, 4 * i + 3);
      Bytes(c)[3 * i + j] == if j == 0 then D1(c1, c2) else if j == 1 then D2(c2, c3) else D3(c3, c4)
    decreases i
  {
    hide Six, D1, D2, D3;
    if |c| > 4 && i > 0 { OctetAt(c[4..], i - 1, j); }
  }

  /**
   Decoding takes the characters up to the first outside the alphabet or to the n-th, and gives, as the j-th byte of
   group i, its eight bits of the values of its four characters, which `SixIs` says are their positions.
   */
  lemma DecodedIs(s: seq<byte>, n: nat, i: nat, j: nat)
    requires j < 3 && 3 * i + j < |Decode(s, n)|
    ensures exists k: nat ::
      && k <= n && k <= |s| && (forall m :: 0 <= m < k ==> Letter(s[m])) && (k == n || k == |s| || !Letter(s[k]))
      && |Decode(s, n)| == (k + 3) / 4 * 3 - (4 - k as int) % 4
      && var c := s[..k];
         var w := ((SixOr0(c, 4 * i) as bv24) << 18) | ((SixOr0(c, 4 * i + 1) as bv24) << 12)
                  | ((SixOr0(c, 4 * i + 2) as bv24) << 6) | (SixOr0(c, 4 * i + 3) as bv24);
         Decode(s, n)[3 * i + j] == (if j == 0 then w >> 16 else if j == 1 then (w >> 8) & 0xff else w & 0xff) as byte
  {
    hide Bytes, Six, D1, D2, D3;
    var k := Count(s, n);
    var c := s[..k];
    BytesLength(c);
    OctetAt(c, i, j);
    assert forall m :: 0 <= m < k ==> Letter(c[m]);
    Small(c, 4 * i);
    Small(c, 4 * i + 1);
    Small(c, 4 * i + 2);
    Small(c, 4 * i + 3);
    Octets(SixOr0(c, 4 * i), SixOr0(c, 4 * i + 1), SixOr0(c, 4 * i + 2), SixOr0(c, 4 * i + 3));
  }

  lemma Small(c: seq<byte>, i: nat)
    requires forall m :: 0 <= m < |c| ==> Letter(c[m])
    ensures SixOr0(c, i) < 64
  {
    hide Six;
  }

  /** The length announced: three bytes for each four letters begun, and a terminator; that is enough. */
  lemma DecodeLenIs(s: seq<byte>, n: nat, m: nat, r: nat)
    requires Count(s, n) == 4 * m + r && r < 4
    ensures DecodeLen(Count(s, n)) == 3 * m + (if r == 0 then 1 else 4)
    ensures |Decode(s, n)| + 1 <= DecodeLen(Count(s, n))
  {
    hide Count, Bytes;
    BytesLength(s[..Count(s, n)]);
    BoundIs(Count(s, n), |Decode(s, n)|);
  }
}
