/**
 bcrypt's settings and hashes as the texts they are: the alphabet and bit order of its base 64, the grammar of a setting,
 the number of rounds a cost stands for, and the layout of a hash.
 */
module BcryptText {
  import opened Wrappers
  import opened BcryptBase64
  import opened Bcrypt
  import BcryptKey

  // ----- the alphabet

  lemma Upper(c: byte)
    requires 2 <= c < 28
    ensures (c - 2 + 0x41) as int == c as int + 63 && 2 <= c as int < 28
  {}

  lemma Lower(c: byte)
    requires 28 <= c < 54
    ensures (c - 28 + 0x61) as int == c as int + 69 && 28 <= c as int < 54
  {}

  lemma Decimal(c: byte)
    requires 54 <= c < 64
    ensures (c - 54 + 0x30) as int == c as int - 6 && 54 <= c as int < 64
  {}

  lemma Dots(c: byte)
    requires c < 2
    ensures (c + 0x2e) as int == c as int + 46 && c as int < 2
  {}

  lemma UpperLetter(k: nat)
    requires k < 26
    ensures "ABCDEFGHIJKLMNOPQRSTUVWXYZ"[k] as int == k + 65
  {}

  lemma LowerLetter(k: nat)
    requires k < 26
    ensures "abcdefghijklmnopqrstuvwxyz"[k] as int == k + 97
  {}

  lemma Entry(k: nat)
    requires k < 64
    ensures ("./" + "ABCDEFGHIJKLMNOPQRSTUVWXYZ" + "abcdefghijklmnopqrstuvwxyz" + "0123456789")[k] as int ==
      if k < 2 then k + 46 else if k < 28 then k + 63 else if k < 54 then k + 69 else k - 6
  {
    var dots, upper, lower, digits := "./", "ABCDEFGHIJKLMNOPQRSTUVWXYZ", "abcdefghijklmnopqrstuvwxyz", "0123456789";
    if k < 2 {
      assert (dots + upper + lower + digits)[k] == dots[k];
    } else if k < 28 {
      assert (dots + upper + lower + digits)[k] == upper[k - 2];
      UpperLetter(k - 2);
    } else if k < 54 {
      assert (dots + upper + lower + digits)[k] == lower[k - 28];
      LowerLetter(k - 28);
    } else {
      assert (dots + upper + lower + digits)[k] == digits[k - 54];
    }
  }

  lemma ItoaIs(c: byte)
    requires c < 64
    ensures c as int < 64
    ensures Itoa(c) as char
         == ("./" + "ABCDEFGHIJKLMNOPQRSTUVWXYZ" + "abcdefghijklmnopqrstuvwxyz" + "0123456789")[c as int]
  {
    BelowInt(c);
    Entry(c as int);
    if c < 2 { Dots(c); } else if c < 28 { Upper(c); } else if c < 54 { Lower(c); } else { Decimal(c); }
  }

  lemma BelowInt(c: byte)
    requires c < 64
    ensures c as int < 64
  {}

  lemma SmallBack(k: nat)
    requires k < 64
    ensures (k as byte) < 64 && (k as byte) as int == k
  {}

  lemma SameByte(a: byte, b: byte)
    requires a as char == b as char
    ensures a == b
  {
    assert a as int == b as int;
    assert a as int as byte == a && b as int as byte == b;
  }

  /** Each character of the alphabet is read as its position in it, and no other is read. */
  lemma AtoiIs(ch: byte)
    ensures Atoi(ch) < 64 <==>
            ch as char in "./" + "ABCDEFGHIJKLMNOPQRSTUVWXYZ" + "abcdefghijklmnopqrstuvwxyz" + "0123456789"
    ensures Atoi(ch) < 64 ==>
      && Atoi(ch) as int < 64
      && ("./" + "ABCDEFGHIJKLMNOPQRSTUVWXYZ" + "abcdefghijklmnopqrstuvwxyz" + "0123456789")[Atoi(ch) as int] == ch as char
  {
    hide Itoa, Atoi;
    var a := "./" + "ABCDEFGHIJKLMNOPQRSTUVWXYZ" + "abcdefghijklmnopqrstuvwxyz" + "0123456789";
    if Atoi(ch) < 64 {
      AtoiItoa(ch);
      ItoaIs(Atoi(ch));
    } else if ch as char in a {
      var k :| 0 <= k < |a| && a[k] == ch as char;
      SmallBack(k);
      ItoaIs(k as byte);
      ItoaAtoi(k as byte);
      SameByte(ch, Itoa(k as byte));
    }
  }

  // ----- the bit order

  /** The byte at i, or 0 behind the end. */
  function Or0(s: seq<byte>, i: nat): byte {
    if i < |s| then s[i] else 0
  }

  lemma Pieces(a: byte, b: byte, c: byte)
    ensures var w := ((a as bv24) << 16) | ((b as bv24) << 8) | (c as bv24);
      && Code1(a) == ((w >> 18) & 0x3f) as byte && Code2(a, b) == ((w >> 12) & 0x3f) as byte
      && Code3(b, c) == ((w >> 6) & 0x3f) as byte && Code4(c) == (w & 0x3f) as byte
  {}

  lemma {:induction false} CodeAt(s: seq<byte>, i: nat, j: nat)
    requires j < 4 && 4 * i + j < |Encode(s)|
    ensures var a, b, c := Or0(s, 3 * i), Or0(s, 3 * i + 1), Or0(s, 3 * i + 2);
      Encode(s)[4 * i + j]
      == Itoa(if j == 0 then Code1(a) else if j == 1 then Code2(a, b) else if j == 2 then Code3(b, c) else Code4(c))
    decreases i
  {
    hide Itoa, Code1, Code2, Code3, Code4, Encode;
    EncodeIsGroups(s);
    if i > 0 { CodeAt(s[3..], i - 1, j); }
  }

  /** The j-th character of group i of an encoding is the entry in the alphabet of its six bits of its three bytes. */
  lemma EncodedIs(s: seq<byte>, i: nat, j: nat)
    requires j < 4 && 4 * i + j < |Encode(s)|
    ensures var w := ((Or0(s, 3 * i) as bv24) << 16) | ((Or0(s, 3 * i + 1) as bv24) << 8) | (Or0(s, 3 * i + 2) as bv24);
      var piece := (if j == 0 then (w >> 18) & 0x3f else if j == 1 then (w >> 12) & 0x3f
                    else if j == 2 then (w >> 6) & 0x3f else w & 0x3f) as byte;
      && piece as int < 64
      && Encode(s)[4 * i + j] as char ==
         ("./" + "ABCDEFGHIJKLMNOPQRSTUVWXYZ" + "abcdefghijklmnopqrstuvwxyz" + "0123456789")[piece as int]
  {
    hide Encode, Itoa, Code1, Code2, Code3, Code4, Or0;
    CodeAt(s, i, j);
    var a, b, c := Or0(s, 3 * i), Or0(s, 3 * i + 1), Or0(s, 3 * i + 2);
    Pieces(a, b, c);
    ItoaIs(if j == 0 then Code1(a) else if j == 1 then Code2(a, b) else if j == 2 then Code3(b, c) else Code4(c));
  }

  /** Decoding fails exactly if one of the characters it needs is missing or outside the alphabet. */
  lemma {:induction false} DecodesIff(s: seq<byte>, from: nat, size: nat)
    requires size >= 1
    ensures Decode(s, from, size).Some? <==>
      from + CodeLength(size) <= |s| && forall k :: from <= k < from + CodeLength(size) ==> Atoi(s[k]) < 64
    decreases size
  {
    hide Atoi, Byte0, Byte1, Byte2;
    NulIsNoCode();
    if size > 3 { DecodesIff(s, from + 4, size - 3); }
  }

  // ----- settings

  /** 1 << n, as a number. */
  lemma {:induction false} PowerIs(n: nat)
    requires n <= 31
    ensures Pow2(n) == [1, 2, 4, 8, 16, 32, 64, 128, 256, 512, 1024, 2048, 4096, 8192, 16384, 32768,
                        65536, 131072, 262144, 524288, 1048576, 2097152, 4194304, 8388608, 16777216, 33554432,
                        67108864, 134217728, 268435456, 536870912, 1073741824, 2147483648][n]
  {
    if n > 0 { PowerIs(n - 1); }
  }

  lemma DigitIs(ch: byte, d: nat)
    requires d < 10 && ch as char == "0123456789"[d]
    ensures 0x30 <= ch <= 0x39 && Digit(ch) == d
    ensures (ch <= 0x33 <==> d <= 3) && (ch == 0x33 <==> d == 3) && (ch > 0x31 <==> d > 1)
  {}

  lemma DigitBack(ch: byte)
    requires 0x30 <= ch <= 0x39
    ensures Digit(ch) < 10 && ch as char == "0123456789"[Digit(ch)]
  {}

  lemma CharIs(ch: byte, c: byte)
    ensures ch as char == c as char <==> ch == c
  {
    if ch as char == c as char { SameByte(ch, c); }
  }

  lemma LetterIs(ch: byte)
    ensures FlagsOf(ch) != 0 <==> ch as char in "abxy"
  {
    CharIs(ch, 0x61);
    CharIs(ch, 0x62);
    CharIs(ch, 0x78);
    CharIs(ch, 0x79);
  }

  /** A prefix is "$2", one of the letters a, b, x and y, "$", a cost of two decimal digits and at most 31, and "$". */
  lemma PrefixIs(s: seq<byte>)
    ensures PrefixOk(s) <==>
      && |s| >= 7 && s[0] as char == '$' && s[1] as char == '2' && s[2] as char in "abxy" && s[3] as char == '$'
      && (exists t: nat, u: nat :: t < 10 && u < 10 && 10 * t + u <= 31
            && s[4] as char == "0123456789"[t] && s[5] as char == "0123456789"[u])
      && s[6] as char == '$'
  {
    hide FlagsOf, Digit;
    if |s| >= 7 {
      CharIs(s[0], 0x24);
      CharIs(s[1], 0x32);
      CharIs(s[3], 0x24);
      CharIs(s[6], 0x24);
      LetterIs(s[2]);
      if t: nat, u: nat :| t < 10 && u < 10 && 10 * t + u <= 31
                             && s[4] as char == "0123456789"[t] && s[5] as char == "0123456789"[u] {
        DigitIs(s[4], t);
        DigitIs(s[5], u);
      }
      if 0x30 <= s[4] <= 0x39 && 0x30 <= s[5] <= 0x39 {
        DigitBack(s[4]);
        DigitBack(s[5]);
        DigitIs(s[4], Digit(s[4]));
        DigitIs(s[5], Digit(s[5]));
      }
    }
  }

  lemma RoundsAre(s: seq<byte>, t: nat, u: nat)
    requires PrefixOk(s) && t < 10 && u < 10 && 10 * t + u <= 31
    requires |s| >= 7 && s[4] as char == "0123456789"[t] && s[5] as char == "0123456789"[u]
    ensures Rounds(s) == [1, 2, 4, 8, 16, 32, 64, 128, 256, 512, 1024, 2048, 4096, 8192, 16384, 32768,
            65536, 131072, 262144, 524288, 1048576, 2097152, 4194304, 8388608, 16777216, 33554432,
            67108864, 134217728, 268435456, 536870912, 1073741824, 2147483648][10 * t + u]
  {
    hide PrefixOk, Digit, Pow2;
    DigitIs(s[4], t);
    DigitIs(s[5], u);
    PowerIs(10 * t + u);
  }

  /**
   The cost t u, in decimal digits and at most 31, stands for 2^(10 t + u) rounds: a setting with it is accepted exactly if
   the buffer has room for 61 characters, the rest of the prefix is right, that number is at least `min`, and the 22
   characters of the salt are of the alphabet.
   */
  lemma AcceptedIff(core: Core, p: seq<word>, key: seq<byte>, setting: seq<byte>, size: int, min: nat, t: nat, u: nat)
    requires |p| == 18 && t < 10 && u < 10 && 10 * t + u <= 31
    requires |setting| >= 7 && setting[4] as char == "0123456789"[t] && setting[5] as char == "0123456789"[u]
    ensures var r := Crypt(core, p, key, setting, size, min);
      && (r == Err(ERANGE) <==> size < 61)
      && (r.Ok? <==>
            && size >= 61 && |setting| >= 29
            && setting[0] as char == '$' && setting[1] as char == '2' && setting[2] as char in "abxy"
            && setting[3] as char == '$' && setting[6] as char == '$'
            && [1, 2, 4, 8, 16, 32, 64, 128, 256, 512, 1024, 2048, 4096, 8192, 16384, 32768,
            65536, 131072, 262144, 524288, 1048576, 2097152, 4194304, 8388608, 16777216, 33554432,
            67108864, 134217728, 268435456, 536870912, 1073741824, 2147483648][10 * t + u] >= min
            && forall k :: 7 <= k < 29 ==>
                 setting[k] as char in "./" + "ABCDEFGHIJKLMNOPQRSTUVWXYZ" + "abcdefghijklmnopqrstuvwxyz" + "0123456789")
  {
    hide PrefixOk, Rounds, Decode, Crypt, Atoi, Pow2, Digit;
    CryptFails(core, p, key, setting, size, min);
    PrefixIs(setting);
    if PrefixOk(setting) { RoundsAre(setting, t, u); }
    DecodesIff(setting, 7, SALT);
    SaltLength();
    forall k | 7 <= k < 29 && k < |setting|
      ensures Atoi(setting[k]) < 64 <==>
              setting[k] as char in "./" + "ABCDEFGHIJKLMNOPQRSTUVWXYZ" + "abcdefghijklmnopqrstuvwxyz" + "0123456789"
    {
      AtoiIs(setting[k]);
    }
  }

  lemma SaltLength()
    ensures CodeLength(SALT) == 22 && CodeLength(HASH) == 31 && LENGTH == 60 && SALT == 16 && HASH == 23
  {}

  /** Without such a cost a setting is refused. */
  lemma CostIsNeeded(core: Core, p: seq<word>, key: seq<byte>, setting: seq<byte>, size: int, min: nat)
    requires |p| == 18 && Crypt(core, p, key, setting, size, min).Ok?
    ensures exists t: nat, u: nat :: t < 10 && u < 10 && 10 * t + u <= 31 && |setting| >= 7
              && setting[4] as char == "0123456789"[t] && setting[5] as char == "0123456789"[u]
  {
    hide PrefixOk, Rounds, Decode, Crypt;
    CryptFails(core, p, key, setting, size, min);
    PrefixIs(setting);
  }

  // ----- hashes

  lemma WordOf(w: word)
    ensures var b := Bytes(w); BcryptKey.BigEndian(b[0], b[1], b[2], b[3]) == w
  {}

  lemma SixSplits(out: Six, k: nat)
    requires k < 4
    ensures SixBytes(out)[k] == Bytes(out.a)[k] && SixBytes(out)[4 + k] == Bytes(out.b)[k]
    ensures SixBytes(out)[8 + k] == Bytes(out.c)[k] && SixBytes(out)[12 + k] == Bytes(out.d)[k]
    ensures SixBytes(out)[16 + k] == Bytes(out.e)[k] && SixBytes(out)[20 + k] == Bytes(out.f)[k]
  {
    hide Bytes;
  }

  /** The 24 bytes are the six words, each with its most significant byte first. */
  lemma BytesAre(out: Six)
    ensures var b := SixBytes(out);
      && BcryptKey.BigEndian(b[0], b[1], b[2], b[3]) == out.a && BcryptKey.BigEndian(b[4], b[5], b[6], b[7]) == out.b
      && BcryptKey.BigEndian(b[8], b[9], b[10], b[11]) == out.c && BcryptKey.BigEndian(b[12], b[13], b[14], b[15]) == out.d
      && BcryptKey.BigEndian(b[16], b[17], b[18], b[19]) == out.e && BcryptKey.BigEndian(b[20], b[21], b[22], b[23]) == out.f
  {
    hide Bytes, SixBytes, BcryptKey.BigEndian;
    SixSplits(out, 0);
    SixSplits(out, 1);
    SixSplits(out, 2);
    SixSplits(out, 3);
    WordOf(out.a);
    WordOf(out.b);
    WordOf(out.c);
    WordOf(out.d);
    WordOf(out.e);
    WordOf(out.f);
  }

  /** A word by its four bytes. */
  lemma BigEndianIs(a: byte, b: byte, c: byte, d: byte)
    ensures var w := BcryptKey.BigEndian(a, b, c, d);
      w >> 24 == a as word && (w >> 16) & 0xff == b as word && (w >> 8) & 0xff == c as word && w & 0xff == d as word
  {}

  lemma HashParts(core: Core, p: seq<word>, key: seq<byte>, setting: seq<byte>, size: int, min: nat, hash: seq<byte>)
    requires |p| == 18 && Crypt(core, p, key, setting, size, min) == Ok(hash)
    ensures |setting| >= 7 && PrefixOk(setting) && |hash| == 60 && Decode(setting, 7, 16).Some?
    ensures hash[..29] == setting[..7] + Encode(Decode(setting, 7, 16).value)
    ensures var f, salt := FlagsOf(setting[2]), Decode(setting, 7, 16).value;
      hash[29..] == Encode(SixBytes(core(Words(key, f), Initials(key, f, p), salt, Rounds(setting)))[..23])
  {
    hide Decode, Encode, SixBytes, Words, Initials, FlagsOf, Crypt, Rounds, PrefixOk;
    HashIsAssembled(core, p, key, setting, size, min);
    CryptFails(core, p, key, setting, size, min);
    PrefixCounts(setting, setting[..7]);
    SaltLength();
    var salt := Decode(setting, 7, 16).value;
    AssembledParts(core, p, key, setting, salt, Rounds(setting));
    assert hash == Assembled(core, p, key, setting[..7], salt);
    hide *;
    assert |setting[..7] + Encode(salt)| == 29;
  }

  /**
   A hash is 60 characters: the setting's prefix, the salt encoded, and the encoding of the first 23 bytes that the cipher
   gives for the key, the salt and exactly 2^(10 t + u) rounds.
   */
  lemma HashIs(core: Core, p: seq<word>, key: seq<byte>, setting: seq<byte>, size: int, min: nat, t: nat, u: nat,
               hash: seq<byte>, rounds: nat)
    requires |p| == 18 && Crypt(core, p, key, setting, size, min) == Ok(hash)
    requires t < 10 && u < 10 && 10 * t + u <= 31
    requires |setting| >= 7 && setting[4] as char == "0123456789"[t] && setting[5] as char == "0123456789"[u]
    requires rounds == [1, 2, 4, 8, 16, 32, 64, 128, 256, 512, 1024, 2048, 4096, 8192, 16384, 32768,
            65536, 131072, 262144, 524288, 1048576, 2097152, 4194304, 8388608, 16777216, 33554432,
            67108864, 134217728, 268435456, 536870912, 1073741824, 2147483648][10 * t + u]
    ensures |hash| == 60 && Decode(setting, 7, 16).Some?
    ensures hash[..29] == setting[..7] + Encode(Decode(setting, 7, 16).value)
    ensures var f := FlagsOf(setting[2]);
      hash[29..] == Encode(SixBytes(core(Words(key, f), Initials(key, f, p), Decode(setting, 7, 16).value, rounds))[..23])
  {
    hide *;
    HashParts(core, p, key, setting, size, min, hash);
    RoundsAre(setting, t, u);
  }

  lemma AssembledParts(core: Core, p: seq<word>, key: seq<byte>, setting: seq<byte>, salt: seq<byte>, rounds: nat)
    requires |p| == 18 && |setting| >= 7 && PrefixOk(setting[..7]) && |salt| == 16 && rounds == Rounds(setting[..7])
    ensures var f := FlagsOf(setting[2]);
      Assembled(core, p, key, setting[..7], salt)
      == setting[..7] + Encode(salt) + Encode(SixBytes(core(Words(key, f), Initials(key, f, p), salt, rounds))[..23])
    ensures |Assembled(core, p, key, setting[..7], salt)| == 60 && |setting[..7] + Encode(salt)| == 29
  {
    hide PrefixOk, Rounds, Encode, SixBytes, Words, Initials, FlagsOf;
    SaltLength();
    assert At(setting[..7], 2) == setting[2];
  }

  // ----- keys

  /** The n-th character of an endless reading of a key with its terminator. */
  lemma KeyByteIs(key: seq<byte>, n: nat)
    ensures n % (|key| + 1) < |key| + 1
    ensures BcryptKey.KeyByte(key, n) == (key + [0])[n % (|key| + 1)]
  {}

  /** The words of a key are those of its endless reading, the first character of four on top. */
  lemma KeyWordIs(key: seq<byte>, i: nat, a: byte, b: byte, c: byte, d: byte)
    requires a == (key + [0])[4 * i % (|key| + 1)] && b == (key + [0])[(4 * i + 1) % (|key| + 1)]
    requires c == (key + [0])[(4 * i + 2) % (|key| + 1)] && d == (key + [0])[(4 * i + 3) % (|key| + 1)]
    ensures BcryptKey.Correct(key, i) == ((a as word) << 24) | ((b as word) << 16) | ((c as word) << 8) | (d as word)
  {
    hide BcryptKey.KeyByte, BcryptKey.BigEndian, BcryptKey.PushedSigned;
    KeyBytes(key, i, a, b, c, d);
    hide *;
    WordIs(a, b, c, d);
    WordsOf(key, i);
  }

  /** With the bug, a character with its high bit set turns the characters before it in the word into 0xff. */
  lemma BuggyWordIs(key: seq<byte>, i: nat, a: byte, b: byte, c: byte, d: byte, a': byte, b': byte, c': byte)
    requires a == (key + [0])[4 * i % (|key| + 1)] && b == (key + [0])[(4 * i + 1) % (|key| + 1)]
    requires c == (key + [0])[(4 * i + 2) % (|key| + 1)] && d == (key + [0])[(4 * i + 3) % (|key| + 1)]
    requires c' == (if d & 0x80 != 0 then 0xff else c)
    requires b' == (if c & 0x80 != 0 || d & 0x80 != 0 then 0xff else b)
    requires a' == (if b & 0x80 != 0 || c & 0x80 != 0 || d & 0x80 != 0 then 0xff else a)
    ensures BcryptKey.Buggy(key, i) == ((a' as word) << 24) | ((b' as word) << 16) | ((c' as word) << 8) | (d as word)
  {
    hide BcryptKey.KeyByte, BcryptKey.BigEndian, BcryptKey.PushedSigned;
    KeyBytes(key, i, a, b, c, d);
    WordsOf(key, i);
    SignFills(a, b, c, d, a', b', c');
    hide *;
    WordIs(a', b', c', d);
  }

  lemma SignFills(a: byte, b: byte, c: byte, d: byte, a': byte, b': byte, c': byte)
    requires c' == (if d & 0x80 != 0 then 0xff else c)
    requires b' == (if c & 0x80 != 0 || d & 0x80 != 0 then 0xff else b)
    requires a' == (if b & 0x80 != 0 || c & 0x80 != 0 || d & 0x80 != 0 then 0xff else a)
    ensures BcryptKey.PushedSigned(a, b, c, d) == BcryptKey.BigEndian(a', b', c', d)
  {
    hide BcryptKey.PushedSigned, BcryptKey.BigEndian;
    if d & 0x80 != 0 {
      BcryptKey.Sign3(a, b, c, d);
    } else if c & 0x80 != 0 {
      BcryptKey.Sign2(a, b, c, d);
    } else if b & 0x80 != 0 {
      BcryptKey.Sign1(a, b, c, d);
    } else {
      BcryptKey.Sign0(a, b, c, d);
    }
  }

  lemma KeyBytes(key: seq<byte>, i: nat, a: byte, b: byte, c: byte, d: byte)
    requires a == (key + [0])[4 * i % (|key| + 1)] && b == (key + [0])[(4 * i + 1) % (|key| + 1)]
    requires c == (key + [0])[(4 * i + 2) % (|key| + 1)] && d == (key + [0])[(4 * i + 3) % (|key| + 1)]
    ensures BcryptKey.KeyByte(key, 4 * i) == a && BcryptKey.KeyByte(key, 4 * i + 1) == b
    ensures BcryptKey.KeyByte(key, 4 * i + 2) == c && BcryptKey.KeyByte(key, 4 * i + 3) == d
  {
    hide BcryptKey.KeyByte;
    KeyByteIs(key, 4 * i);
    KeyByteIs(key, 4 * i + 1);
    KeyByteIs(key, 4 * i + 2);
    KeyByteIs(key, 4 * i + 3);
  }

  lemma WordsOf(key: seq<byte>, i: nat)
    ensures BcryptKey.Correct(key, i) ==
      BcryptKey.BigEndian(BcryptKey.KeyByte(key, 4 * i), BcryptKey.KeyByte(key, 4 * i + 1),
                          BcryptKey.KeyByte(key, 4 * i + 2), BcryptKey.KeyByte(key, 4 * i + 3))
    ensures BcryptKey.Buggy(key, i) ==
      BcryptKey.PushedSigned(BcryptKey.KeyByte(key, 4 * i), BcryptKey.KeyByte(key, 4 * i + 1),
                             BcryptKey.KeyByte(key, 4 * i + 2), BcryptKey.KeyByte(key, 4 * i + 3))
  {
    hide BcryptKey.KeyByte, BcryptKey.BigEndian, BcryptKey.PushedSigned;
  }

  lemma WordIs(a: byte, b: byte, c: byte, d: byte)
    ensures BcryptKey.BigEndian(a, b, c, d) == ((a as word) << 24) | ((b as word) << 16) | ((c as word) << 8) | (d as word)
  {}

  /**
   What the letter of a prefix stands for: x the words of the bug, b and y the correct ones; a the correct ones too, but
   with bit 16 of the first initial word flipped for a password that would collide with others given to the bug.
   */
  lemma VariantIs(key: seq<byte>, p: seq<word>, letter: byte, i: nat)
    requires |p| == 18 && i < 18 && letter as char in "abxy"
    ensures var f := FlagsOf(letter);
      var w := if letter as char == 'x' then BcryptKey.Buggy(key, i) else BcryptKey.Correct(key, i);
      && |Words(key, f)| == 18 == |Initials(key, f, p)|
      && Words(key, f)[i] == w
      && Initials(key, f, p)[i] ==
         if letter as char == 'a' && i == 0 && BcryptKey.Collides(key)
         then BcryptKey.Xor(BcryptKey.Xor(p[i], w), 0x10000) else BcryptKey.Xor(p[i], w)
  {
    hide *;
    LetterFlags(letter);
    InitialIs(key, FlagsOf(letter), p, i);
    WordsAt(key, FlagsOf(letter), p, i);
  }

  lemma WordsAt(key: seq<byte>, flags: byte, p: seq<word>, i: nat)
    requires |p| == 18 && i < 18
    ensures |Words(key, flags)| == 18 == |Initials(key, flags, p)|
    ensures Words(key, flags)[i] == if BcryptKey.Bug(flags) then BcryptKey.Buggy(key, i) else BcryptKey.Correct(key, i)
    ensures Words(key, flags)[i] == BcryptKey.Expanded(key, BcryptKey.Bug(flags), i)
    ensures Initials(key, flags, p)[i] == BcryptKey.Initial(key, flags, p, i)
  {
    hide BcryptKey.Buggy, BcryptKey.Correct, BcryptKey.Initial;
  }

  lemma LetterFlags(letter: byte)
    requires letter as char in "abxy"
    ensures BcryptKey.Bug(FlagsOf(letter)) <==> letter as char == 'x'
    ensures BcryptKey.Safe(FlagsOf(letter)) <==> letter as char == 'a'
  {
    CharIs(letter, 0x61);
    CharIs(letter, 0x62);
    CharIs(letter, 0x78);
    CharIs(letter, 0x79);
  }

  lemma InitialIs(key: seq<byte>, flags: byte, p: seq<word>, i: nat)
    requires |p| == 18 && i < 18
    ensures var w := BcryptKey.Expanded(key, BcryptKey.Bug(flags), i);
      BcryptKey.Initial(key, flags, p, i) ==
      if i == 0 && BcryptKey.Safe(flags) && BcryptKey.Collides(key)
      then BcryptKey.Xor(BcryptKey.Xor(p[i], w), 0x10000) else BcryptKey.Xor(p[i], w)
  {
    hide BcryptKey.Expanded, BcryptKey.Collides, BcryptKey.Bug, BcryptKey.Safe, BcryptKey.Xor;
    BcryptKey.XorZero(BcryptKey.Xor(p[i], BcryptKey.Expanded(key, BcryptKey.Bug(flags), i)));
  }

  /**
   A password collides exactly if some character of its 72 that is not the first of a word has its high bit set, and yet
   the bug changes none of the words.
   */
  lemma CollidesIs(key: seq<byte>)
    ensures BcryptKey.Collides(key) <==>
      && (exists n: nat :: n < 72 && n % 4 != 0 && BcryptKey.KeyByte(key, n) & 0x80 != 0)
      && forall i: nat :: i < 18 ==> BcryptKey.Buggy(key, i) == BcryptKey.Correct(key, i)
  {
    hide BcryptKey.KeyByte, BcryptKey.Buggy, BcryptKey.Correct;
    if i :| 0 <= i < 18 && BcryptKey.SignAt(key, i) {
      var j := if BcryptKey.High(BcryptKey.KeyByte(key, 4 * i + 1)) then 1
               else if BcryptKey.High(BcryptKey.KeyByte(key, 4 * i + 2)) then 2 else 3;
      var n: nat := 4 * i + j;
      assert n % 4 != 0 && BcryptKey.High(BcryptKey.KeyByte(key, n));
    }
    if n: nat :| n < 72 && n % 4 != 0 && BcryptKey.KeyByte(key, n) & 0x80 != 0 {
      var i, j := n / 4, n % 4;
      assert n == 4 * i + j && BcryptKey.SignAt(key, i);
    }
  }
}
