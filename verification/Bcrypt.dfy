/**
 util/crypt_blowfish.c, `BF_crypt`: from a setting to a hash that is itself a setting.
 The cipher between the expanded keys and the 24 output bytes is a parameter.
 */
module Bcrypt {
  import opened Wrappers
  import opened BcryptBase64
  import BcryptKey

  type word = bv32
  /** The six output words of the cipher. */
  datatype Six = Six(a: word, b: word, c: word, d: word, e: word, f: word)

  /** Expanded key, initial key, salt and number of rounds to output words. */
  type Core = (seq<word>, seq<word>, seq<byte>, nat) -> Six

  const SALT := 16
  const HASH := 23
  const LENGTH := 60

  datatype Errno = ERANGE | EINVAL
  datatype Result = Ok(hash: seq<byte>) | Err(errno: Errno)

  /** The bytes of a word in memory after `BF_swap`. */
  function Bytes(w: word): (b: seq<byte>)
    ensures |b| == 4
  {
    [(w >> 24) as byte, ((w >> 16) & 0xff) as byte, ((w >> 8) & 0xff) as byte, (w & 0xff) as byte]
  }

  function SixBytes(out: Six): (b: seq<byte>)
    ensures |b| == 24
  {
    Bytes(out.a) + Bytes(out.b) + Bytes(out.c) + Bytes(out.d) + Bytes(out.e) + Bytes(out.f)
  }

  /** flags_by_subtype, with 0 for what is no subtype */
  function FlagsOf(ch: byte): byte {
    if ch == 0x61 then BcryptKey.FLAGS_A
    else if ch == 0x62 || ch == 0x79 then BcryptKey.FLAGS_B
    else if ch == 0x78 then BcryptKey.FLAGS_X
    else 0
  }

  /** $2x$NN$ with a known letter and a cost of at most 31. */
  predicate PrefixOk(s: seq<byte>) {
    && At(s, 0) == 0x24 && At(s, 1) == 0x32 && FlagsOf(At(s, 2)) != 0 && At(s, 3) == 0x24
    && 0x30 <= At(s, 4) <= 0x33 && 0x30 <= At(s, 5) <= 0x39 && !(At(s, 4) == 0x33 && At(s, 5) > 0x31)
    && At(s, 6) == 0x24
  }

  function Digit(ch: byte): nat {
    if ch == 0x30 then 0 else if ch == 0x31 then 1 else if ch == 0x32 then 2 else if ch == 0x33 then 3
    else if ch == 0x34 then 4 else if ch == 0x35 then 5 else if ch == 0x36 then 6 else if ch == 0x37 then 7
    else if ch == 0x38 then 8 else 9
  }

  function Pow2(n: nat): nat {
    if n == 0 then 1 else 2 * Pow2(n - 1)
  }

  /** 1 << cost, which fits 32 bits. */
  function Rounds(s: seq<byte>): nat
    requires PrefixOk(s)
  {
    Pow2(Digit(At(s, 4)) * 10 + Digit(At(s, 5)))
  }

  function Words(key: seq<byte>, flags: byte): seq<word> {
    seq(BcryptKey.WORDS, i requires 0 <= i < BcryptKey.WORDS => BcryptKey.Expanded(key, BcryptKey.Bug(flags), i))
  }

  function Initials(key: seq<byte>, flags: byte, p: seq<word>): seq<word>
    requires |p| == BcryptKey.WORDS
  {
    seq(BcryptKey.WORDS, i requires 0 <= i < BcryptKey.WORDS => BcryptKey.Initial(key, flags, p, i))
  }

  function LastSaltChar(ch: byte): (c: byte)
    ensures c != 0
  {
    ItoaAtoi(Atoi(ch) & 0x30);
    Itoa(Atoi(ch) & 0x30)
  }

  /** All but the last byte of what the cipher gives. */
  function Digest(core: Core, p: seq<word>, key: seq<byte>, flags: byte, salt: seq<byte>, count: nat): (d: seq<byte>)
    requires |p| == BcryptKey.WORDS
    ensures |d| == HASH
  {
    SixBytes(core(Words(key, flags), Initials(key, flags, p), salt, count))[..HASH]
  }

  /** The salt of a setting. */
  function SaltOf(setting: seq<byte>): (d: Option<seq<byte>>)
    ensures d.Some? ==> |d.value| == SALT
  {
    Decode(setting, 7, SALT)
  }

  /** `BF_crypt` */
  function Crypt(core: Core, p: seq<word>, key: seq<byte>, setting: seq<byte>, size: int, min: nat): (r: Result)
    requires |p| == BcryptKey.WORDS
    ensures r.Ok? ==> |r.hash| == LENGTH
  {
    if size < LENGTH + 1 then Err(ERANGE)
    else if !PrefixOk(setting) || Rounds(setting) < min then Err(EINVAL)
    else
      match SaltOf(setting)
      case None => Err(EINVAL)
      case Some(salt) =>
        DecodeReads(setting, 7, SALT);
        var flags := FlagsOf(setting[2]);
        Ok(setting[..28] + [LastSaltChar(setting[28])] + Encode(Digest(core, p, key, flags, salt, Rounds(setting))))
  }

  /** `BF_crypt` into the output buffer; the p are the initial P words of the cipher. */
  method BfCrypt(core: Core, p: seq<word>, key: seq<byte>, setting: seq<byte>, output: array<byte>, size: int, min: nat)
    returns (r: Result)
    requires |p| == BcryptKey.WORDS && 0 !in key && size <= output.Length
    modifies output
    ensures r == Crypt(core, p, key, setting, size, min)
    ensures r.Ok? ==> output[..LENGTH] == r.hash && output[LENGTH] == 0
    ensures forall k :: (if r.Ok? then LENGTH + 1 else 0) <= k < output.Length ==> output[k] == old(output[k])
  {
    hide Decode, Encode, PrefixOk, Atoi, Itoa, Rounds, Digest, FlagsOf, LastSaltChar;
    if size < LENGTH + 1 { return Err(ERANGE); }
    if !PrefixOk(setting) { return Err(EINVAL); }
    var count := Rounds(setting);
    if count < min { return Err(EINVAL); }
    var d := DecodeFrom(setting, 7, SALT);
    assert d == SaltOf(setting);
    if d == None { return Err(EINVAL); }
    var salt := d.value;
    DecodeReads(setting, 7, SALT);
    var flags := FlagsOf(setting[2]);
    var digest := DigestOf(core, p, key, flags, salt, count);
    Copy(setting, output);
    output[28] := LastSaltChar(setting[28]);
    EncodeInto(output, 29, digest);
    output[LENGTH] := 0;
    r := Ok(output[..LENGTH]);
    assert output[..LENGTH] == output[..28] + [output[28]] + output[29..LENGTH];
  }

  method DigestOf(core: Core, p: seq<word>, key: seq<byte>, flags: byte, salt: seq<byte>, count: nat)
    returns (d: seq<byte>)
    requires |p| == BcryptKey.WORDS && 0 !in key
    ensures d == Digest(core, p, key, flags, salt, count)
  {
    hide SixBytes;
    var expanded, initial := new word[BcryptKey.WORDS], new word[BcryptKey.WORDS];
    BcryptKey.SetKey(key, expanded, initial, flags, p);
    assert expanded[..] == Words(key, flags) && initial[..] == Initials(key, flags, p);
    d := SixBytes(core(expanded[..], initial[..], salt, count))[..HASH];
  }

  /** memcpy of the prefix and all but the last character of the salt */
  method Copy(setting: seq<byte>, output: array<byte>)
    requires |setting| >= 28 && output.Length >= 28
    modifies output
    ensures output[..28] == setting[..28]
    ensures forall k :: 28 <= k < output.Length ==> output[k] == old(output[k])
  {
    var i := 0;
    while i < 28
      invariant i <= 28
      invariant forall k :: 0 <= k < i ==> output[k] == setting[k]
      invariant forall k :: 28 <= k < output.Length ==> output[k] == old(output[k])
    {
      output[i] := setting[i];
      i := i + 1;
    }
  }

  /** The hash carries the salt it was made with, in the one spelling that encoding it gives. */
  lemma HashCarriesSalt(core: Core, p: seq<word>, key: seq<byte>, setting: seq<byte>, size: int, min: nat)
    requires |p| == BcryptKey.WORDS && Crypt(core, p, key, setting, size, min).Ok?
    ensures var hash := Crypt(core, p, key, setting, size, min).hash;
            && hash[..7] == setting[..7] && SaltOf(setting).Some?
            && hash[7..29] == Encode(SaltOf(setting).value)
            && SaltOf(hash) == SaltOf(setting)
  {
    hide Digest, Decode, SixBytes, Encode, PrefixOk, Atoi, Itoa, Rounds, FlagsOf;
    var hash, salt := Crypt(core, p, key, setting, size, min).hash, SaltOf(setting).value;
    EncodeDecode(setting, 7, SALT);
    var code := setting[7..29];
    MaskedSmall(Atoi(setting[28]));
    assert code[21] == setting[28] && code[..21] == setting[7..28];
    assert hash[7..29] == code[..21] + [LastSaltChar(setting[28])];
    assert Canonical(code, SALT) == code[..21] + [LastSaltChar(setting[28])];
    DecodeEncode(salt, hash, 7);
  }

  lemma MaskedSmall(c: byte)
    ensures c & 0x30 < 64 && (c & 0x30) & 0x30 == c & 0x30
  {}

  /** Verification works: hashing the same password with a hash as the setting gives that hash. */
  lemma FixedPoint(core: Core, p: seq<word>, key: seq<byte>, setting: seq<byte>, size: int, min: nat)
    requires |p| == BcryptKey.WORDS && Crypt(core, p, key, setting, size, min).Ok?
    ensures var hash := Crypt(core, p, key, setting, size, min).hash;
            Crypt(core, p, key, hash, size, min) == Ok(hash)
  {
    hide Digest, Decode, SixBytes, Encode, Atoi, Itoa, FlagsOf;
    HashCarriesSalt(core, p, key, setting, size, min);
    DecodeReads(setting, 7, SALT);
    var hash := Crypt(core, p, key, setting, size, min).hash;
    forall k: nat | k < 28 ensures At(hash, k) == At(setting, k) {}
    LastCharFixed(setting[28]);
  }

  lemma LastCharFixed(ch: byte)
    ensures LastSaltChar(LastSaltChar(ch)) == LastSaltChar(ch)
  {
    hide Itoa, Atoi;
    MaskedSmall(Atoi(ch));
    ItoaAtoi(Atoi(ch) & 0x30);
  }

  lemma PrefixCounts(a: seq<byte>, b: seq<byte>)
    requires |a| >= 7 && |b| >= 7 && a[..7] == b[..7]
    ensures At(a, 2) == At(b, 2) && (PrefixOk(a) <==> PrefixOk(b))
    ensures PrefixOk(a) ==> Rounds(a) == Rounds(b)
  {
    hide FlagsOf;
    forall k: nat | k < 7 ensures At(a, k) == At(b, k) {
      assert a[..7][k] == b[..7][k];
    }
  }

  /** The hash put together from the prefix and the decoded salt alone. */
  function Assembled(core: Core, p: seq<word>, key: seq<byte>, prefix: seq<byte>, salt: seq<byte>): seq<byte>
    requires |p| == BcryptKey.WORDS && PrefixOk(prefix)
  {
    prefix + Encode(salt) + Encode(Digest(core, p, key, FlagsOf(At(prefix, 2)), salt, Rounds(prefix)))
  }

  lemma HashIsAssembled(core: Core, p: seq<word>, key: seq<byte>, setting: seq<byte>, size: int, min: nat)
    requires |p| == BcryptKey.WORDS && Crypt(core, p, key, setting, size, min).Ok?
    ensures SaltOf(setting).Some? && |setting| >= 7 && PrefixOk(setting[..7])
    ensures Crypt(core, p, key, setting, size, min)
         == Ok(Assembled(core, p, key, setting[..7], SaltOf(setting).value))
  {
    hide Digest, Decode, SixBytes, Encode, Atoi, Itoa, FlagsOf, PrefixOk, Rounds, LastSaltChar;
    HashCarriesSalt(core, p, key, setting, size, min);
    DecodeReads(setting, 7, SALT);
    PrefixCounts(setting, setting[..7]);
    var hash := Crypt(core, p, key, setting, size, min).hash;
    assert hash == hash[..7] + hash[7..29] + hash[29..];
  }

  /** The tests on the prefix. */
  predicate Accepts(setting: seq<byte>, min: nat) {
    PrefixOk(setting) && min <= Rounds(setting)
  }

  /** The error cases. */
  lemma CryptFails(core: Core, p: seq<word>, key: seq<byte>, setting: seq<byte>, size: int, min: nat)
    requires |p| == BcryptKey.WORDS
    ensures var r := Crypt(core, p, key, setting, size, min);
            && (r == Err(ERANGE) <==> size < LENGTH + 1)
            && (r == Err(EINVAL) <==> size >= LENGTH + 1 && !(Accepts(setting, min) && SaltOf(setting).Some?))
            && (r.Ok? <==> size >= LENGTH + 1 && Accepts(setting, min) && SaltOf(setting).Some?)
  {
    hide Digest, SaltOf, Decode, SixBytes, Encode, Atoi, Itoa, FlagsOf, PrefixOk, Rounds, LastSaltChar;
  }

  lemma AcceptsSame(a: seq<byte>, b: seq<byte>, min: nat)
    requires |a| >= 7 && |b| >= 7 && a[..7] == b[..7]
    ensures Accepts(a, min) <==> Accepts(b, min)
  {
    hide Rounds, PrefixOk;
    PrefixCounts(a, b);
  }

  /** Two settings with the same prefix and the same decoded salt give the same hash. */
  lemma SpellingDoesNotMatter(core: Core, p: seq<word>, key: seq<byte>, a: seq<byte>, b: seq<byte>, size: int, min: nat)
    requires |p| == BcryptKey.WORDS && |a| >= 7 && |b| >= 7 && a[..7] == b[..7]
    requires SaltOf(a) == SaltOf(b)
    ensures Crypt(core, p, key, a, size, min) == Crypt(core, p, key, b, size, min)
  {
    hide SaltOf, Decode, Crypt, Assembled, Accepts, PrefixOk, Rounds, At, FlagsOf;
    AcceptsSame(a, b, min);
    CryptFails(core, p, key, a, size, min);
    CryptFails(core, p, key, b, size, min);
    var ra, rb := Crypt(core, p, key, a, size, min), Crypt(core, p, key, b, size, min);
    if ra.Ok? {
      HashIsAssembled(core, p, key, a, size, min);
      HashIsAssembled(core, p, key, b, size, min);
    }
  }
}
