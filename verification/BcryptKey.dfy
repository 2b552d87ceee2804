/**
 util/crypt_blowfish.c, `BF_set_key`: the expanded key, the emulation of the sign
 extension bug, and the safety measure against collisions with it.
 */
module BcryptKey {
  type byte = bv8
  type word = bv32

  const WORDS := 18

  /** The flags of the prefixes $2a$, $2b$ and $2y$, and $2x$. */
  const FLAGS_A: byte := 2
  const FLAGS_B: byte := 4
  const FLAGS_X: byte := 1

  predicate Bug(flags: byte) { flags & 1 != 0 }
  predicate Safe(flags: byte) { flags & 2 != 0 }

  /** Where the n-th character of an endless reading of a C string stands. */
  function Place(key: seq<byte>, n: nat): (m: nat)
    ensures m <= |key|
  {
    n % (|key| + 1)
  }

  /** What reading a C string over and over gives: its characters and the terminator, in turn. */
  function KeyByte(key: seq<byte>, n: nat): byte {
    var m := Place(key, n);
    if m < |key| then key[m] else 0
  }

  /** One more character of a word, as it should be and as the bug has it. */
  function Push(w: word, c: byte): word { (w << 8) | (c as word) }
  function PushSigned(w: word, c: byte): word { (w << 8) | Extended(c) }

  function Extended(c: byte): word {
    if c & 0x80 != 0 then (c as word) | 0xffffff00 else c as word
  }

  /** The big-endian word. */
  function BigEndian(a: byte, b: byte, c: byte, d: byte): word {
    ((a as word) << 24) | ((b as word) << 16) | ((c as word) << 8) | (d as word)
  }

  function Correct(key: seq<byte>, i: nat): word {
    BigEndian(KeyByte(key, 4 * i), KeyByte(key, 4 * i + 1), KeyByte(key, 4 * i + 2), KeyByte(key, 4 * i + 3))
  }

  function Pushed(a: byte, b: byte, c: byte, d: byte): word {
    Push(Push(Push(Push(0, a), b), c), d)
  }

  function PushedSigned(a: byte, b: byte, c: byte, d: byte): word {
    PushSigned(PushSigned(PushSigned(PushSigned(0, a), b), c), d)
  }

  function Buggy(key: seq<byte>, i: nat): word {
    PushedSigned(KeyByte(key, 4 * i), KeyByte(key, 4 * i + 1), KeyByte(key, 4 * i + 2), KeyByte(key, 4 * i + 3))
  }

  predicate High(c: byte) { c & 0x80 != 0 }

  lemma PushedIsBigEndian(a: byte, b: byte, c: byte, d: byte)
    ensures Pushed(a, b, c, d) == BigEndian(a, b, c, d)
  {}

  /** When the bug makes no difference to a word. */
  predicate Benign(a: byte, b: byte, c: byte, d: byte) {
    && (High(b) ==> a == 0xff)
    && (High(c) ==> a == 0xff && b == 0xff)
    && (High(d) ==> a == 0xff && b == 0xff && c == 0xff)
  }

  /** A sign extension fills everything before it with ones. */
  lemma Sign3(a: byte, b: byte, c: byte, d: byte)
    requires High(d)
    ensures PushedSigned(a, b, c, d) == BigEndian(0xff, 0xff, 0xff, d)
  {}

  lemma Sign2(a: byte, b: byte, c: byte, d: byte)
    requires !High(d) && High(c)
    ensures PushedSigned(a, b, c, d) == BigEndian(0xff, 0xff, c, d)
  {}

  lemma Sign1(a: byte, b: byte, c: byte, d: byte)
    requires !High(d) && !High(c) && High(b)
    ensures PushedSigned(a, b, c, d) == BigEndian(0xff, b, c, d)
  {}

  lemma Sign0(a: byte, b: byte, c: byte, d: byte)
    requires !High(d) && !High(c) && !High(b)
    ensures PushedSigned(a, b, c, d) == BigEndian(a, b, c, d)
  {}

  lemma BigEndianInjective(a: byte, b: byte, c: byte, d: byte, a': byte, b': byte, c': byte)
    ensures BigEndian(a, b, c, d) == BigEndian(a', b', c', d) <==> a == a' && b == b' && c == c'
  {}

  lemma AllOnesIsHigh()
    ensures High(0xff)
  {}

  lemma SameIffBenign(a: byte, b: byte, c: byte, d: byte)
    ensures PushedSigned(a, b, c, d) == BigEndian(a, b, c, d) <==> Benign(a, b, c, d)
  {
    hide PushedSigned, BigEndian, High;
    AllOnesIsHigh();
    if High(d) {
      Sign3(a, b, c, d);
      BigEndianInjective(a, b, c, d, 0xff, 0xff, 0xff);
    } else if High(c) {
      Sign2(a, b, c, d);
      BigEndianInjective(a, b, c, d, 0xff, 0xff, c);
    } else if High(b) {
      Sign1(a, b, c, d);
      BigEndianInjective(a, b, c, d, 0xff, b, c);
    } else {
      Sign0(a, b, c, d);
    }
  }

  /** The mask computed from `diff`, `sign` and `safety` at the end. */
  function Deviation(diff: word, sign: word, safety: word): word {
    var d := ((diff | (diff >> 16)) & 0xffff) + 0xffff;
    (sign << 9) & (!d & safety)
  }

  lemma DeviationIs(diff: word, sign: word, safety: word)
    requires sign == 0 || sign == 0x80
    requires safety == 0 || safety == 0x10000
    ensures Deviation(diff, sign, safety) == if diff == 0 && sign != 0 && safety != 0 then 0x10000 else 0
  {}

  // ----- BF_set_key

  /** One of the 18 words of the key. */
  function Expanded(key: seq<byte>, bug: bool, i: nat): word {
    if bug then Buggy(key, i) else Correct(key, i)
  }

  /** A high character where sign extension does harm: not the first of a word. */
  predicate SignAt(key: seq<byte>, i: nat) {
    High(KeyByte(key, 4 * i + 1)) || High(KeyByte(key, 4 * i + 2)) || High(KeyByte(key, 4 * i + 3))
  }

  predicate Signed(key: seq<byte>, n: nat) {
    exists i :: 0 <= i < n && SignAt(key, i)
  }

  predicate Agree(key: seq<byte>, n: nat) {
    forall i :: 0 <= i < n ==> Buggy(key, i) == Correct(key, i)
  }

  /** Correctly hashed, this password would collide with passwords given to the buggy algorithm. */
  predicate Collides(key: seq<byte>) {
    Agree(key, WORDS) && Signed(key, WORDS)
  }

  function Initial(key: seq<byte>, flags: byte, p: seq<word>, i: nat): word
    requires |p| == WORDS && i < WORDS
  {
    Xor(Xor(p[i], Expanded(key, Bug(flags), i)), if i == 0 && Safe(flags) && Collides(key) then 0x10000 else 0)
  }

  /** One round of the inner loop. */
  lemma NextByte(key: seq<byte>, n: nat, p: nat)
    requires p == Place(key, n)
    ensures Place(key, n + 1) == if p == |key| then 0 else p + 1
  {
    var m := |key| + 1;
    if p == |key| {
      assert n + 1 == m * (n / m) + m;
      assert n + 1 == m * (n / m + 1);
      ModOf(m, n / m + 1, 0);
    } else {
      assert n + 1 == m * (n / m) + (p + 1);
      ModOf(m, n / m, p + 1);
    }
  }

  lemma ModOf(m: nat, q: nat, r: nat)
    requires r < m
    ensures (m * q + r) % m == r
  {
    var n := m * q + r;
    assert n == m * (n / m) + n % m;
    assert m * (q - n / m) == n % m - r;
    if q != n / m { Multiple(m, q - n / m); }
  }

  lemma Multiple(m: int, x: int)
    requires m > 0 && x != 0
    ensures m * x >= m || m * x <= -m
  {}

  /**
   `BF_set_key`.  The key is the content of a C string; the flags are 2 for $2a$, 4 for $2b$ and $2y$
   and 1 for $2x$.
   */
  method SetKey(key: seq<byte>, expanded: array<word>, initial: array<word>, flags: byte, p: seq<word>)
    requires |p| == WORDS && expanded.Length == WORDS && initial.Length == WORDS && expanded != initial
    requires 0 !in key
    modifies expanded, initial
    ensures forall i :: 0 <= i < WORDS ==> expanded[i] == Expanded(key, Bug(flags), i)
    ensures forall i :: 0 <= i < WORDS ==> initial[i] == Initial(key, flags, p, i)
  {
    hide Expanded, Collides, Deviation, Bug, Safe, Xor;
    var bug := Bug(flags);
    var safety := ((flags as word) & 2) << 15;
    var sign, diff := ExpandWords(key, expanded, initial, bug, p);
    SafetyIs(flags);
    DeviationIs(diff, sign, safety);
    CollidesIs(key);
    ghost var words := initial[..];
    initial[0] := Xor(initial[0], Deviation(diff, sign, safety));
    forall i | 0 <= i < WORDS ensures initial[i] == Initial(key, flags, p, i) {
      XorZero(words[i]);
    }
  }

  lemma XorZero(w: word)
    ensures Xor(w, 0) == w
  {}

  lemma CollidesIs(key: seq<byte>)
    ensures Collides(key) <==> Agree(key, WORDS) && Signed(key, WORDS)
  {}

  /** The loop over the words; the results say whether there was a harmful sign extension and whether it showed. */
  method ExpandWords(key: seq<byte>, expanded: array<word>, initial: array<word>, bug: bool, p: seq<word>)
    returns (sign: word, diff: word)
    requires |p| == WORDS && expanded.Length == WORDS && initial.Length == WORDS && expanded != initial
    requires 0 !in key
    modifies expanded, initial
    ensures forall i :: 0 <= i < WORDS ==> expanded[i] == Expanded(key, bug, i)
    ensures forall i :: 0 <= i < WORDS ==> initial[i] == Xor(p[i], Expanded(key, bug, i))
    ensures sign == (if Signed(key, WORDS) then 0x80 else 0) && (diff == 0 <==> Agree(key, WORDS))
  {
    hide Agree, Signed, Expanded, Place, Xor;
    StartPlace(key);
    NoWords(key);
    sign, diff := 0, 0;
    var at, i := 0, 0;
    while i < WORDS
      invariant 0 <= i <= WORDS && at == Place(key, 4 * i)
      invariant sign == if Signed(key, i) then 0x80 else 0
      invariant diff == 0 <==> Agree(key, i)
      invariant forall k :: 0 <= k < i ==> expanded[k] == Expanded(key, bug, k)
      invariant forall k :: 0 <= k < i ==> initial[k] == Xor(p[k], Expanded(key, bug, k))
    {
      var w;
      w, sign, diff, at := OneWord(key, bug, at, i, sign, diff);
      expanded[i] := w;
      initial[i] := Xor(p[i], w);
      i := i + 1;
    }
  }

  /** The body of that loop. */
  method OneWord(key: seq<byte>, bug: bool, from: nat, i: nat, sign: word, diff: word)
    returns (w: word, sign': word, diff': word, at: nat)
    requires 0 !in key && from == Place(key, 4 * i)
    requires sign == (if Signed(key, i) then 0x80 else 0) && (diff == 0 <==> Agree(key, i))
    ensures w == Expanded(key, bug, i) && at == Place(key, 4 * (i + 1))
    ensures sign' == (if Signed(key, i + 1) then 0x80 else 0) && (diff' == 0 <==> Agree(key, i + 1))
  {
    hide Buggy, Correct, SignAt, Agree, Signed, Place, Or, Xor;
    var good, bad, extended;
    good, bad, extended, at := NextWord(key, from, i);
    OneMoreWord(key, i, sign, diff, extended, good, bad);
    sign' := Or(sign, extended);
    diff' := Or(diff, Xor(good, bad));
    w := if bug then bad else good;
  }

  function Xor(a: word, b: word): word { a ^ b }

  lemma StartPlace(key: seq<byte>)
    ensures Place(key, 4 * 0) == 0
  {}

  lemma NoWords(key: seq<byte>)
    ensures !Signed(key, 0) && Agree(key, 0)
  {}

  /** One more word of the outer loop. */
  lemma OneMoreWord(key: seq<byte>, n: nat, sign: word, diff: word, extended: word, good: word, bad: word)
    requires sign == (if Signed(key, n) then 0x80 else 0) && (diff == 0 <==> Agree(key, n))
    requires extended == if SignAt(key, n) then 0x80 else 0
    requires good == Correct(key, n) && bad == Buggy(key, n)
    ensures Or(sign, extended) == if Signed(key, n + 1) then 0x80 else 0
    ensures Or(diff, Xor(good, bad)) == 0 <==> Agree(key, n + 1)
  {
    hide SignAt, Correct, Buggy;
    DiffStep(diff, good, bad);
    if SignAt(key, n) { assert Signed(key, n + 1); }
    if Signed(key, n) { assert Signed(key, n + 1); }
  }

  function Or(a: word, b: word): word { a | b }

  lemma DiffStep(diff: word, a: word, b: word)
    ensures Or(diff, Xor(a, b)) == 0 <==> diff == 0 && a == b
  {
    hide Or, Xor;
    OrZero(diff, Xor(a, b));
    XorBack(a, b);
    XorSelf(b);
  }

  lemma OrZero(x: word, y: word)
    ensures Or(x, y) == 0 <==> x == 0 && y == 0
  {}

  lemma XorBack(a: word, b: word)
    ensures Xor(Xor(a, b), b) == a
  {}

  lemma XorSelf(b: word)
    ensures Xor(b, b) == 0 && Xor(0, b) == b
  {}

  lemma SafetyIs(flags: byte)
    ensures ((flags as word) & 2) << 15 == if Safe(flags) then 0x10000 else 0
  {}

  /** The inner loop: four characters, the word they make both ways, and whether one had its high bit set. */
  method NextWord(key: seq<byte>, from: nat, i: nat) returns (good: word, bad: word, sign: word, at: nat)
    requires from == Place(key, 4 * i) && 0 !in key
    ensures good == Correct(key, i) && bad == Buggy(key, i) && at == Place(key, 4 * (i + 1))
    ensures sign == if SignAt(key, i) then 0x80 else 0
  {
    hide Push, PushSigned, BigEndian, High, Place;
    good, bad, sign, at := 0, 0, 0, from;
    var a, b, c, d := KeyByte(key, 4 * i), KeyByte(key, 4 * i + 1), KeyByte(key, 4 * i + 2), KeyByte(key, 4 * i + 3);
    var j := 0;
    while j < 4
      invariant 0 <= j <= 4 && at == Place(key, 4 * i + j)
      invariant good == (if j == 0 then 0 else if j == 1 then Push(0, a) else if j == 2 then Push(Push(0, a), b)
                         else if j == 3 then Push(Push(Push(0, a), b), c) else Pushed(a, b, c, d))
      invariant bad == (if j == 0 then 0 else if j == 1 then PushSigned(0, a) else if j == 2 then PushSigned(PushSigned(0, a), b)
                        else if j == 3 then PushSigned(PushSigned(PushSigned(0, a), b), c) else PushedSigned(a, b, c, d))
      invariant sign == if (j >= 2 && High(b)) || (j >= 3 && High(c)) || (j >= 4 && High(d)) then 0x80 else 0
    {
      var ch := if at < |key| then key[at] else 0;
      NextByte(key, 4 * i + j, at);
      SignBit(bad, ch, sign);
      good, bad := Push(good, ch), PushSigned(bad, ch);
      if j > 0 {
        sign := sign | (bad & 0x80);
      }
      at := if at == |key| then 0 else at + 1;
      j := j + 1;
    }
    PushedIsBigEndian(a, b, c, d);
  }

  lemma SignBit(w: word, c: byte, sign: word)
    requires sign == 0 || sign == 0x80
    ensures sign | (PushSigned(w, c) & 0x80) == if sign != 0 || High(c) then 0x80 else 0
  {}

  // ----- what it amounts to

  predicate Ascii(key: seq<byte>) {
    forall i :: 0 <= i < |key| ==> !High(key[i])
  }

  lemma AsciiBytes(key: seq<byte>, n: nat)
    requires Ascii(key)
    ensures !High(KeyByte(key, n))
  {}

  /** For an ASCII password all variants give the same keys. */
  lemma AsciiVariantsCoincide(key: seq<byte>, flags: byte, flags': byte, p: seq<word>, i: nat)
    requires Ascii(key) && |p| == WORDS && i < WORDS
    ensures Expanded(key, Bug(flags), i) == Expanded(key, Bug(flags'), i)
    ensures Initial(key, flags, p, i) == Initial(key, flags', p, i)
  {
    hide BigEndian, PushedSigned;
    forall k: nat | k < WORDS ensures !SignAt(key, k) && Buggy(key, k) == Correct(key, k) {
      AsciiBytes(key, 4 * k + 1);
      AsciiBytes(key, 4 * k + 2);
      AsciiBytes(key, 4 * k + 3);
      SameIffBenign(KeyByte(key, 4 * k), KeyByte(key, 4 * k + 1), KeyByte(key, 4 * k + 2), KeyByte(key, 4 * k + 3));
    }
  }

  /** The safety measure strikes exactly when every sign extension is hidden behind 0xff bytes, and there is one. */
  lemma CollidesIff(key: seq<byte>)
    ensures Collides(key) <==>
      && (exists i :: 0 <= i < WORDS && SignAt(key, i))
      && forall i: nat :: i < WORDS ==>
           Benign(KeyByte(key, 4 * i), KeyByte(key, 4 * i + 1), KeyByte(key, 4 * i + 2), KeyByte(key, 4 * i + 3))
  {
    hide BigEndian, PushedSigned, Benign, SignAt;
    forall i: nat
      ensures Buggy(key, i) == Correct(key, i) <==>
        Benign(KeyByte(key, 4 * i), KeyByte(key, 4 * i + 1), KeyByte(key, 4 * i + 2), KeyByte(key, 4 * i + 3))
    {
      SameIffBenign(KeyByte(key, 4 * i), KeyByte(key, 4 * i + 1), KeyByte(key, 4 * i + 2), KeyByte(key, 4 * i + 3));
    }
  }

  /** $2a$ differs from $2b$ and $2y$ only in the first initial word, and only for colliding passwords. */
  lemma SafetyChanges(key: seq<byte>, p: seq<word>, i: nat)
    requires |p| == WORDS && i < WORDS
    ensures Initial(key, FLAGS_A, p, i) == Initial(key, FLAGS_B, p, i) <==> !(i == 0 && Collides(key))
    ensures Expanded(key, Bug(FLAGS_A), i) == Expanded(key, Bug(FLAGS_B), i)
  {
    hide Expanded, Collides;
    FlipChanges(p[i] ^ Expanded(key, false, i));
  }

  /** What the safety measure is for: no password gives the buggy algorithm the keys of a colliding $2a$ password. */
  lemma NoBuggyTwin(key: seq<byte>, twin: seq<byte>, p: seq<word>)
    requires |p| == WORDS && Collides(key)
    ensures !(Expanded(key, Bug(FLAGS_A), 0) == Expanded(twin, Bug(FLAGS_X), 0)
              && Initial(key, FLAGS_A, p, 0) == Initial(twin, FLAGS_X, p, 0))
  {
    hide Expanded, Collides;
    FlipChanges(p[0] ^ Expanded(key, false, 0));
  }

  /** Without it, the password itself is such a twin. */
  lemma CollidingIsItsOwnTwin(key: seq<byte>, p: seq<word>, i: nat)
    requires |p| == WORDS && Collides(key) && i < WORDS
    ensures Expanded(key, Bug(FLAGS_B), i) == Expanded(key, Bug(FLAGS_X), i)
    ensures Initial(key, FLAGS_B, p, i) == Initial(key, FLAGS_X, p, i)
  {
    hide Buggy, Correct;
    assert Agree(key, WORDS);
  }

  lemma FlipChanges(w: word)
    ensures w ^ 0x10000 != w && w ^ 0 == w
  {}
}
