/**
 util/access.c: address rules, their dotted masks and prefix lengths, and the order in
 which allow and deny rules decide.
 */
module Access {
  import opened Wrappers

  type byte = bv8
  type word = bv32

  /** An IPv4 address as its 32 bits, an IPv6 address as its 16 bytes. */
  datatype Addr = V4(a: word) | V6(b: seq<byte>)

  predicate AddrOk(x: Addr) {
    x.V6? ==> |x.b| == 16
  }

  // ----- masks

  /** 0xff << (8 - r) in a byte */
  function ByteMask(r: nat): byte
    requires r <= 8
  {
    if r == 0 then 0x00 else if r == 1 then 0x80 else if r == 2 then 0xc0 else if r == 3 then 0xe0
    else if r == 4 then 0xf0 else if r == 5 then 0xf8 else if r == 6 then 0xfc else if r == 7 then 0xfe else 0xff
  }

  /** (uint32_t) -1 << (32 - n) */
  function Netmask(n: nat): word
    requires n <= 32
  {
    if n <= 8 then (ByteMask(n) as word) << 24
    else if n <= 16 then 0xff00_0000 | ((ByteMask(n - 8) as word) << 16)
    else if n <= 24 then 0xffff_0000 | ((ByteMask(n - 16) as word) << 8)
    else 0xffff_ff00 | (ByteMask(n - 24) as word)
  }

  /** That is what the shift gives: all ones, and one more zero with every place. */
  lemma NetmaskShifts(n: nat)
    requires 1 <= n <= 32
    ensures Netmask(n) << 1 == Netmask(n - 1) && Netmask(32) == 0xffff_ffff
  {}

  // ----- _access_calc_netsize

  /** Halving an even int, whose sign stays. */
  function Half(m: word): word {
    (m >> 1) | (m & 0x8000_0000)
  }

  predicate Even(m: word) {
    m & 1 == 0
  }

  function NetFrom(m: word, n: nat): (r: nat)
    ensures r <= n
    decreases n
  {
    if n > 0 && Even(m) then NetFrom(Half(m), n - 1) else n
  }

  /** All bits from the lowest set bit of the mask upwards. */
  function Filled(m: word): word {
    m | (0 - m)
  }

  function Low(n: nat): word {
    if n == 0 then 0 else (Low(n - 1) << 1) | 1
  }

  lemma HalfFills(m: word, low: word)
    requires Even(m)
    ensures Filled(m) == Filled(Half(m)) << 1
    ensures m & ((low << 1) | 1) != 0 ==> Half(m) & low != 0
  {}

  lemma OddFills(m: word)
    requires !Even(m)
    ensures Filled(m) == 0xffff_ffff
  {}

  lemma {:induction false} NetFromFills(m: word, n: nat)
    requires n <= 32 && m & Low(n) != 0
    ensures Netmask(32 - (n - NetFrom(m, n))) == Filled(m) && NetFrom(m, n) >= 1
    decreases n
  {
    hide Netmask, Filled, Half, Even;
    NetmaskShifts(32);
    if n > 0 && Even(m) {
      HalfFills(m, Low(n - 1));
      NetFromFills(Half(m), n - 1);
      NetmaskShifts(32 - (n - 1 - NetFrom(Half(m), n - 1)));
    } else if n > 0 {
      OddFills(m);
    } else {
      NoBits(m);
    }
  }

  lemma NoBits(m: word)
    ensures m & Low(0) == 0
  {}

  lemma LowAll()
    ensures Low(32) == 0xffff_ffff
  {
    assert Low(8) == 0xff;
    assert Low(16) == 0xffff;
    assert Low(24) == 0xff_ffff;
  }

  /** The loop on a dotted mask. */
  method CalcNetsize(mask: word) returns (netsize: nat)
    ensures netsize == NetFrom(mask, 32)
    ensures mask != 0 ==> netsize >= 1 && Netmask(netsize) == Filled(mask)
  {
    hide Netmask, Filled, Half, Even;
    var temp := mask;
    netsize := 32;
    while netsize > 0 && Even(temp)
      invariant netsize <= 32 && NetFrom(temp, netsize) == NetFrom(mask, 32)
    {
      netsize := netsize - 1;
      temp := Half(temp);
    }
    if mask != 0 {
      LowAll();
      AllBits(mask);
      NetFromFills(mask, 32);
    }
  }

  lemma AllBits(m: word)
    ensures m & 0xffff_ffff == m
  {}

  // ----- _access_check_match

  function And(x: word, m: word): word { x & m }
  function ByteAnd(x: byte, m: byte): byte { x & m }

  predicate Under(x: word, y: word, m: word) {
    And(x, m) == And(y, m)
  }

  predicate Match4(x: word, y: word, n: nat)
    requires n >= 1
  {
    Under(x, y, Netmask(if n > 32 then 32 else n))
  }

  predicate Contiguous(m: word) {
    m == Filled(m)
  }

  lemma NetsizeFills(m: word)
    requires m != 0
    ensures NetFrom(m, 32) >= 1 && Netmask(NetFrom(m, 32)) == Filled(m)
  {
    hide Netmask, NetFrom, Filled;
    LowAll();
    AllBits(m);
    NetFromFills(m, 32);
  }

  /** Whether a dotted mask means the comparison under it. */
  ghost predicate MeansAnd(m: word)
    requires m != 0
  {
    NetsizeFills(m);
    forall x, y :: Match4(x, y, NetFrom(m, 32)) <==> Under(x, y, m)
  }

  /** It does exactly when it is ones followed by zeros. */
  lemma MaskMeansAndIff(m: word)
    requires m != 0
    ensures MeansAnd(m) <==> Contiguous(m)
  {
    hide Netmask, NetFrom, Filled, Under;
    NetsizeFills(m);
    if !Contiguous(m) {
      Differs(m);
      var x := Filled(m) & !m;
      assert !(Match4(x, 0, NetFrom(m, 32)) <==> Under(x, 0, m));
    }
  }

  lemma Differs(m: word)
    requires m != Filled(m)
    ensures var x := Filled(m) & !m; Under(x, 0, m) && !Under(x, 0, Filled(m))
  {}

  /** A negative prefix compares no byte and shifts the last mask out of its byte, which leaves nothing to compare. */
  function Bits6(netsize: int): (n: nat)
    ensures n <= 128
  {
    if netsize > 128 then 128 else if netsize < 0 then 0 else netsize
  }

  predicate Match6(x: seq<byte>, y: seq<byte>, netsize: int)
    requires |x| == 16 && |y| == 16
  {
    var n := Bits6(netsize);
    && x[..n / 8] == y[..n / 8]
    && (n % 8 != 0 ==> ByteAnd(x[n / 8], ByteMask(n % 8)) == ByteAnd(y[n / 8], ByteMask(n % 8)))
  }

  predicate Mapped(b: seq<byte>)
    requires |b| == 16
  {
    && (forall i :: 0 <= i < 10 ==> b[i] == 0)
    && b[10] == 0xff && b[11] == 0xff
  }

  /** The word of four bytes, the highest first. */
  function Join(p: byte, q: byte, r: byte, s: byte): word {
    ((p as word) << 24) | ((q as word) << 16) | ((r as word) << 8) | (s as word)
  }

  /** `_access_unmap_v4` */
  function Unmap(b: seq<byte>): word
    requires |b| == 16
  {
    Join(b[12], b[13], b[14], b[15])
  }

  function Byte(x: word, i: nat): byte
    requires i < 4
  {
    if i == 0 then (x >> 24) as byte
    else if i == 1 then ((x >> 16) & 0xff) as byte
    else if i == 2 then ((x >> 8) & 0xff) as byte
    else (x & 0xff) as byte
  }

  /** The IPv4-mapped form of an address. */
  function MapV4(x: word): (b: seq<byte>)
    ensures |b| == 16
  {
    [0, 0, 0, 0, 0, 0, 0, 0, 0, 0, 0xff, 0xff, Byte(x, 0), Byte(x, 1), Byte(x, 2), Byte(x, 3)]
  }

  /**
   Whether C gives the comparison a meaning: IPv4 parts are compared under a word shifted by 32 minus the
   prefix, and a shift by the whole width or more has none.
   */
  predicate Defined(x: Addr, y: Addr, netsize: int)
    requires AddrOk(x) && AddrOk(y)
  {
    netsize <= 0 ==>
      match (x, y)
      case (V4(_), V4(_)) => false
      case (V6(_), V6(_)) => true
      case (V4(_), V6(b)) => !Mapped(b)
      case (V6(a), V4(_)) => !Mapped(a)
  }

  /** `_access_check_match` */
  predicate Match(x: Addr, y: Addr, netsize: int)
    requires AddrOk(x) && AddrOk(y) && Defined(x, y, netsize)
  {
    match (x, y)
    case (V4(a), V4(b)) => Match4(a, b, netsize)
    case (V6(a), V6(b)) => Match6(a, b, netsize)
    case (V4(a), V6(b)) => Mapped(b) && Match4(a, Unmap(b), if netsize > 96 then netsize - 96 else netsize)
    case (V6(a), V4(b)) => Mapped(a) && Match4(Unmap(a), b, if netsize > 96 then netsize - 96 else netsize)
  }

  // ----- prefixes

  /** The k-th bit of a byte, from the left. */
  predicate BitAt(x: byte, k: nat)
    requires k < 8
  {
    ByteAnd(x, ByteMask(k + 1) - ByteMask(k)) != 0
  }

  predicate SameUnder(x: byte, y: byte, r: nat)
    requires r <= 8
  {
    ByteAnd(x, ByteMask(r)) == ByteAnd(y, ByteMask(r))
  }

  lemma OneMoreBit(x: byte, y: byte, r: nat)
    requires 1 <= r <= 8
    ensures SameUnder(x, y, r) <==> SameUnder(x, y, r - 1) && (BitAt(x, r - 1) <==> BitAt(y, r - 1))
  {
    hide ByteMask, ByteAnd;
    MaskGrows(r);
    SplitMask(x, y, ByteMask(r - 1), ByteMask(r) - ByteMask(r - 1));
  }

  lemma MaskGrows(r: nat)
    requires 1 <= r <= 8
    ensures var bit := ByteMask(r) - ByteMask(r - 1);
      bit & (bit - 1) == 0 && ByteMask(r) == ByteMask(r - 1) | bit
  {}

  lemma SplitMask(x: byte, y: byte, m: byte, bit: byte)
    requires bit & (bit - 1) == 0
    ensures ByteAnd(x, m | bit) == ByteAnd(y, m | bit) <==>
      ByteAnd(x, m) == ByteAnd(y, m) && (ByteAnd(x, bit) != 0 <==> ByteAnd(y, bit) != 0)
  {
    hide ByteAnd;
    OneBit(x, bit);
    OneBit(y, bit);
    Distributes(x, y, m, bit);
  }

  lemma OneBit(x: byte, bit: byte)
    requires bit & (bit - 1) == 0
    ensures ByteAnd(x, bit) == 0 || ByteAnd(x, bit) == bit
  {}

  lemma MaskDown(x: byte, y: byte, m: byte, n: byte)
    requires x & (m | n) == y & (m | n)
    ensures x & m == y & m && x & n == y & n
  {}

  lemma MaskUp(x: byte, y: byte, m: byte, n: byte)
    requires x & m == y & m && x & n == y & n
    ensures x & (m | n) == y & (m | n)
  {}

  lemma Distributes(x: byte, y: byte, m: byte, n: byte)
    ensures ByteAnd(x, m | n) == ByteAnd(y, m | n) <==> ByteAnd(x, m) == ByteAnd(y, m) && ByteAnd(x, n) == ByteAnd(y, n)
  {
    if x & (m | n) == y & (m | n) {
      MaskDown(x, y, m, n);
    } else if x & m == y & m && x & n == y & n {
      MaskUp(x, y, m, n);
    }
  }

  lemma NoBit(x: byte, y: byte)
    ensures SameUnder(x, y, 0) && (SameUnder(x, y, 8) <==> x == y)
  {}

  lemma {:induction false} SameUnderIff(x: byte, y: byte, r: nat)
    requires r <= 8
    ensures SameUnder(x, y, r) <==> forall k :: 0 <= k < r ==> (BitAt(x, k) <==> BitAt(y, k))
  {
    hide SameUnder, BitAt;
    if r == 0 {
      NoBit(x, y);
    } else {
      SameUnderIff(x, y, r - 1);
      OneMoreBit(x, y, r);
    }
  }

  /** The i-th bit of an address, from the left. */
  predicate Bit(b: seq<byte>, i: nat)
    requires |b| == 16 && i < 128
  {
    BitAt(b[i / 8], i % 8)
  }

  ghost predicate SameBits(x: seq<byte>, y: seq<byte>, n: nat)
    requires |x| == 16 && |y| == 16 && n <= 128
  {
    forall i :: 0 <= i < n ==> (Bit(x, i) <==> Bit(y, i))
  }

  /** IPv6 matching compares exactly the first n bits. */
  lemma Match6IsPrefix(x: seq<byte>, y: seq<byte>, netsize: int)
    requires |x| == 16 && |y| == 16
    ensures Match6(x, y, netsize) <==>
            SameBits(x, y, if netsize > 128 then 128 else if netsize < 0 then 0 else netsize)
  {
    hide BitAt, SameUnder;
    var n := Bits6(netsize);
    var q, r := n / 8, n % 8;
    forall k | 0 <= k < 16 ensures x[k] == y[k] <==> forall j :: 0 <= j < 8 ==> (BitAt(x[k], j) <==> BitAt(y[k], j)) {
      NoBit(x[k], y[k]);
      SameUnderIff(x[k], y[k], 8);
    }
    if r != 0 { SameUnderIff(x[q], y[q], r); }
    MatchParts(x, y, n);
    if SameBits(x, y, n) {
      forall k, j | 0 <= k < 16 && 0 <= j < 8 && 8 * k + j < n ensures BitAt(x[k], j) <==> BitAt(y[k], j) {
        assert (8 * k + j) / 8 == k && (8 * k + j) % 8 == j;
        assert Bit(x, 8 * k + j) <==> Bit(y, 8 * k + j);
      }
    }
    if Match6(x, y, netsize) {
      forall i | 0 <= i < n ensures Bit(x, i) <==> Bit(y, i) {
        if i / 8 < q { assert x[..q][i / 8] == y[..q][i / 8]; }
      }
    }
  }

  lemma MatchParts(x: seq<byte>, y: seq<byte>, n: nat)
    requires |x| == 16 && |y| == 16 && n <= 128
    ensures Match6(x, y, n) <==>
      (forall k :: 0 <= k < n / 8 ==> x[k] == y[k]) && (n % 8 != 0 ==> SameUnder(x[n / 8], y[n / 8], n % 8))
  {
    hide ByteMask, ByteAnd;
    var q := n / 8;
    if forall k :: 0 <= k < q ==> x[k] == y[k] {
      assert x[..q] == y[..q];
    }
    if x[..q] == y[..q] {
      forall k | 0 <= k < q ensures x[k] == y[k] {
        assert x[..q][k] == y[..q][k];
      }
    }
  }

  // ----- the two families

  lemma JoinInjective(p: byte, q: byte, r: byte, s: byte, p': byte, q': byte, r': byte, s': byte)
    ensures Join(p, q, r, s) == Join(p', q', r', s') <==> p == p' && q == q' && r == r' && s == s'
  {}

  lemma JoinAnd(p: byte, q: byte, r: byte, s: byte, p': byte, q': byte, r': byte, s': byte)
    ensures And(Join(p, q, r, s), Join(p', q', r', s'))
         == Join(ByteAnd(p, p'), ByteAnd(q, q'), ByteAnd(r, r'), ByteAnd(s, s'))
  {}

  lemma JoinBytes(x: word)
    ensures Join(Byte(x, 0), Byte(x, 1), Byte(x, 2), Byte(x, 3)) == x
  {}

  lemma BytesJoin(p: byte, q: byte, r: byte, s: byte)
    ensures var w := Join(p, q, r, s); Byte(w, 0) == p && Byte(w, 1) == q && Byte(w, 2) == r && Byte(w, 3) == s
  {}

  lemma UnderJoin(x: word, y: word, p: byte, q: byte, r: byte, s: byte)
    ensures Under(x, y, Join(p, q, r, s)) <==>
      && ByteAnd(Byte(x, 0), p) == ByteAnd(Byte(y, 0), p) && ByteAnd(Byte(x, 1), q) == ByteAnd(Byte(y, 1), q)
      && ByteAnd(Byte(x, 2), r) == ByteAnd(Byte(y, 2), r) && ByteAnd(Byte(x, 3), s) == ByteAnd(Byte(y, 3), s)
  {
    hide Join, Byte, And, ByteAnd;
    JoinBytes(x);
    JoinBytes(y);
    JoinAnd(Byte(x, 0), Byte(x, 1), Byte(x, 2), Byte(x, 3), p, q, r, s);
    JoinAnd(Byte(y, 0), Byte(y, 1), Byte(y, 2), Byte(y, 3), p, q, r, s);
    JoinInjective(ByteAnd(Byte(x, 0), p), ByteAnd(Byte(x, 1), q), ByteAnd(Byte(x, 2), r), ByteAnd(Byte(x, 3), s),
                  ByteAnd(Byte(y, 0), p), ByteAnd(Byte(y, 1), q), ByteAnd(Byte(y, 2), r), ByteAnd(Byte(y, 3), s));
  }

  lemma MaskEnds(x: byte)
    ensures ByteAnd(x, 0) == 0 && ByteAnd(x, 0xff) == x
  {}

  lemma NetmaskJoins(m: nat)
    requires 1 <= m <= 32
    ensures Netmask(m) ==
      if m <= 8 then Join(ByteMask(m), 0, 0, 0) else if m <= 16 then Join(0xff, ByteMask(m - 8), 0, 0)
      else if m <= 24 then Join(0xff, 0xff, ByteMask(m - 16), 0) else Join(0xff, 0xff, 0xff, ByteMask(m - 24))
  {
    hide ByteMask;
  }

  /** Comparing the first bytes of two words, the last of them under r bits. */
  predicate SameBytes(x: word, y: word, k: nat, r: nat)
    requires k < 4 && r <= 8
  {
    (forall i :: 0 <= i < k ==> Byte(x, i) == Byte(y, i)) && SameUnder(Byte(x, k), Byte(y, k), r)
  }

  lemma SameBytesIs(x: word, y: word, k: nat, r: nat)
    requires k < 4 && r <= 8
    ensures SameBytes(x, y, k, r) <==>
      && (k > 0 ==> Byte(x, 0) == Byte(y, 0)) && (k > 1 ==> Byte(x, 1) == Byte(y, 1)) && (k > 2 ==> Byte(x, 2) == Byte(y, 2))
      && ByteAnd(Byte(x, k), ByteMask(r)) == ByteAnd(Byte(y, k), ByteMask(r))
  {
    hide Byte, ByteMask, ByteAnd;
  }

  lemma UnderBytes(x: word, y: word, m: nat)
    requires 1 <= m <= 32
    ensures Under(x, y, Netmask(m)) <==> SameBytes(x, y, (m - 1) / 8, m - (m - 1) / 8 * 8)
  {
    hide Under, Byte, ByteMask, Netmask, Join, ByteAnd, SameBytes;
    NetmaskJoins(m);
    Ends(x, y, 0);
    Ends(x, y, 1);
    Ends(x, y, 2);
    Ends(x, y, 3);
    SameBytesIs(x, y, (m - 1) / 8, m - (m - 1) / 8 * 8);
    if m <= 8 {
      UnderJoin(x, y, ByteMask(m), 0, 0, 0);
    } else if m <= 16 {
      UnderJoin(x, y, 0xff, ByteMask(m - 8), 0, 0);
    } else if m <= 24 {
      UnderJoin(x, y, 0xff, 0xff, ByteMask(m - 16), 0);
    } else {
      UnderJoin(x, y, 0xff, 0xff, 0xff, ByteMask(m - 24));
    }
  }

  lemma Ends(x: word, y: word, i: nat)
    requires i < 4
    ensures ByteAnd(Byte(x, i), 0) == ByteAnd(Byte(y, i), 0)
    ensures ByteAnd(Byte(x, i), 0xff) == Byte(x, i) && ByteAnd(Byte(y, i), 0xff) == Byte(y, i)
  {
    hide Byte, ByteAnd;
    MaskEnds(Byte(x, i));
    MaskEnds(Byte(y, i));
  }

  lemma SameBytesWhole(x: word, y: word, m: nat)
    requires 1 <= m <= 32
    ensures SameBytes(x, y, (m - 1) / 8, m - (m - 1) / 8 * 8) <==>
      (forall i :: 0 <= i < m / 8 ==> Byte(x, i) == Byte(y, i)) && (m % 8 != 0 ==> SameUnder(Byte(x, m / 8), Byte(y, m / 8), m % 8))
  {
    hide Byte, SameUnder;
    var k := (m - 1) / 8;
    NoBit(Byte(x, k), Byte(y, k));
  }

  /** Matching an IPv4 address against a mapped rule, and the other way round, is matching the mapped forms. */
  lemma MappedMatch(a: word, c: word, netsize: nat)
    requires 96 < netsize <= 128
    ensures Match4(a, c, netsize - 96) <==> Match6(MapV4(a), MapV4(c), netsize)
  {
    hide Byte, SameUnder, Under, Netmask, SameBytes;
    var m, x, y := netsize - 96, MapV4(a), MapV4(c);
    UnderBytes(a, c, m);
    SameBytesWhole(a, c, m);
    MatchParts(x, y, netsize);
    assert netsize / 8 == 12 + m / 8 && netsize % 8 == m % 8;
    forall i | 0 <= i < 4 ensures x[12 + i] == Byte(a, i) && y[12 + i] == Byte(c, i) {}
    if forall i :: 0 <= i < m / 8 ==> Byte(a, i) == Byte(c, i) {
      forall k | 0 <= k < netsize / 8 ensures x[k] == y[k] {
        if k >= 12 { assert Byte(a, k - 12) == Byte(c, k - 12); }
      }
    }
    if forall k :: 0 <= k < netsize / 8 ==> x[k] == y[k] {
      forall i | 0 <= i < m / 8 ensures Byte(a, i) == Byte(c, i) {
        assert x[12 + i] == y[12 + i];
      }
    }
  }

  lemma UnmapMap(b: seq<byte>)
    requires |b| == 16 && Mapped(b)
    ensures MapV4(Unmap(b)) == b
  {
    hide Join, Byte;
    BytesJoin(b[12], b[13], b[14], b[15]);
    var m := MapV4(Unmap(b));
    forall i | 0 <= i < 16 ensures m[i] == b[i] {}
  }

  /** An address as IPv6 sees it. */
  function AsV6(x: Addr): (b: seq<byte>)
    requires AddrOk(x)
    ensures |b| == 16
  {
    match x
    case V4(a) => MapV4(a)
    case V6(b) => b
  }

  /**
   With a prefix longer than the mapping, addresses of different families match exactly when their IPv6
   forms agree on the prefix.
   */
  lemma CrossFamilyIsPrefix(x: Addr, y: Addr, netsize: nat)
    requires AddrOk(x) && AddrOk(y) && x.V4? != y.V4? && 96 < netsize <= 128
    ensures Match(x, y, netsize) <==> SameBits(AsV6(x), AsV6(y), netsize)
  {
    hide Match4, Match6, Unmap, MapV4, SameBits;
    Match6IsPrefix(AsV6(x), AsV6(y), netsize);
    var a, b := if x.V4? then x.a else y.a, if x.V4? then y.b else x.b;
    if Mapped(b) {
      UnmapMap(b);
      if x.V4? { MappedMatch(a, Unmap(b), netsize); } else { MappedMatch(Unmap(b), a, netsize); }
    } else {
      NotMapped(a, b, netsize);
    }
  }

  lemma NotMapped(a: word, b: seq<byte>, netsize: nat)
    requires |b| == 16 && !Mapped(b) && 96 < netsize <= 128
    ensures !Match6(MapV4(a), b, netsize) && !Match6(b, MapV4(a), netsize)
  {
    hide Byte, SameUnder;
    var x := MapV4(a);
    MatchParts(x, b, netsize);
    MatchParts(b, x, netsize);
    assert netsize / 8 >= 12;
    if i :| 0 <= i < 10 && b[i] != 0 {
      assert x[i] != b[i];
    } else {
      assert x[10] != b[10] || x[11] != b[11];
    }
  }

  /** Whether an IPv6 address begins like a mapped one: 80 zeros and then ones. */
  ghost predicate BeginsMapped(b: seq<byte>, n: nat)
    requires |b| == 16 && n <= 96
  {
    forall i :: 0 <= i < n ==> (Bit(b, i) <==> i >= 80)
  }

  lemma MappedBits(b: seq<byte>, i: nat)
    requires |b| == 16 && Mapped(b) && i < 96
    ensures Bit(b, i) <==> i >= 80
  {
    hide BitAt;
    PlainBits(i % 8);
  }

  lemma PlainBits(k: nat)
    requires k < 8
    ensures !BitAt(0, k) && BitAt(0xff, k)
  {}

  /**
   A prefix of at most 96 bits covers the mapping only, yet the code compares the IPv4 parts under it, and lets
   nothing match a rule that is not mapped.  It decides as the IPv6 forms do exactly when that makes no difference:
   the IPv4 parts agree on as many bits too, or an address that is not mapped differs within the prefix anyway.
   */
  lemma ShortPrefixIff(x: Addr, y: Addr, netsize: nat)
    requires AddrOk(x) && AddrOk(y) && x.V4? != y.V4? && 1 <= netsize <= 96
    ensures var b := if x.V4? then y.b else x.b;
      (Match(x, y, netsize) <==> SameBits(AsV6(x), AsV6(y), netsize)) <==>
      if Mapped(b) then SameBits(AsV6(x), AsV6(y), 96 + if netsize > 32 then 32 else netsize) else !BeginsMapped(b, netsize)
  {
    hide MapV4, Bit, Unmap, Match4;
    var a, b := if x.V4? then x.a else y.a, if x.V4? then y.b else x.b;
    MapIsMapped(a);
    forall i | 0 <= i < netsize ensures Bit(MapV4(a), i) <==> i >= 80 {
      MappedBits(MapV4(a), i);
    }
    if Mapped(b) {
      forall i | 0 <= i < netsize ensures Bit(b, i) <==> i >= 80 {
        MappedBits(b, i);
      }
      var n := if netsize > 32 then 32 else netsize;
      CrossFamilyIsPrefix(x, y, 96 + n);
      AtMostWord(if x.V4? then a else Unmap(b), if x.V4? then Unmap(b) else a, netsize);
    }
  }

  lemma AtMostWord(x: word, y: word, n: nat)
    requires n >= 1
    ensures Match4(x, y, n) <==> Match4(x, y, if n > 32 then 32 else n)
  {
    hide Netmask, Under;
  }

  lemma MapIsMapped(a: word)
    ensures Mapped(MapV4(a))
  {
    hide Byte;
  }

  // ----- bits and bytes, written out

  /** Half an even int, sign kept: doubling it gives the int back. */
  lemma HalfIs(m: word)
    requires m & 1 == 0
    ensures Half(m) << 1 == m && Half(m) & 0x8000_0000 == m & 0x8000_0000
  {}

  lemma BitIs(x: byte, k: nat)
    requires k < 8
    ensures BitAt(x, k) <==> x & [0x80, 0x40, 0x20, 0x10, 0x08, 0x04, 0x02, 0x01][k] != 0
  {}

  /** The mapped form of an IPv4 address: ten zeros, two 0xff, and its four bytes, the highest first. */
  lemma MapIs(x: word)
    ensures var b := MapV4(x);
      && (forall i :: 0 <= i < 10 ==> b[i] == 0) && b[10] == 0xff && b[11] == 0xff
      && ((b[12] as word) << 24) | ((b[13] as word) << 16) | ((b[14] as word) << 8) | (b[15] as word) == x
  {
    hide Byte;
    BytesAre(x);
  }

  lemma BytesAre(x: word)
    ensures ((Byte(x, 0) as word) << 24) | ((Byte(x, 1) as word) << 16) | ((Byte(x, 2) as word) << 8) | (Byte(x, 3) as word) == x
  {}

  /** Two IPv4 addresses match exactly when their first n bits agree, all 32 for a longer prefix. */
  lemma SameFamilyIsPrefix(a: word, c: word, n: nat)
    requires n >= 1
    ensures Match(V4(a), V4(c), n) <==> SameBits(MapV4(a), MapV4(c), 96 + if n > 32 then 32 else n)
  {
    hide Match4, Match6, MapV4, SameBits;
    var m := 96 + if n > 32 then 32 else n;
    AtMostWord(a, c, n);
    MappedMatch(a, c, m);
    Match6IsPrefix(MapV4(a), MapV4(c), m);
  }

  /** The dotted mask 0.0.0.0 is the prefix 0, which compares nothing. */
  lemma {:induction false} NoMaskIsEmpty(n: nat)
    ensures NetFrom(0, n) == 0
    decreases n
  {
    assert Even(0) && Half(0) == 0;
    if n > 0 { NoMaskIsEmpty(n - 1); }
  }

  // ----- the rules

  datatype Rule = Rule(ip: Addr, mask: int)

  predicate RulesOk(rules: seq<Rule>) {
    forall i :: 0 <= i < |rules| ==> AddrOk(rules[i].ip)
  }

  /** Whether comparing the address with each rule has a meaning. */
  predicate Decidable(rules: seq<Rule>, x: Addr)
    requires RulesOk(rules) && AddrOk(x)
  {
    forall i :: 0 <= i < |rules| ==> Defined(x, rules[i].ip, rules[i].mask)
  }

  /** A rule can be compared with every address if its prefix is not empty, or it has no IPv4 part at all. */
  lemma RuleDecidableIff(rule: Rule)
    requires AddrOk(rule.ip)
    ensures (forall x :: AddrOk(x) ==> Defined(x, rule.ip, rule.mask)) <==>
      rule.mask >= 1 || (rule.ip.V6? && !Mapped(rule.ip.b))
  {
    assert AddrOk(V4(0)) && Defined(V4(0), rule.ip, rule.mask) ==> rule.mask >= 1 || (rule.ip.V6? && !Mapped(rule.ip.b));
  }

  predicate Any(rules: seq<Rule>, x: Addr)
    requires RulesOk(rules) && AddrOk(x) && Decidable(rules, x)
  {
    exists i :: 0 <= i < |rules| && Match(x, rules[i].ip, rules[i].mask)
  }

  class Access {
    const order: int
    var allow: seq<Rule>
    var deny: seq<Rule>

    constructor (order: int)
      ensures this.order == order && allow == [] && deny == []
    {
      this.order, allow, deny := order, [], [];
    }

    /** `access_allow`; None is an address that cannot be parsed, and `dotted` a mask in dotted form. */
    method Allow(ip: Option<Addr>, dotted: Option<word>, size: int) returns (failed: bool)
      requires RulesOk(allow) && (ip.Some? ==> AddrOk(ip.value))
      modifies this`allow
      ensures RulesOk(allow) && failed == ip.None?
      ensures allow == old(allow) + if failed then [] else [Rule(ip.value, if dotted.Some? then NetFrom(dotted.value, 32) else size)]
    {
      if ip.None? { return true; }
      var netsize := size;
      if dotted.Some? {
        netsize := CalcNetsize(dotted.value);
      }
      allow := allow + [Rule(ip.value, netsize)];
      failed := false;
    }

    /** The search of one list, which stops at the first match. */
    method Search(rules: seq<Rule>, x: Addr) returns (found: bool)
      requires RulesOk(rules) && AddrOk(x) && Decidable(rules, x)
      ensures found <==> Any(rules, x)
    {
      hide Match, Defined;
      found := false;
      var i := 0;
      while !found && i < |rules|
        invariant i <= |rules| && (found ==> Any(rules, x))
        invariant !found ==> forall k :: 0 <= k < i ==> !Match(x, rules[k].ip, rules[k].mask)
      {
        if Match(x, rules[i].ip, rules[i].mask) {
          found := true;
        }
        i := i + 1;
      }
    }

    /** `access_check` */
    method Check(ip: Option<Addr>) returns (permitted: bool)
      requires RulesOk(allow) && RulesOk(deny) && (ip.Some? ==> AddrOk(ip.value))
      requires ip.Some? ==> Decidable(allow, ip.value) && Decidable(deny, ip.value)
      ensures ip.None? ==> !permitted
      ensures ip.Some? && order == 0 ==> (permitted <==> Any(allow, ip.value) || !Any(deny, ip.value))
      ensures ip.Some? && order != 0 ==> (permitted <==> Any(allow, ip.value) && !Any(deny, ip.value))
    {
      hide Any, Decidable;
      if ip.None? { return false; }
      var allowed := Search(allow, ip.value);
      var denied := Search(deny, ip.value);
      if order == 0 {
        if allowed { return true; }
        return !denied;
      }
      if denied { return false; }
      permitted := allowed;
    }
  }
}
