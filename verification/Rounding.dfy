/**
 The round-up to a power of two in sx/websocket.c, line by line on natural numbers; a
 right shift of a non-negative int is a division.
 */
module Rounding {
  import opened Wrappers

  function Pow2(k: nat): (p: nat)
    ensures p >= 1
  {
    if k == 0 then 1 else 2 * Pow2(k - 1)
  }

  /** Bitwise or. */
  function Or(a: nat, b: nat): (r: nat)
    decreases a + b
  {
    if a == 0 && b == 0 then 0
    else 2 * Or(a / 2, b / 2) + if a % 2 == 1 || b % 2 == 1 then 1 else 0
  }

  /** The number of bits. */
  function Bits(n: nat): nat {
    if n == 0 then 0 else 1 + Bits(n / 2)
  }

  /** The first j lines of the form x |= x >> 2^i. */
  function Smear(n: nat, j: nat): nat
    decreases j
  {
    if j == 0 then n
    else
      var m := Smear(n, j - 1);
      Or(m, m / Pow2(Pow2(j - 1)))
  }

  /** The new capacity for a frame of this size. */
  function RoundUp(size: nat): nat
    requires size >= 1
  {
    Smear(size - 1, 5) + 1
  }

  lemma OrHalves(a: nat, b: nat)
    ensures Or(a, b) / 2 == Or(a / 2, b / 2)
    ensures Or(a, b) % 2 == 1 <==> a % 2 == 1 || b % 2 == 1
  {
    if a == 0 && b == 0 { assert Or(0, 0) == 0; }
  }

  lemma DivMod(n: nat, d: nat, q: nat, r: nat)
    requires d >= 1 && r < d && n == d * q + r
    ensures n / d == q && n % d == r
  {
    var q', r' := n / d, n % d;
    assert n == d * q' + r';
    assert d * (q - q') == r' - r;
    if q != q' { Multiple(d, q - q'); }
  }

  lemma Multiple(m: int, x: int)
    requires m > 0 && x != 0
    ensures m * x >= m || m * x <= -m
  {}

  lemma MulAssoc(a: nat, b: nat, c: nat)
    ensures a * (b * c) == (a * b) * c
  {}

  lemma MulDist(a: nat, b: int, c: int)
    ensures a * (b + c) == a * b + a * c
  {}

  lemma MulMono(a: nat, b: nat, c: nat)
    requires b <= c
    ensures a * b <= a * c
  {}

  lemma MulPos(a: nat, b: nat)
    requires a >= 1 && b >= 1
    ensures a * b >= 1
  {}

  lemma Compose(n: nat, a: nat, b: nat, q: nat, r: nat, q': nat, r': nat)
    requires n == a * q + r && q == b * q' + r'
    ensures n == (a * b) * q' + (a * r' + r)
  {
    MulDist(a, b * q', r');
    MulAssoc(a, b, q');
  }

  lemma Small(a: nat, b: nat, r: nat, r': nat)
    requires r < a && r' < b
    ensures a * r' + r < a * b
  {
    MulDist(a, r', 1);
    MulMono(a, r' + 1, b);
  }

  lemma DivTwice(n: nat, a: nat, b: nat)
    requires a >= 1 && b >= 1
    ensures a * b >= 1 && (n / a) / b == n / (a * b) && n % (a * b) == a * ((n / a) % b) + n % a
  {
    var q, r := n / a, n % a;
    var q', r' := q / b, q % b;
    Compose(n, a, b, q, r, q', r');
    Small(a, b, r, r');
    MulPos(a, b);
    DivMod(n, a * b, q', a * r' + r);
  }

  lemma HalfOf(n: nat, p: nat)
    requires p >= 1
    ensures (n / p) / 2 == n / (2 * p) && (n / 2) / p == n / (2 * p)
  {
    DivTwice(n, p, 2);
    DivTwice(n, 2, p);
  }

  function Div(n: nat, d: nat): nat
    requires d >= 1
  {
    n / d
  }

  lemma SmearIs(n: nat, j: nat)
    requires j > 0
    ensures Smear(n, j) == Or(Smear(n, j - 1), Div(Smear(n, j - 1), Pow2(Pow2(j - 1))))
  {
    hide Or, Pow2;
  }

  lemma DivSwap(n: nat, p: nat)
    requires p >= 1
    ensures Div(n, p) / 2 == Div(n / 2, p)
  {
    HalfOf(n, p);
  }

  lemma {:induction false} SmearHalves(n: nat, j: nat)
    ensures Smear(n, j) / 2 == Smear(n / 2, j)
    decreases j
  {
    if j > 0 {
      hide Smear, Or, Div, Pow2;
      var m, p := Smear(n, j - 1), Pow2(Pow2(j - 1));
      SmearIs(n, j);
      SmearIs(n / 2, j);
      SmearHalves(n, j - 1);
      OrHalves(m, Div(m, p));
      DivSwap(m, p);
    }
  }

  lemma DivHalf(n: nat, p: nat)
    requires p >= 1
    ensures Div(n, p) / 2 == Div(n, 2 * p)
  {
    HalfOf(n, p);
  }

  lemma DivOne(n: nat)
    ensures Div(n, 1) == n
  {}

  lemma {:induction false} SmearShifts(n: nat, j: nat, k: nat)
    ensures Div(Smear(n, j), Pow2(k)) == Smear(Div(n, Pow2(k)), j)
    decreases k
  {
    hide Smear, Div;
    if k == 0 {
      DivOne(n);
      DivOne(Smear(n, j));
    } else {
      var p := Pow2(k - 1);
      SmearShifts(n, j, k - 1);
      SmearHalves(Div(n, p), j);
      DivHalf(n, p);
      DivHalf(Smear(n, j), p);
    }
  }

  lemma {:induction false} Pow2Square(k: nat)
    ensures Pow2(2 * k) == Pow2(k) * Pow2(k)
  {
    if k > 0 {
      Pow2Square(k - 1);
      var p := Pow2(k - 1);
      assert Pow2(2 * k) == 2 * Pow2(2 * k - 1) == 4 * Pow2(2 * (k - 1));
      assert (2 * p) * (2 * p) == 4 * (p * p);
    }
  }

  /** After j lines the lowest bit says whether any of the lowest 2^j bits was set. */
  lemma {:induction false} SmearOdd(n: nat, j: nat)
    ensures Smear(n, j) % 2 == 1 <==> n % Pow2(Pow2(j)) != 0
    decreases j
  {
    if j == 0 {
      assert Pow2(Pow2(0)) == 2;
    } else {
      var k := Pow2(j - 1);
      var m, p := Smear(n, j - 1), Pow2(k);
      SmearOdd(n, j - 1);
      SmearShifts(n, j - 1, k);
      SmearOdd(n / p, j - 1);
      OrHalves(m, m / p);
      Pow2Square(k);
      LowBits(n, p);
      assert Pow2(j) == 2 * k && Pow2(Pow2(j)) == p * p;
    }
  }

  lemma LowBits(n: nat, p: nat)
    requires p >= 1
    ensures p * p >= 1 && (n % (p * p) != 0 <==> n % p != 0 || (n / p) % p != 0)
  {
    DivTwice(n, p, p);
    Positive(p, (n / p) % p, n % p);
  }

  lemma Positive(p: nat, a: nat, b: nat)
    requires p >= 1
    ensures p * a + b != 0 <==> a != 0 || b != 0
  {
    if a != 0 { assert p * a >= p; }
  }

  /** Enough lines set every bit below the highest. */
  lemma {:induction false} SmearFills(n: nat, j: nat)
    requires n < Pow2(Pow2(j))
    ensures Smear(n, j) == Pow2(Bits(n)) - 1
    decreases n
  {
    hide Smear, Or;
    SmearHalves(n, j);
    SmearOdd(n, j);
    DivMod(n, Pow2(Pow2(j)), 0, n);
    if n > 0 { SmearFills(n / 2, j); }
  }

  lemma {:induction false} BitsBound(n: nat)
    ensures n < Pow2(Bits(n)) && (n > 0 ==> Pow2(Bits(n)) <= 2 * n)
  {
    if n > 0 { BitsBound(n / 2); }
  }

  lemma Powers()
    ensures Pow2(1) == 2 && Pow2(2) == 4 && Pow2(4) == 16 && Pow2(8) == 0x100 && Pow2(16) == 0x1_0000
    ensures Pow2(30) == 0x4000_0000 && Pow2(31) == 0x8000_0000 && Pow2(32) == 0x1_0000_0000
    ensures Pow2(Pow2(5)) == 0x1_0000_0000
  {
    assert Pow2(4) == 16 && Pow2(3) == 8;
    assert Pow2(8) == 2 * Pow2(7) == 4 * Pow2(6) == 8 * Pow2(5) == 16 * Pow2(4);
    Pow2Square(8);
    Pow2Square(15);
    Pow2Square(16);
    assert Pow2(16) == 2 * Pow2(15);
    assert Pow2(30) == 0x8000 * 0x8000;
    assert Pow2(5) == 32;
  }

  lemma {:induction false} Pow2Grows(a: nat, b: nat)
    requires a <= b
    ensures Pow2(a) <= Pow2(b)
    decreases b - a
  {
    if a < b { Pow2Grows(a, b - 1); }
  }

  /** The capacity is the least power of two that holds the frame. */
  lemma RoundUpIsLeast(size: nat)
    requires 1 <= size <= 0x8000_0000
    ensures RoundUp(size) == Pow2(Bits(size - 1)) && size <= RoundUp(size)
    ensures size >= 2 ==> RoundUp(size) < 2 * size
  {
    Powers();
    SmearFills(size - 1, 5);
    BitsBound(size - 1);
  }

  /** It fits an int exactly for frames of at most 2^30 bytes. */
  lemma FitsIntIff(size: nat)
    requires 1 <= size <= 0x8000_0000
    ensures RoundUp(size) <= 0x7fff_ffff <==> size <= 0x4000_0000
  {
    hide Smear;
    RoundUpIsLeast(size);
    Powers();
    var k := Bits(size - 1);
    if k >= 31 {
      Pow2Grows(31, k);
    } else {
      Pow2Grows(k, 30);
    }
  }

  const INT_MAX := 0x7fff_ffff

  /** The lines of the source, on an int; None where one of them leaves its range. */
  method NewSize(size: nat) returns (newSize: Option<nat>)
    requires size >= 1
    ensures newSize == if size <= 0x4000_0000 then Some(RoundUp(size)) else None
  {
    if size > INT_MAX { return None; }
    Powers();
    var n := size;
    n := n - 1;
    n := Or(n, n / 2);
    assert n == Smear(size - 1, 1);
    n := Or(n, n / 4);
    assert n == Smear(size - 1, 2);
    n := Or(n, n / 16);
    assert n == Smear(size - 1, 3);
    n := Or(n, n / 0x100);
    assert n == Smear(size - 1, 4);
    n := Or(n, n / 0x1_0000);
    assert n == Smear(size - 1, 5);
    FitsIntIff(size);
    if n >= INT_MAX { return None; }
    n := n + 1;
    newSize := Some(n);
  }
}
