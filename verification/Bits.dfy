/** Power-of-two arithmetic shared by the ELF layout planner, the string-table
    lookup and the floating-point converters. */
module Bits {

  function Pow2(n: nat): (p: nat)
    ensures p >= 1
  {
    if n == 0 then 1 else 2 * Pow2(n - 1)
  }

  lemma {:induction false} Pow2Add(a: nat, b: nat)
    ensures Pow2(a + b) == Pow2(a) * Pow2(b)
  {
    if a == 0 {
    } else {
      Pow2Add(a - 1, b);
      assert a + b - 1 == a - 1 + b;
    }
  }

  lemma {:induction false} Pow2Increases(a: nat, b: nat)
    requires a < b
    ensures Pow2(a) < Pow2(b)
  {
    if a + 1 < b {
      Pow2Increases(a, b - 1);
    }
  }

  ghost predicate PowerOfTwo(x: nat) {
    exists k: nat :: x == Pow2(k)
  }

  /** Bitwise `&` on unsigned integers, one bit at a time. */
  function And(a: nat, b: nat): nat {
    if a == 0 || b == 0 then 0
    else a % 2 * (b % 2) + 2 * And(a / 2, b / 2)
  }

  /** Bitwise `|` on unsigned integers. */
  function Or(a: nat, b: nat): nat {
    if a == 0 then b
    else if b == 0 then a
    else (if a % 2 == 1 || b % 2 == 1 then 1 else 0) + 2 * Or(a / 2, b / 2)
  }

  /** Or-ing in bits above all bits so far is adding them. */
  lemma {:induction false} OrDisjoint(a: nat, b: nat, k: nat)
    requires a < Pow2(k)
    ensures Or(a, b * Pow2(k)) == a + b * Pow2(k)
  {
    if k > 0 && a > 0 && b > 0 {
      var c := b * Pow2(k - 1);
      assert b * Pow2(k) == 2 * c;
      OrDisjoint(a / 2, b, k - 1);
    }
  }

  lemma {:induction false} AndSelf(a: nat)
    ensures And(a, a) == a
  {
    if a == 0 {
    } else {
      AndSelf(a / 2);
    }
  }

  /** The test `d_align == 0 || (d_align & (d_align - 1))` rejects exactly the
      values that are not powers of two. */
  predicate PassesMaskTest(x: nat) {
    x != 0 && And(x, x - 1) == 0
  }

  lemma OddMaskTest(x: nat)
    requires x > 1 && x % 2 == 1
    ensures !PassesMaskTest(x) && !PowerOfTwo(x)
  {
    AndSelf(x / 2);
    assert (x - 1) / 2 == x / 2 && (x - 1) % 2 == 0;
    assert And(x, x - 1) == 2 * (x / 2);
    assert forall k: nat :: k > 0 ==> Pow2(k) % 2 == 0;
  }

  lemma EvenMaskTest(x: nat, y: nat)
    requires y > 0 && x == 2 * y
    ensures PassesMaskTest(x) <==> PassesMaskTest(y)
  {
    assert x / 2 == y && (x - 1) / 2 == y - 1 && x % 2 == 0;
    assert And(x, x - 1) == 2 * And(y, y - 1);
  }

  lemma EvenPowerOfTwo(x: nat, y: nat)
    requires y > 0 && x == 2 * y
    ensures PowerOfTwo(x) <==> PowerOfTwo(y)
  {
    if PowerOfTwo(y) {
      var k: nat :| y == Pow2(k);
      assert x == Pow2(k + 1);
    }
    if PowerOfTwo(x) {
      var k: nat :| x == Pow2(k);
      assert y == Pow2(k - 1);
    }
  }

  lemma {:induction false} MaskTestIsPowerOfTwo(x: nat)
    ensures PassesMaskTest(x) <==> PowerOfTwo(x)
  {
    if x == 0 {
      assert forall k: nat :: Pow2(k) >= 1;
    } else if x == 1 {
      assert Pow2(0) == 1;
    } else if x % 2 == 1 {
      OddMaskTest(x);
    } else {
      EvenMaskTest(x, x / 2);
      EvenPowerOfTwo(x, x / 2);
      MaskTestIsPowerOfTwo(x / 2);
    }
  }

  lemma MulMono(a: nat, b: nat, y: nat)
    requires a <= b
    ensures a * y <= b * y
  {
  }

  /** Quotient and remainder are unique. */
  lemma DivModUnique(x: nat, b: nat, q: nat, r: nat)
    requires r < b && x == q * b + r
    ensures x / b == q && x % b == r
  {
    var k := x / b;
    assert x == k * b + x % b;
    if k < q {
      MulMono(k + 1, q, b);
      assert false;
    } else if q < k {
      MulMono(q + 1, k, b);
      assert false;
    }
  }

  lemma ProductMod(a: nat, b: nat)
    requires b > 0
    ensures a * b % b == 0
    ensures a * b / b == a
  {
    DivModUnique(a * b, b, a, 0);
  }

  /** Divisibility with an explicit quotient, so that proofs stay linear. */
  lemma MultipleOfMultiple(a: nat, b: nat, x: nat)
    requires a > 0 && b > 0 && b % a == 0 && x % b == 0
    ensures x % a == 0
  {
    var p, q := b / a, x / b;
    assert b == p * a && x == q * b;
    assert x == q * p * a;
    ProductMod(q * p, a);
  }

  lemma SumOfMultiples(a: nat, x: nat, y: nat)
    requires a > 0 && x % a == 0 && y % a == 0
    ensures (x + y) % a == 0
  {
    var p, q := x / a, y / a;
    assert x + y == (p + q) * a;
    ProductMod(p + q, a);
  }

  /** Of two powers of two the smaller divides the larger. */
  lemma PowersDivide(a: nat, b: nat)
    requires PowerOfTwo(a) && PowerOfTwo(b) && a <= b
    ensures a > 0 && b % a == 0
  {
    var i: nat :| a == Pow2(i);
    var j: nat :| b == Pow2(j);
    if j < i {
      Pow2Increases(j, i);
      assert false;
    } else {
      Pow2Add(j - i, i);
      ProductMod(Pow2(j - i), Pow2(i));
    }
  }

  /** The least multiple of y that is not below x. */
  function RoundUp(x: nat, y: nat): (r: nat)
    requires y > 0
    ensures x <= r < x + y
  {
    if x == 0 then 0
    else if x <= y then y
    else y + RoundUp(x - y, y)
  }

  lemma ModShift(x: nat, y: nat)
    requires y > 0
    ensures (x + y) % y == x % y && (x + y) / y == x / y + 1
  {
    var q := x / y;
    assert x == q * y + x % y;
    assert x + y == (q + 1) * y + x % y;
    DivModUnique(x + y, y, q + 1, x % y);
  }

  lemma {:induction false} RoundUpMultiple(x: nat, y: nat)
    requires y > 0
    ensures RoundUp(x, y) % y == 0
  {
    if x > y {
      RoundUpMultiple(x - y, y);
      ModShift(RoundUp(x - y, y), y);
    } else if x > 0 {
      ModShift(0, y);
    }
  }

  /** RoundUp is what the macro `roundup(x, y)` of sys/param.h computes. */
  lemma {:induction false} RoundUpIsMacro(x: nat, y: nat)
    requires y > 0
    ensures RoundUp(x, y) == (x + (y - 1)) / y * y
  {
    if x == 0 {
      DivModUnique(y - 1, y, 0, y - 1);
    } else if x <= y {
      DivModUnique(x + (y - 1), y, 1, x - 1);
    } else {
      RoundUpIsMacro(x - y, y);
      MacroShift(x, y);
    }
  }

  lemma MacroShift(x: nat, y: nat)
    requires 0 < y < x
    ensures (x + (y - 1)) / y * y == y + (x - y + (y - 1)) / y * y
  {
    var n := x - y + (y - 1);
    ModShift(n, y);
    assert n + y == x + (y - 1);
    var q := n / y;
    assert (q + 1) * y == q * y + y;
  }

  /** Distinct multiples of y are at least y apart. */
  lemma MultiplesApart(m: nat, r: nat, y: nat)
    requires y > 0 && m % y == 0 && r % y == 0 && m < r
    ensures m + y <= r
  {
    var p, q := r / y, m / y;
    assert r == p * y && m == q * y;
    if p <= q {
      MulMono(p, q, y);
      assert false;
    }
    MulMono(q + 1, p, y);
    assert (q + 1) * y == q * y + y;
  }

  /** RoundUp is the least multiple not below its argument. */
  lemma RoundUpLeast(x: nat, y: nat, m: nat)
    requires y > 0 && m % y == 0 && x <= m
    ensures RoundUp(x, y) <= m
  {
    RoundUpMultiple(x, y);
    var r := RoundUp(x, y);
    if m < r {
      MultiplesApart(m, r, y);
    }
  }

  lemma RoundUpIdempotent(x: nat, y: nat)
    requires y > 0 && x % y == 0
    ensures RoundUp(x, y) == x
  {
    RoundUpLeast(x, y, x);
  }

  /** Divisibility by repeated subtraction. */
  predicate Multiple(x: nat, y: nat)
    requires y > 0
  {
    x == 0 || (x >= y && Multiple(x - y, y))
  }

  lemma {:induction false} MultipleIsMod(x: nat, y: nat)
    requires y > 0
    ensures Multiple(x, y) <==> x % y == 0
  {
    if x >= y {
      MultipleIsMod(x - y, y);
      ModShift(x - y, y);
    } else if x > 0 {
      DivModUnique(x, y, 0, x);
    }
  }

  lemma RoundUpShift(base: nat, x: nat, y: nat)
    requires y > 0 && base % y == 0
    ensures RoundUp(base + x, y) == base + RoundUp(x, y)
  {
    var r, r' := RoundUp(base + x, y), base + RoundUp(x, y);
    RoundUpMultiple(base + x, y);
    RoundUpMultiple(x, y);
    SumOfMultiples(y, base, RoundUp(x, y));
    if r < r' {
      MultiplesApart(r, r', y);
    } else if r' < r {
      MultiplesApart(r', r, y);
    }
  }

  function Max(a: nat, b: nat): nat {
    if a < b then b else a
  }
}
