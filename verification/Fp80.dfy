/** Conversion between 64-bit and 80-bit floating point (fputils), on the bit
    patterns as unsigned integers: masks and shifts by constants are remainders
    and quotients by powers of two. */
module Fp80 {
  import opened Bits

  const P11: nat := 0x800
  const P52: nat := 0x10_0000_0000_0000
  const P62: nat := 0x4000_0000_0000_0000
  const P63: nat := 0x8000_0000_0000_0000
  const P64: nat := 0x1_0000_0000_0000_0000

  const EXP64_SPECIAL := 0x7ff
  const EXP80_SPECIAL := 0x7fff
  const BIAS64 := 0x3ff
  const BIAS80 := 0x3fff

  type Bits64 = b: nat | b < 0x1_0000_0000_0000_0000

  /** Sign and exponent word, and the 64 bits of integer bit and fraction. */
  datatype F80 = F80(se: nat, fi: nat)

  // ----- fields

  function Frac64(b: Bits64): nat { b % P52 }
  function Exp64(b: Bits64): nat { b / P52 % 0x800 }
  predicate Neg64(b: Bits64) { b >= P63 }

  function Build64(neg: bool, frac: nat, exp: nat): (b: Bits64)
  {
    (if neg then P63 else 0) + exp % 0x800 * P52 + frac % P52
  }

  function Frac80(f: F80): nat { f.fi % P63 }
  function Exp80(f: F80): nat { f.se % 0x8000 }
  predicate Neg80(f: F80) { f.se / 0x8000 % 2 == 1 }

  function Build80(neg: bool, frac: nat, exp: nat): F80 {
    F80((if neg then 0x8000 else 0) + exp % 0x8000, (if exp != 0 then P63 else 0) + frac % P63)
  }

  predicate Special80(f: F80) { Exp80(f) == EXP80_SPECIAL }
  predicate Inf80(f: F80) { Special80(f) && Frac80(f) == 0 }
  predicate QNan80(f: F80) { Special80(f) && Frac80(f) / P62 % 2 == 1 }
  predicate SNan80(f: F80) { Special80(f) && Frac80(f) / P62 % 2 == 0 && Frac80(f) != 0 }
  predicate QNanI80(f: F80) { QNan80(f) && Neg80(f) && f.fi % P62 == 0 }

  const FRAC64_SNAN := 0x7_ffff_ffff_ffff
  const FRAC64_QNAN := 0xf_ffff_ffff_ffff
  const FRAC64_QNANI := 0x8_0000_0000_0000

  // ----- conversions

  /** Exponent the 64-bit format would need; the conversion branches on it. */
  function TargetExp(f: F80): int { Exp80(f) - BIAS80 + BIAS64 }

  /** fp80_cvtfp64 */
  function Narrow(f: F80): Bits64 {
    var neg := Neg80(f);
    if !Special80(f) then
      var e := TargetExp(f);
      var frac := f.fi / P11;
      if 0 < e < EXP64_SPECIAL then Build64(neg, frac, e)
      else if e <= 0 then Build64(neg, if -64 < e then frac / Pow2(-e) else 0, 0)
      else Build64(neg, 0, EXP64_SPECIAL)
    else if Inf80(f) then Build64(neg, 0, EXP64_SPECIAL)
    else if SNan80(f) then Build64(neg, FRAC64_SNAN, EXP64_SPECIAL)
    else if QNanI80(f) then Build64(true, FRAC64_QNANI, EXP64_SPECIAL)
    else Build64(neg, FRAC64_QNAN, EXP64_SPECIAL)
  }

  /** The normalising loop: shift left until the integer bit is set. */
  function Normalized(fi: nat, shift: nat): (r: (nat, nat))
    requires 0 < fi
    decreases P63 - fi
  {
    if fi >= P63 then (fi, shift) else Normalized(2 * fi, shift + 1)
  }

  lemma Pow52()
    ensures Pow2(11) == P11 && Pow2(52) == P52
  {
    assert Pow2(5) == 32;
    Pow2Add(5, 5);
    assert Pow2(11) == 2 * Pow2(10) && Pow2(12) == 2 * Pow2(11);
    Pow2Add(10, 10);
    Pow2Add(20, 20);
    Pow2Add(40, 12);
  }

  lemma Pow63()
    ensures Pow2(52) == P52 && Pow2(53) == 2 * P52 && Pow2(63) == P63 && Pow2(64) == P64
  {
    Pow52();
    Pow2Add(52, 11);
    assert Pow2(64) == 2 * Pow2(63);
  }

  /** It ends after as many doublings as its argument is short of 2^63. */
  lemma {:induction false} NormalizedShift(fi: nat, n: nat)
    requires 0 < fi && n <= 63
    ensures Pow2(n) <= fi ==> Normalized(fi, 0).1 <= 63 - n
    ensures Normalized(fi, 0).1 <= 63
  {
    NormalizedBound(fi, 0, 0);
    if Pow2(n) <= fi { NormalizedBound(fi, 0, n); }
  }

  lemma {:induction false} NormalizedBound(fi: nat, shift: nat, n: nat)
    requires 0 < fi && n <= 63 && Pow2(n) <= fi
    ensures Normalized(fi, shift).1 <= shift + 63 - n
    decreases P63 - fi
  {
    Pow63();
    if fi < P63 {
      if n < 63 {
        NormalizedBound(2 * fi, shift + 1, n + 1);
      }
    }
  }

  /** fp80_cvffp64 */
  function Widen(b: Bits64): F80 {
    var frac, exp := Frac64(b), Exp64(b);
    if exp != 0 then
      Build80(Neg64(b), frac * P11, if exp == EXP64_SPECIAL then EXP80_SPECIAL else exp - BIAS64 + BIAS80)
    else if frac == 0 then Build80(Neg64(b), 0, 0)
    else
      NormalizedShift(frac * P11, 0);
      var (fi, shift) := Normalized(frac * P11, 0);
      Build80(Neg64(b), fi, BIAS80 - BIAS64 - shift)
  }

  /** The loop of fp80_cvffp64 in place; it ends after at most 63 shifts. */
  method Normalize(frac: nat) returns (fi: nat, shift: nat)
    requires 0 < frac
    ensures (fi, shift) == Normalized(frac, 0)
  {
    fi, shift := frac, 0;
    while fi < P63
      invariant 0 < fi && Normalized(fi, shift) == Normalized(frac, 0)
      decreases P63 - fi
    {
      fi := 2 * fi;
      shift := shift + 1;
    }
  }

  // ----- taking fields apart

  lemma Build64Fields(neg: bool, frac: nat, exp: nat)
    requires frac < P52 && exp < 0x800
    ensures var b := Build64(neg, frac, exp);
            Frac64(b) == frac && Exp64(b) == exp && Neg64(b) == neg
  {
  }

  lemma Build64Inverse(b: Bits64)
    ensures Build64(Neg64(b), Frac64(b), Exp64(b)) == b
  {
  }

  lemma Build80Fields(neg: bool, frac: nat, exp: nat)
    requires exp < 0x8000
    ensures var f := Build80(neg, frac, exp);
            Exp80(f) == exp && Neg80(f) == neg && Frac80(f) == frac % P63
            && f.fi == (if exp != 0 then P63 else 0) + frac % P63
  {
  }

  // ----- the normalising loop

  lemma {:induction false} NormalizedShape(fi: nat, shift: nat)
    requires 0 < fi < P64
    ensures var (r, t) := Normalized(fi, shift);
            && shift <= t && r == fi * Pow2(t - shift) && P63 <= r < P64
            && (fi < P63 ==> shift < t)
    decreases P63 - fi
  {
    if fi < P63 {
      NormalizedShape(2 * fi, shift + 1);
      var t := Normalized(fi, shift).1;
      assert Pow2(t - shift) == 2 * Pow2(t - shift - 1);
      assert 2 * fi * Pow2(t - shift - 1) == fi * Pow2(t - shift);
    }
  }

  /** A subnormal, widened: the fraction moved up to the integer bit, and an
      exponent that remembers how far. */
  lemma WidenSubnormal(b: Bits64) returns (s: nat)
    requires Exp64(b) == 0 && Frac64(b) != 0
    ensures var w := Widen(b);
            && 0 < s <= 63 && TargetExp(w) + s == 0 && !Special80(w) && Neg80(w) == Neg64(b)
            && w.fi == Frac64(b) * P11 * Pow2(s) && P63 <= w.fi < P64
  {
    var fi: nat;
    fi, s := NormalizedSubnormal(Frac64(b) * P11);
    WidenUnfolds(b, fi, s);
  }

  lemma WidenUnfolds(b: Bits64, fi: nat, s: nat)
    requires Exp64(b) == 0 && Frac64(b) != 0 && Normalized(Frac64(b) * P11, 0) == (fi, s)
    requires s <= 63 && P63 <= fi < P64
    ensures var w := Widen(b);
            TargetExp(w) + s == 0 && !Special80(w) && Neg80(w) == Neg64(b) && w.fi == fi
  {
    var e := BIAS80 - BIAS64 - s;
    assert Widen(b) == Build80(Neg64(b), fi, e);
    Build80Fields(Neg64(b), fi, e);
  }

  lemma NormalizedSubnormal(x: nat) returns (fi: nat, s: nat)
    requires 0 < x < P63
    ensures Normalized(x, 0) == (fi, s)
    ensures 0 < s <= 63 && fi == x * Pow2(s) && P63 <= fi < P64
  {
    NormalizedShift(x, 0);
    NormalizedShape(x, 0);
    var (r, t) := Normalized(x, 0);
    fi, s := r, t;
  }

  lemma DivShifted(x: nat, p: nat, q: nat)
    requires p > 0 && q > 0
    ensures x * p * q / p == x * q && x * q / q == x
  {
    assert x * p * q == x * q * p;
    ProductMod(x * q, p);
    ProductMod(x, q);
  }

  predicate Inf64(b: Bits64) { Exp64(b) == EXP64_SPECIAL && Frac64(b) == 0 }
  predicate Nan64(b: Bits64) { Exp64(b) == EXP64_SPECIAL && Frac64(b) != 0 }
  predicate Quiet64(b: Bits64) { Nan64(b) && Frac64(b) >= 0x8_0000_0000_0000 }

  /** The negative quiet NaN without payload. */
  predicate Indefinite64(b: Bits64) { Nan64(b) && Neg64(b) && Frac64(b) == 0x8_0000_0000_0000 }

  /** A NaN all of whose payload bits are ones. */
  predicate FullNan64(b: Bits64) { Nan64(b) && Frac64(b) % 0x8_0000_0000_0000 == 0x7_ffff_ffff_ffff }

  // ----- classes of numbers

  /** What narrowing makes of each class, over all bit patterns: the sign is
      kept, infinity comes from infinity and from numbers too large, a NaN from
      a NaN of the same kind. */
  lemma NarrowClasses(f: F80)
    ensures var n := Narrow(f);
            && Neg64(n) == Neg80(f)
            && (Inf64(n) <==> Inf80(f) || (!Special80(f) && TargetExp(f) >= EXP64_SPECIAL))
            && (Nan64(n) <==> Special80(f) && Frac80(f) != 0)
            && (Quiet64(n) <==> QNan80(f))
            && (Indefinite64(n) <==> QNanI80(f))
            && (Nan64(n) ==> Indefinite64(n) || FullNan64(n))
  {
    var neg := Neg80(f);
    Build64Fields(neg, 0, EXP64_SPECIAL);
    Build64Fields(neg, FRAC64_SNAN, EXP64_SPECIAL);
    Build64Fields(neg, FRAC64_QNAN, EXP64_SPECIAL);
    Build64Fields(true, FRAC64_QNANI, EXP64_SPECIAL);
    if !Special80(f) && TargetExp(f) < EXP64_SPECIAL {
      NarrowFinite(f);
    }
  }

  /** A number in range stays finite, of the same sign. */
  lemma NarrowFinite(f: F80)
    requires !Special80(f) && TargetExp(f) < EXP64_SPECIAL
    ensures Neg64(Narrow(f)) == Neg80(f)
    ensures Exp64(Narrow(f)) == if TargetExp(f) > 0 then TargetExp(f) else 0
  {
    var e, g := TargetExp(f), f.fi / P11;
    if e > 0 {
      BuildCuts(Neg80(f), g, e);
    } else {
      BuildCuts(Neg80(f), if -64 < e then g / Pow2(-e) else 0, 0);
    }
  }

  lemma BuildCuts(neg: bool, frac: nat, exp: nat)
    requires exp < 0x800
    ensures Build64(neg, frac, exp) == Build64(neg, frac % P52, exp)
    ensures var b := Build64(neg, frac, exp);
            Frac64(b) == frac % P52 && Exp64(b) == exp && Neg64(b) == neg
  {
    Build64Fields(neg, frac % P52, exp);
  }

  /** Widening keeps infinities, and NaNs with their kind and payload; the
      integer bit is set. */
  lemma WidenSpecial(b: Bits64)
    requires Exp64(b) == EXP64_SPECIAL
    ensures var w := Widen(b);
            && Special80(w) && Neg80(w) == Neg64(b) && w.fi == P63 + Frac64(b) * P11 < P64
            && (Inf80(w) <==> Inf64(b)) && (QNan80(w) <==> Quiet64(b)) && (QNanI80(w) <==> Indefinite64(b))
  {
    var frac := Frac64(b);
    Build80Fields(Neg64(b), frac * P11, EXP80_SPECIAL);
    assert Frac80(Widen(b)) == frac * P11;
    assert frac * P11 / P62 % 2 == (if frac >= 0x8_0000_0000_0000 then 1 else 0);
  }

  // ----- round trip

  lemma RoundTripSubnormal(b: Bits64)
    requires Exp64(b) == 0 && Frac64(b) != 0
    ensures Narrow(Widen(b)) == b
  {
    var s := WidenSubnormal(b);
    var w, frac := Widen(b), Frac64(b);
    DivShifted(frac, P11, Pow2(s));
    assert w.fi / P11 == frac * Pow2(s);
    assert w.fi / P11 / Pow2(s) == frac;
    Build64Inverse(b);
  }

  lemma RoundTripNormal(b: Bits64)
    requires 0 < Exp64(b) < EXP64_SPECIAL
    ensures Narrow(Widen(b)) == b
  {
    var frac, e := Frac64(b), Exp64(b);
    var w := Widen(b);
    Build80Fields(Neg64(b), frac * P11, e - BIAS64 + BIAS80);
    assert w.fi == (P52 + frac) * P11;
    NarrowNormalFields(w);
    Build64Inverse(b);
    Build64Inverse(Narrow(w));
  }

  /** Converting any value but a NaN to 80 bits and back gives the same bits. */
  lemma RoundTrip(b: Bits64)
    requires !Nan64(b)
    ensures Narrow(Widen(b)) == b
  {
    if Exp64(b) == 0 {
      if Frac64(b) == 0 {
        Build80Fields(Neg64(b), 0, 0);
        assert Pow2(64) > 0;
        Build64Inverse(b);
      } else {
        RoundTripSubnormal(b);
      }
    } else if Exp64(b) == EXP64_SPECIAL {
      Build80Fields(Neg64(b), 0, EXP80_SPECIAL);
      Build64Inverse(b);
    } else {
      RoundTripNormal(b);
    }
  }

  /** A NaN stays a NaN, of the same sign and the same kind. */
  lemma RoundTripNan(b: Bits64)
    requires Nan64(b)
    ensures var r := Narrow(Widen(b));
            Nan64(r) && Neg64(r) == Neg64(b) && (Quiet64(r) <==> Quiet64(b))
    ensures Narrow(Widen(b)) == b <==> Indefinite64(b) || FullNan64(b)
  {
    var r := Narrow(Widen(b));
    WidenSpecial(b);
    NarrowClasses(Widen(b));
    Build64Inverse(b);
    Build64Inverse(r);
  }

  // ----- values

  /** Magnitude of a finite 64-bit number, in units of 2^-(1086 + s): the
      significand is worth 2^(exponent - 1023 - 52), at the least exponent also
      without the leading one. */
  function Value64(b: Bits64, s: nat): nat {
    if Exp64(b) == 0 then Frac64(b) * Pow2(12 + s) else (P52 + Frac64(b)) * Pow2(Exp64(b) + 11 + s)
  }

  /** Magnitude of an 80-bit number that is not special, in the same units: the
      significand is worth 2^(exponent - 16383 - 63). */
  function Value80(f: F80, s: nat): nat
    requires Exp80(f) - 15360 + s >= 0
  {
    f.fi * Pow2(Exp80(f) - 15360 + s)
  }

  /** Units fine enough for the number. */
  function Scale(f: F80): nat { if TargetExp(f) < 0 then -TargetExp(f) else 0 }

  /** Distance to the next 64-bit number. */
  function Ulp(b: Bits64, s: nat): nat {
    Pow2((if Exp64(b) == 0 then 1 else Exp64(b)) + 11 + s)
  }

  lemma MulPow(x: nat, a: nat, b: nat)
    ensures x * Pow2(a) * Pow2(b) == x * Pow2(a + b)
  {
    Pow2Add(a, b);
    assert x * Pow2(a) * Pow2(b) == x * (Pow2(a) * Pow2(b));
  }

  lemma MulP11(x: nat, b: nat)
    ensures x * P11 * Pow2(b) == x * Pow2(11 + b)
  {
    Pow52();
    MulPow(x, 11, b);
  }

  lemma WidenNormalValue(b: Bits64)
    requires 0 < Exp64(b) < EXP64_SPECIAL
    ensures TargetExp(Widen(b)) == Exp64(b) && Value80(Widen(b), 0) == Value64(b, 0)
    ensures Neg80(Widen(b)) == Neg64(b) && P63 <= Widen(b).fi < P64
  {
    var frac, e := Frac64(b), Exp64(b);
    Build80Fields(Neg64(b), frac * P11, e - BIAS64 + BIAS80);
    assert Widen(b).fi == (P52 + frac) * P11;
    MulP11(P52 + frac, e);
  }

  lemma WidenSubnormalValue(b: Bits64)
    requires Exp64(b) == 0 && Frac64(b) != 0
    ensures var w := Widen(b);
            && TargetExp(w) + Scale(w) >= 0 && Neg80(w) == Neg64(b) && P63 <= w.fi < P64
            && 2 * Value80(w, Scale(w)) == Value64(b, Scale(w)) > 0
  {
    var s := WidenSubnormal(b);
    var frac := Frac64(b);
    assert Scale(Widen(b)) == s && Pow2(0) == 1;
    MulP11(frac, s);
    assert 12 + s == 11 + s + 1;
    assert Pow2(12 + s) == 2 * Pow2(11 + s);
    MulDouble(frac, Pow2(11 + s));
  }

  lemma MulDouble(x: nat, p: nat)
    requires x > 0 && p > 0
    ensures 2 * (x * p) == x * (2 * p) > 0
  {
  }

  /** Widening keeps the value of a finite number exactly when it is not
      subnormal; a subnormal is halved. */
  lemma WidenExactly(b: Bits64)
    requires Exp64(b) < EXP64_SPECIAL
    ensures var w := Widen(b);
            && TargetExp(w) + Scale(w) >= 0 && Neg80(w) == Neg64(b)
            && (Value80(w, Scale(w)) == Value64(b, Scale(w)) <==> Exp64(b) != 0 || Frac64(b) == 0)
            && (Exp64(b) == 0 ==> 2 * Value80(w, Scale(w)) == Value64(b, Scale(w)))
            && (if Exp64(b) == 0 && Frac64(b) == 0 then w.fi == 0 && Exp80(w) == 0 else P63 <= w.fi < P64)
  {
    if Exp64(b) != 0 {
      WidenNormalValue(b);
    } else if Frac64(b) != 0 {
      WidenSubnormalValue(b);
    } else {
      Build80Fields(Neg64(b), 0, 0);
    }
  }

  // ----- narrowing

  /** The significand the conversion works with: above the subnormal range the
      integer bit is taken for granted, in its last step it is dropped, and in
      the subnormal range everything is taken twice. */
  function Taken(f: F80): nat {
    if TargetExp(f) > 0 then P63 + f.fi % P63
    else if TargetExp(f) == 0 then 2 * (f.fi % P63)
    else 2 * f.fi
  }

  /** The result is finite, has the sign of `f`, and is the significand `x` at
      the exponent of `f` cut off toward zero, by less than one unit in the last
      place. */
  ghost predicate CutFrom(f: F80, x: nat) {
    var n, s := Narrow(f), Scale(f);
    && Exp64(n) < EXP64_SPECIAL && Neg64(n) == Neg80(f)
    && Exp80(f) - 15360 + s >= 0
    && Value64(n, s) <= x * Pow2(Exp80(f) - 15360 + s) < Value64(n, s) + Ulp(n, s)
  }

  /** The conversion truncates the value of `f`. */
  ghost predicate Truncates(f: F80) { CutFrom(f, f.fi) }

  lemma SplitLow(fi: nat, q: nat, p: nat)
    requires q > 0 && p > 0
    ensures fi / q * (q * p) <= fi * p < fi / q * (q * p) + q * p
  {
    var g, r := fi / q, fi % q;
    assert fi == g * q + r;
    assert fi * p == g * (q * p) + r * p;
    MulMono(r + 1, q, p);
    assert (r + 1) * p == r * p + p;
  }

  /** A number that fits the 64-bit range, or lies below it. */
  predicate InRange(f: F80) {
    f.fi < P64 && !Special80(f) && TargetExp(f) < EXP64_SPECIAL
  }

  lemma NarrowNormalFields(f: F80)
    requires InRange(f) && TargetExp(f) > 0
    ensures var n := Narrow(f);
            && Neg64(n) == Neg80(f) && Exp64(n) == TargetExp(f)
            && P52 + Frac64(n) == Taken(f) / P11 < 2 * P52
            && (f.fi >= P63 ==> Taken(f) == f.fi)
  {
    BuildCuts(Neg80(f), f.fi / P11, TargetExp(f));
    LowBits(f.fi);
  }

  lemma LowBits(fi: nat)
    requires fi < P64
    ensures fi / P11 % P52 == fi % P63 / P11 && (P63 + fi % P63) / P11 == P52 + fi % P63 / P11
    ensures fi % P63 == (if fi >= P63 then fi - P63 else fi)
  {
  }

  lemma NormalValues(f: F80, e: nat)
    requires InRange(f) && TargetExp(f) == e > 0
    ensures Neg64(Narrow(f)) == Neg80(f) && Exp64(Narrow(f)) == e && Scale(f) == 0
    ensures Value64(Narrow(f), 0) == Taken(f) / P11 * Pow2(e + 11) && Ulp(Narrow(f), 0) == Pow2(e + 11)
  {
    NarrowNormalFields(f);
  }

  lemma NarrowNormal(f: F80)
    requires InRange(f) && TargetExp(f) > 0
    ensures Value64(Narrow(f), 0) == Taken(f) / P11 * Pow2(TargetExp(f) + 11)
    ensures CutFrom(f, Taken(f))
    ensures Truncates(f) <==> f.fi >= P63
  {
    var e: nat := TargetExp(f);
    NormalValues(f, e);
    Pow52();
    Pow2Add(11, e);
    SplitLow(Taken(f), P11, Pow2(e));
    NarrowNormalFields(f);
    if f.fi < P63 {
      MulMono(P52, Taken(f) / P11, Pow2(e + 11));
      MulP11(P52, e);
      MulLess(f.fi, P63, Pow2(e));
    }
  }

  function Signed64(b: Bits64): int {
    var v: int := Value64(b, 0);
    if Neg64(b) then -v else v
  }

  function Signed80(f: F80): int
    requires TargetExp(f) >= 0
  {
    var v: int := Value80(f, 0);
    if Neg80(f) then -v else v
  }

  /** The order of 64-bit numbers, with the infinities at its ends. */
  predicate AtMost(a: Bits64, b: Bits64) {
    || (Inf64(a) && Neg64(a))
    || (Inf64(b) && !Neg64(b))
    || (!Inf64(a) && !Inf64(b) && Signed64(a) <= Signed64(b))
  }

  /** A proper number above the subnormal range, however large. */
  ghost predicate Proper(f: F80) {
    P63 <= f.fi < P64 && !Special80(f) && TargetExp(f) > 0
  }

  /** ... and it keeps the order of numbers above the subnormal range, those too
      large for the 64-bit format included. */
  lemma NarrowMonotone(f: F80, g: F80)
    requires Proper(f) && Proper(g) && Signed80(f) <= Signed80(g)
    ensures AtMost(Narrow(f), Narrow(g))
  {
    NarrowClasses(f);
    NarrowClasses(g);
    if !Neg80(f) && !Neg80(g) {
      SmallerFits(f, g);
      if InRange(f) && InRange(g) { MagnitudesMonotone(f, g); }
    } else if Neg80(f) && Neg80(g) {
      SmallerFits(g, f);
      if InRange(f) && InRange(g) { MagnitudesMonotone(g, f); }
    } else if Neg80(g) {
      MulLess(0, g.fi, Pow2(TargetExp(g)));
      assert false;
    }
  }

  /** What is no larger than a number in range is in range. */
  lemma SmallerFits(f: F80, g: F80)
    requires Proper(f) && Proper(g) && Value80(f, 0) <= Value80(g, 0)
    ensures InRange(g) ==> InRange(f)
  {
    if TargetExp(g) < TargetExp(f) {
      HigherExponentLarger(g, f);
      assert false;
    }
  }

  lemma MagnitudesMonotone(f: F80, g: F80)
    requires Proper(f) && Proper(g) && InRange(f) && InRange(g)
    requires Value80(f, 0) <= Value80(g, 0)
    ensures Value64(Narrow(f), 0) <= Value64(Narrow(g), 0)
  {
    var d: nat, e: nat := TargetExp(f), TargetExp(g);
    NarrowNormal(f);
    NarrowNormal(g);
    NarrowNormalFields(f);
    NarrowNormalFields(g);
    if d == e {
      MulCancel(f.fi, g.fi, Pow2(d));
      MulMono(f.fi / P11, g.fi / P11, Pow2(d + 11));
    } else if d < e {
      SmallerExponent(f.fi / P11, g.fi / P11, d + 11, e + 11);
    } else {
      HigherExponentLarger(g, f);
      assert false;
    }
  }

  lemma MulCancel(a: nat, b: nat, p: nat)
    requires a * p <= b * p && p > 0
    ensures a <= b
  {
    if b < a {
      MulLess(b, a, p);
      assert false;
    }
  }

  /** A significand below 2^53 at exponent d is below one of at least 2^52 at e. */
  lemma SmallerExponent(x: nat, y: nat, d: nat, e: nat)
    requires x < 2 * P52 && P52 <= y && d < e
    ensures x * Pow2(d) <= y * Pow2(e)
  {
    MulMono(x, 2 * P52, Pow2(d));
    PowGap(d, e);
    MulMono(2 * Pow2(d), Pow2(e), P52);
    MulMono(P52, y, Pow2(e));
  }

  lemma MulLess(a: nat, b: nat, p: nat)
    requires a < b && p > 0
    ensures a * p < b * p
  {
    MulMono(a + 1, b, p);
    assert (a + 1) * p == a * p + p;
  }

  lemma PowGap(a: nat, b: nat)
    requires a < b
    ensures 2 * Pow2(a) <= Pow2(b)
  {
    if a + 1 < b { Pow2Increases(a + 1, b); }
  }

  lemma HigherExponentLarger(f: F80, g: F80)
    requires Proper(f) && Proper(g) && TargetExp(f) < TargetExp(g)
    ensures Value80(f, 0) < Value80(g, 0)
  {
    var d, e := TargetExp(f), TargetExp(g);
    MulLess(f.fi, P64, Pow2(d));
    PowGap(d, e);
    MulMono(2 * Pow2(d), Pow2(e), P63);
    assert P64 * Pow2(d) == 2 * Pow2(d) * P63;
    MulMono(P63, g.fi, Pow2(e));
    assert Pow2(e) * P63 == P63 * Pow2(e);
  }

  /** Below the normal range a result has exponent field zero. */
  lemma ZeroExpValue(n: Bits64, k: nat)
    requires Exp64(n) == 0
    ensures Value64(n, k) == Frac64(n) * (2 * Pow2(11 + k)) && Ulp(n, k) == 2 * Pow2(11 + k)
  {
    assert Pow2(12 + k) == 2 * Pow2(11 + k);
  }

  /** Just below the normal range the integer bit is lost. */
  lemma NarrowAtZeroFields(f: F80)
    requires InRange(f) && TargetExp(f) == 0
    ensures Neg64(Narrow(f)) == Neg80(f) && Exp64(Narrow(f)) == 0 && Frac64(Narrow(f)) == f.fi % P63 / P11
  {
    assert Pow2(0) == 1;
    LowBits(f.fi);
    assert Narrow(f) == Build64(Neg80(f), f.fi / P11, 0);
    BuildCuts(Neg80(f), f.fi / P11, 0);
  }

  lemma AtZeroValues(f: F80) returns (n: Bits64, q: nat)
    requires InRange(f) && TargetExp(f) == 0
    ensures n == Narrow(f) && Neg64(n) == Neg80(f) && Exp64(n) == 0 && q == f.fi % P63 / P11
    ensures Value64(n, 0) == q * (2 * P11) && Ulp(n, 0) == 2 * P11
  {
    n, q := Narrow(f), f.fi % P63 / P11;
    NarrowAtZeroFields(f);
    Pow52();
    ZeroExpValue(n, 0);
  }

  lemma NarrowAtZero(f: F80)
    requires InRange(f) && TargetExp(f) == 0
    ensures CutFrom(f, Taken(f))
    ensures Truncates(f) <==> f.fi >= P64 - P11 || f.fi < P11
  {
    var n, q := AtZeroValues(f);
    assert Pow2(0) == 1;
    LostIntegerBit(f.fi, f.fi % P63, q);
  }

  lemma LostIntegerBit(fi: nat, r: nat, q: nat)
    requires fi < P64 && r == fi % P63 && q == r / P11
    ensures q * (2 * P11) <= 2 * r < q * (2 * P11) + 2 * P11
    ensures q * (2 * P11) <= fi < q * (2 * P11) + 2 * P11 <==> fi >= P64 - P11 || fi < P11
  {
    assert r == q * P11 + r % P11;
  }

  /** Twice a positive multiple of u is too large for a number that lies
      between that multiple and the next. */
  lemma DoubledTruncates(fi: nat, q: nat, u: nat)
    requires u > 0 && q * u <= fi < (q + 1) * u
    ensures q * (2 * u) <= 2 * fi < q * (2 * u) + 2 * u
    ensures q * (2 * u) <= fi < q * (2 * u) + 2 * u <==> fi < u
  {
    MulDoubleAny(q, u);
    assert (q + 1) * u == q * u + u;
  }

  lemma BelowUnfolds(f: F80, k: nat)
    requires InRange(f) && TargetExp(f) + k == 0 && k > 0
    ensures Narrow(f) == Build64(Neg80(f), f.fi / P11 / Pow2(k), 0)
  {
    if k >= 64 {
      FarBelow(f.fi, k);
      assert Narrow(f) == Build64(Neg80(f), 0, 0);
    } else {
      assert k == -TargetExp(f);
    }
  }

  lemma FarBelow(fi: nat, k: nat)
    requires fi < P64 && k >= 64
    ensures fi / P11 / Pow2(k) == 0
  {
    PowOver53(k);
    QuotientZero(fi / P11, Pow2(k));
  }

  /** The fraction, `q`, is the significand in units of `u`. */
  lemma BelowBuilt(f: F80, k: nat) returns (n: Bits64, q: nat, u: nat)
    requires InRange(f) && TargetExp(f) + k == 0 && k > 0
    ensures n == Narrow(f) == Build64(Neg80(f), q, 0) && u == Pow2(11 + k)
    ensures q < P52 && q * u <= f.fi < (q + 1) * u
  {
    n, q, u := Narrow(f), f.fi / P11 / Pow2(k), Pow2(11 + k);
    BelowUnfolds(f, k);
    BelowSmall(f.fi, k);
    BelowQuotient(f.fi, k);
  }

  lemma SmallValues(n: Bits64, neg: bool, q: nat, k: nat)
    requires q < P52 && n == Build64(neg, q, 0)
    ensures Neg64(n) == neg && Exp64(n) == 0
    ensures Value64(n, k) == q * (2 * Pow2(11 + k)) && Ulp(n, k) == 2 * Pow2(11 + k)
  {
    Build64Fields(neg, q, 0);
    ZeroExpValue(n, k);
  }

  /** Further below, the result is twice the truncated value. */
  lemma NarrowBelow(f: F80)
    requires InRange(f) && TargetExp(f) < 0
    ensures CutFrom(f, Taken(f))
    ensures Truncates(f) <==> f.fi < Pow2(11 - TargetExp(f))
  {
    var k := -TargetExp(f);
    var n, q, u := BelowBuilt(f, k);
    SmallValues(n, Neg80(f), q, k);
    DoubledTruncates(f.fi, q, u);
    assert Pow2(0) == 1;
  }

  lemma MulDoubleAny(x: nat, p: nat)
    ensures x * (2 * p) == 2 * (x * p)
    ensures x > 0 ==> p <= x * p
  {
    if x > 0 { MulMono(1, x, p); }
  }

  lemma NestedQuotient(fi: nat, a: nat, p: nat)
    requires a > 0 && p > 0
    ensures var q := fi / a / p; q * (a * p) <= fi < (q + 1) * (a * p)
  {
    var g := fi / a;
    var q, r := g / p, g % p;
    assert g == q * p + r && fi == g * a + fi % a;
    assert q * (a * p) == q * p * a;
    assert (q + 1) * (a * p) == q * p * a + p * a;
    MulMono(r + 1, p, a);
    assert (r + 1) * a == r * a + a;
    assert g * a == q * p * a + r * a;
  }

  lemma QuotientZero(g: nat, p: nat)
    requires p > 0
    ensures g / p == 0 <==> g < p
  {
    if g < p { DivModUnique(g, p, 0, g); }
  }

  /** The quotient that becomes the fraction. */
  lemma BelowQuotient(fi: nat, k: nat)
    requires fi < P64 && 0 < k
    ensures var q := fi / P11 / Pow2(k); q * Pow2(11 + k) <= fi < (q + 1) * Pow2(11 + k)
  {
    Pow52();
    Pow2Add(11, k);
    NestedQuotient(fi, P11, Pow2(k));
  }

  lemma BelowSmall(fi: nat, k: nat)
    requires fi < P64 && 0 < k
    ensures fi / P11 / Pow2(k) < P52
  {
    assert Pow2(k) >= 2;
    HalfAtMost(fi / P11, Pow2(k));
  }

  lemma PowOver53(k: nat)
    ensures k >= 53 ==> Pow2(k) >= 2 * P52
  {
    Pow63();
    if k > 53 { Pow2Increases(53, k); }
  }

  lemma HalfAtMost(g: nat, p: nat)
    requires p >= 2 && g < 2 * P52
    ensures g / p < P52
  {
    var q := g / p;
    assert g == q * p + g % p;
    MulMono(2, p, q);
    assert 2 * q <= g;
  }

  /** What the conversion computes for every bit pattern whose exponent fits or
      is too small: the significand it takes, cut off toward zero. */
  lemma NarrowCuts(f: F80)
    requires InRange(f)
    ensures CutFrom(f, Taken(f))
  {
    if TargetExp(f) > 0 {
      NarrowNormal(f);
    } else if TargetExp(f) == 0 {
      NarrowAtZero(f);
    } else {
      NarrowBelow(f);
    }
  }

  /** Main result for narrowing, over all bit patterns that are no infinity or
      NaN: it truncates toward zero exactly on proper numbers of the normal
      range, on the last step below it where all fraction bits are ones, and
      where the result is zero.  A number is too large exactly when it becomes
      infinity. */
  lemma TruncatesExactly(f: F80)
    requires f.fi < P64 && !Special80(f)
    ensures var e := TargetExp(f);
            Truncates(f) <==>
              || (0 < e < EXP64_SPECIAL && f.fi >= P63)
              || (e == 0 && f.fi >= P64 - P11)
              || (e <= 0 && f.fi < Pow2(11 - e))
    ensures TargetExp(f) >= EXP64_SPECIAL <==> Inf64(Narrow(f))
    ensures Neg64(Narrow(f)) == Neg80(f)
  {
    NarrowClasses(f);
    if 0 < TargetExp(f) < EXP64_SPECIAL {
      NarrowNormal(f);
    } else if TargetExp(f) == 0 {
      Pow52();
      NarrowAtZero(f);
    } else if TargetExp(f) < 0 {
      NarrowBelow(f);
    }
  }

  /** One, two and a half, the largest number, infinity and the default NaN in
      both formats. */
  lemma KnownNumbers()
    ensures Widen(0x3ff0_0000_0000_0000) == F80(0x3fff, 0x8000_0000_0000_0000)
    ensures Widen(0xc004_0000_0000_0000) == F80(0xc000, 0xa000_0000_0000_0000)
    ensures Widen(0x7fef_ffff_ffff_ffff) == F80(0x43fe, 0xffff_ffff_ffff_f800)
    ensures Widen(0x7ff0_0000_0000_0000) == F80(0x7fff, 0x8000_0000_0000_0000)
    ensures Widen(0xfff8_0000_0000_0000) == F80(0xffff, 0xc000_0000_0000_0000)
    ensures Narrow(F80(0x43ff, 0x8000_0000_0000_0000)) == 0x7ff0_0000_0000_0000
  {
  }

  /** The smallest 64-bit number, widened, is half of it. */
  lemma SmallestHalved()
    ensures var w := Widen(1);
            TargetExp(w) + Scale(w) >= 0 && 2 * Value80(w, Scale(w)) == Value64(1, Scale(w)) > 0
  {
    WidenSubnormalValue(1);
  }

  /** The power of two just below the normal range, narrowed, is zero although
      the 64-bit format has it. */
  lemma PowerNarrowedToZero()
    ensures var f := F80(0x3c00, P63);
            InRange(f) && Narrow(f) == 0 && !Truncates(f)
  {
    var f := F80(0x3c00, P63);
    NarrowAtZero(f);
    NarrowAtZeroFields(f);
    Build64Inverse(Narrow(f));
  }
}
