// Unsigned 128-bit division (src/runtime/compiler-rt/builtins/udivmodti4.c).
//
// Machine words are ints in [0, 2^64) and [0, 2^128); every operation that can
// wrap in C is written with its explicit reduction, and the proofs show where
// the reduction is the identity and where it is not.

module Division {
  import opened Powers

  const B32: nat := 0x1_0000_0000
  const B63: nat := 0x8000_0000_0000_0000
  const B64: nat := 0x1_0000_0000_0000_0000
  const B127: nat := 0x8000_0000_0000_0000_0000_0000_0000_0000
  const B128: nat := 0x1_0000_0000_0000_0000_0000_0000_0000_0000

  lemma {:induction false} Pow2Of64()
    ensures Pow2(32) == B32 && Pow2(63) == B63 && Pow2(64) == B64 && Pow2(127) == B127 && Pow2(128) == B128
  {
    hide Pow2;
    Pow2Of8();
    Pow2Add(8, 8);
    Pow2Add(16, 16);
    Pow2Add(32, 32);
    Pow2Add(64, 64);
    Pow2Step(64);
    Pow2Step(128);
  }

  /** `__builtin_clzll`: the number of leading zero bits, defined only for a non-zero word. */
  function LeadingZeros(v: nat): (s: nat)
    requires 0 < v < B64
    ensures s < 64
    ensures B63 <= v * Pow2(s) < B64
    decreases B64 - v
  {
    if v >= B63 then
      assert Pow2(0) == 1; 0
    else
      var s := LeadingZeros(2 * v);
      assert v * Pow2(s + 1) == 2 * v * Pow2(s);
      LeadingZerosBound(v, s + 1);
      s + 1
  }

  lemma {:induction false} LeadingZerosBound(v: nat, s: nat)
    requires 0 < v && v * Pow2(s) < B64
    ensures s < 64
  {
    if s >= 64 {
      Pow2Of64();
      Pow2Add(64, s - 64);
      assert Pow2(s) >= B64 by { MulGe(B64, Pow2(s - 64), 1); }
      MulGe(Pow2(s), v, 1);
      assert false;
    }
  }

  // ---------- Algorithm D, one quotient digit ----------

  /** What one digit of Algorithm D must deliver: the exact quotient and remainder of un*b+d by v. */
  ghost predicate IsDigitOf(un: nat, d: nat, v: nat, q: nat, rem: nat) {
    un * B32 + d == q * v + rem && rem < v && q < B32
  }

  lemma {:induction false} EstimateTooBig(un: nat, d: nat, v: nat, vn1: nat, vn0: nat, q: nat, rhat: nat)
    requires v == vn1 * B32 + vn0 && un == q * vn1 + rhat
    requires q * vn0 > B32 * rhat + d
    ensures q * v > un * B32 + d
  {
    assert q * v == (q * vn1) * B32 + q * vn0;
  }

  lemma {:induction false} EstimateNotTooBig(un: nat, d: nat, v: nat, vn1: nat, vn0: nat, q: nat, rhat: nat)
    requires v == vn1 * B32 + vn0 && un == q * vn1 + rhat
    requires q * vn0 <= B32 * rhat + d
    ensures q * v <= un * B32 + d
  {
    assert q * v == (q * vn1) * B32 + q * vn0;
  }

  lemma {:induction false} BrokenEstimateNotTooBig(un: nat, d: nat, v: nat, vn1: nat, vn0: nat, q: nat, rhat: nat)
    requires v == vn1 * B32 + vn0 && un == q * vn1 + rhat && un < v && vn0 < B32 && vn1 > 0
    requires rhat >= B32
    ensures q < B32 && q * v <= un * B32 + d
  {
    assert q * vn1 < vn1 * B32;
    MulLtCancel(vn1, q, B32);
    assert q * vn0 <= B32 * rhat by { MulGe(vn0, B32, q); MulGe(B32, rhat, vn0); }
    EstimateNotTooBig(un, d, v, vn1, vn0, q, rhat);
  }

  lemma {:induction false} DigitBelowBase(un: nat, d: nat, v: nat, q: nat)
    requires un < v && d < B32 && q >= B32
    ensures q * v > un * B32 + d
  {
    MulGe(v, q, B32);
    MulGe(B32, v, un + 1);
  }

  /** The estimate q = un / vn1 is never below the true digit. */
  lemma {:induction false} EstimateAbove(un: nat, d: nat, v: nat, vn1: nat, vn0: nat, q: nat, rhat: nat)
    requires v == vn1 * B32 + vn0 && un == q * vn1 + rhat && rhat < vn1 && d < B32
    ensures un * B32 + d < (q + 1) * v
  {
    assert (q + 1) * v == (q + 1) * vn1 * B32 + (q + 1) * vn0;
    MulGe(vn0, q + 1, 0);
    assert (q + 1) * vn1 == un - rhat + vn1;
    MulGe(B32, (q + 1) * vn1, un + 1);
  }

  lemma {:induction false} WrappedRemainder(un: nat, d: nat, v: nat, q: nat)
    requires v < B64 && q * v <= un * B32 + d < (q + 1) * v
    ensures var rem := Wrap64(un * B32 + d - q * v); un * B32 + d == q * v + rem && rem < v
  {
    assert (q + 1) * v == q * v + v;
    assert 0 <= un * B32 + d - q * v < B64;
  }

  /** Unsigned 64-bit reduction. */
  function Wrap64(x: int): (w: nat)
    ensures w < B64
    ensures 0 <= x < B64 ==> w == x
  {
    x % B64
  }

  /** q and rhat split un by vn1, and q is not below the true digit. */
  ghost predicate Estimate(un: nat, d: nat, v: nat, vn1: nat, q: int, rhat: int) {
    un == q * vn1 + rhat && un * B32 + d < (q + 1) * v
  }

  /** The C loop test, with the wrap-around of both products written out. */
  predicate MustLower(q: nat, vn0: nat, rhat: nat, d: nat) {
    q >= B32 || Wrap64(q * vn0) > Wrap64(B32 * rhat + d)
  }

  ghost predicate Digits(v: nat, vn1: nat, vn0: nat, un: nat, d: nat) {
    B63 <= v < B64 && v == vn1 * B32 + vn0 && vn0 < B32 && un < v && d < B32
  }

  lemma {:induction false} ShowDigits(v: nat, vn1: nat, vn0: nat, un: nat, d: nat)
    requires B63 <= v < B64 && v == vn1 * B32 + vn0 && vn0 < B32 && un < v && d < B32
    ensures Digits(v, vn1, vn0, un, d)
  {
  }

  /** The first guess at the digit. */
  function Guess(un: nat, vn1: nat): nat
    requires vn1 > 0
  {
    QuotientNat(un, vn1);
    un / vn1
  }

  /** What the guess leaves of un, in word arithmetic. */
  function GuessRest(un: nat, q: nat, vn1: nat): nat {
    Wrap64(un - Wrap64(q * vn1))
  }

  /** The partial remainder, in word arithmetic. */
  function PartialRest(un: nat, d: nat, q: nat, v: nat): nat {
    Wrap64(Wrap64(un * B32) + d - Wrap64(q * v))
  }

  lemma {:induction false} LeadingDigit(v: nat, vn1: nat, vn0: nat, un: nat, d: nat)
    requires Digits(v, vn1, vn0, un, d)
    ensures 0x8000_0000 <= vn1 < B32
  {
  }

  lemma {:induction false} FirstEstimate(un: nat, d: nat, v: nat, vn1: nat, vn0: nat)
    requires Digits(v, vn1, vn0, un, d) && vn1 > 0
    ensures var q := Guess(un, vn1); var rhat := GuessRest(un, q, vn1);
            Estimate(un, d, v, vn1, q, rhat) && rhat < vn1
  {
    WordDivMod(un, vn1);
    EstimateAbove(un, d, v, vn1, vn0, un / vn1, un % vn1);
  }

  /** The remainder computed by a multiply and a subtract in word arithmetic. */
  lemma {:induction false} WordDivMod(n: nat, m: nat)
    requires 0 < m && n < B64
    ensures n / m >= 0 && n == (n / m) * m + n % m
    ensures Wrap64(n - Wrap64((n / m) * m)) == n % m < m
  {
    hide Wrap64;
    DivModOf(n, m);
    QuotientNat(n, m);
  }

  lemma {:induction false} LowerEstimate(un: nat, d: nat, v: nat, vn1: nat, vn0: nat, q: nat, rhat: nat)
    requires Digits(v, vn1, vn0, un, d)
    requires Estimate(un, d, v, vn1, q, rhat) && rhat < B32 && MustLower(q, vn0, rhat, d)
    ensures q > 0 && Estimate(un, d, v, vn1, q - 1, rhat + vn1)
  {
    if q >= B32 {
      DigitBelowBase(un, d, v, q);
    } else {
      ProductFits(q, vn0, rhat, d);
      EstimateTooBig(un, d, v, vn1, vn0, q, rhat);
    }
    assert (q - 1) * vn1 == q * vn1 - vn1;
  }

  lemma {:induction false} FinalEstimate(un: nat, d: nat, v: nat, vn1: nat, vn0: nat, q: nat, rhat: nat)
    requires Digits(v, vn1, vn0, un, d)
    requires Estimate(un, d, v, vn1, q, rhat) && (rhat >= B32 || !MustLower(q, vn0, rhat, d))
    ensures IsDigitOf(un, d, v, q, PartialRest(un, d, q, v))
  {
    if rhat >= B32 {
      BrokenEstimateNotTooBig(un, d, v, vn1, vn0, q, rhat);
    } else {
      ProductFits(q, vn0, rhat, d);
      EstimateNotTooBig(un, d, v, vn1, vn0, q, rhat);
    }
    WrappedRemainder(un, d, v, q);
    WrapOfParts(un * B32, d, q * v);
  }

  /**
   * One digit of Algorithm D: estimate from the leading divisor digit, then correct
   * downwards. The products are formed only while q < b and rhat < b, so they do not wrap;
   * the last subtraction does wrap, and still delivers the true partial remainder.
   */
  method QuotientDigit(un: nat, d: nat, v: nat, vn1: nat, vn0: nat)
      returns (q: nat, rem: nat, ghost corrections: nat)
    requires B63 <= v < B64 && v == vn1 * B32 + vn0 && vn0 < B32
    requires un < v && d < B32
    ensures IsDigitOf(un, d, v, q, rem)
    ensures corrections <= 2
  {
    hide Estimate, MustLower, IsDigitOf, Digits, Wrap64, Guess, GuessRest, PartialRest;
    assert Digits(v, vn1, vn0, un, d) by { ShowDigits(v, vn1, vn0, un, d); }
    LeadingDigit(v, vn1, vn0, un, d);
    FirstEstimate(un, d, v, vn1, vn0);
    q := Guess(un, vn1);
    var rhat: nat := GuessRest(un, q, vn1);
    corrections := 0;
    while MustLower(q, vn0, rhat, d)
      invariant Estimate(un, d, v, vn1, q, rhat) && rhat < B32
      invariant corrections == 0 || (corrections == 1 && vn1 <= rhat)
      decreases q
    {
      LowerEstimate(un, d, v, vn1, vn0, q, rhat);
      q := q - 1;
      rhat := Wrap64(rhat + vn1);
      corrections := corrections + 1;
      if rhat >= B32 { break; }
    }
    FinalEstimate(un, d, v, vn1, vn0, q, rhat);
    rem := PartialRest(un, d, q, v);
  }

  lemma {:induction false} WrapOfParts(x: int, d: int, y: int)
    ensures Wrap64(Wrap64(x) + d - Wrap64(y)) == Wrap64(x + d - y)
  {
    var i, j := x / B64, y / B64;
    assert x == i * B64 + x % B64 && y == j * B64 + y % B64;
    var z := Wrap64(x) + d - Wrap64(y);
    assert x + d - y == z + (i - j) * B64;
  }

  lemma {:induction false} DivModOf(n: nat, m: nat)
    requires 0 < m && n < B64
    ensures n == (n / m) * m + n % m && n % m < m && (n / m) * m < B64
  {
  }

  lemma {:induction false} ProductFits(q: nat, vn0: nat, rhat: nat, d: nat)
    requires q < B32 && vn0 < B32 && rhat < B32 && d < B32
    ensures q * vn0 < B64 && B32 * rhat + d < B64
  {
    MulGe(q, B32, vn0);
    MulGe(B32, B32, q);
  }

  // ---------- 128 by 64 bits ----------

  /** `hi | lo` where hi has its s low bits clear and lo has only those: no carry, so a sum. */
  function OrDisjoint(hi: nat, lo: nat, s: nat): (w: nat)
    requires hi % Pow2(s) == 0 && lo < Pow2(s)
    ensures w == hi + lo
  {
    hi + lo
  }

  /** Splitting u0 << s into the bits that leave the word and the bits that stay. */
  lemma {:induction false} ShiftSplit(u0: nat, s: nat)
    requires 0 < s < 64 && u0 < B64
    ensures var hi := u0 / Pow2(64 - s);
            hi < Pow2(s) && u0 * Pow2(s) == hi * B64 + Wrap64(u0 * Pow2(s))
  {
    Pow2Of64();
    Pow2Add(64 - s, s);
    ScaleSplit(u0, Pow2(64 - s), Pow2(s));
  }

  lemma {:induction false} ScaleSplit(u0: nat, c: nat, p: nat)
    requires u0 < B64 && c > 0 && p > 0 && c * p == B64
    ensures 0 <= u0 / c < p && u0 * p == (u0 / c) * B64 + Wrap64(u0 * p)
  {
    QuotientNat(u0, c);
    var hi, lo := u0 / c, u0 % c;
    assert u0 == hi * c + lo && lo < c;
    assert hi < p by { MulLtCancel(c, hi, p); }
    ScaleParts(hi, c, lo, p);
    WrapUnique(u0 * p, hi, lo * p);
  }

  lemma {:induction false} ScaleParts(hi: nat, c: nat, lo: nat, p: nat)
    requires c * p == B64 && lo < c && p > 0
    ensures (hi * c + lo) * p == hi * B64 + lo * p && lo * p < B64
  {
    assert (hi * c + lo) * p == hi * (c * p) + lo * p;
    LtScale(p, lo, c);
  }

  lemma {:induction false} WrapUnique(x: nat, hi: nat, lo: nat)
    requires x == hi * B64 + lo && lo < B64
    ensures Wrap64(x) == lo
  {
  }

  /** `x << s` in a 64-bit word. */
  function ShiftLeft64(x: nat, s: nat): (w: nat)
    ensures w < B64
  {
    Wrap64(x * Pow2(s))
  }

  function ShiftRight(x: nat, s: nat): (w: nat) {
    QuotientNat(x, Pow2(s));
    x / Pow2(s)
  }

  ghost predicate Normalised(u1: nat, u0: nat, v: nat, s: nat, un64: nat, un10: nat, vn: nat) {
    && vn == v * Pow2(s) && B63 <= vn < B64
    && un64 < vn && un10 < B64
    && (u1 * B64 + u0) * Pow2(s) == un64 * B64 + un10
  }

  lemma {:induction false} NormaliseShifted(u1: nat, u0: nat, v: nat, s: nat)
    requires u1 < v < B64 && u0 < B64 && 0 < s < 64 && B63 <= v * Pow2(s) < B64
    ensures ShiftLeft64(u1, s) % Pow2(s) == 0 && ShiftRight(u0, 64 - s) < Pow2(s)
    ensures Normalised(u1, u0, v, s, ShiftLeft64(u1, s) + ShiftRight(u0, 64 - s),
                       ShiftLeft64(u0, s), ShiftLeft64(v, s))
  {
    hide Pow2;
    ShiftSplit(u0, s);
    ScaledBelow(u1, v, Pow2(s), u0 / Pow2(64 - s));
    assert Wrap64(u1 * Pow2(s)) == u1 * Pow2(s);
    MultipleMod(u1, Pow2(s));
    ScaledSum(u1, u0, Pow2(s), u0 / Pow2(64 - s), Wrap64(u0 * Pow2(s)));
  }

  lemma {:induction false} ScaledBelow(u1: nat, v: nat, p: nat, hi: nat)
    requires u1 < v && hi < p
    ensures u1 * p + hi < v * p
  {
    MulGe(p, v, u1 + 1);
    assert (u1 + 1) * p == u1 * p + p;
  }

  lemma {:induction false} ScaledSum(u1: nat, u0: nat, p: nat, hi: nat, lo: nat)
    requires u0 * p == hi * B64 + lo
    ensures (u1 * B64 + u0) * p == (u1 * p + hi) * B64 + lo
  {
    assert (u1 * B64 + u0) * p == (u1 * p) * B64 + u0 * p;
  }

  lemma {:induction false} NormaliseUnshifted(u1: nat, u0: nat, v: nat)
    requires u1 < v < B64 && u0 < B64 && B63 <= v * Pow2(0)
    ensures Normalised(u1, u0, v, 0, u1, u0, v)
  {
    assert Pow2(0) == 1;
  }

  /** The two digits together divide the normalised operands. */
  lemma {:induction false} TwoDigits(un64: nat, un10: nat, vn: nat, q1: nat, un21: nat, q0: nat, rem: nat)
    requires un10 < B64
    requires IsDigitOf(un64, un10 / B32, vn, q1, un21)
    requires IsDigitOf(un21, un10 % B32, vn, q0, rem)
    ensures un64 * B64 + un10 == (q1 * B32 + q0) * vn + rem && rem < vn
    ensures q1 * B32 + q0 < B64
  {
    var d1, d0 := un10 / B32, un10 % B32;
    assert un10 == d1 * B32 + d0;
    assert un64 * B64 + un10 == (un64 * B32 + d1) * B32 + d0;
    assert (q1 * vn + un21) * B32 + d0 == (q1 * vn) * B32 + (un21 * B32 + d0);
    assert (q1 * B32 + q0) * vn == (q1 * vn) * B32 + q0 * vn;
  }

  /** Undoing the normalisation: the quotient is unchanged and the remainder scales back. */
  lemma {:induction false} Denormalise(n: nat, v: nat, p: nat, q: nat, rem: nat)
    requires p > 0 && n * p == q * (v * p) + rem && rem < v * p
    ensures n == q * v + rem / p && rem / p < v
  {
    var r := n - q * v;
    RemainderScales(n, v, p, q, rem);
    MultipleMod(r, p);
    MulLtCancel(p, r, v);
  }

  lemma {:induction false} RemainderScales(n: nat, v: nat, p: nat, q: nat, rem: nat)
    requires p > 0 && n * p == q * (v * p) + rem
    ensures (n - q * v) * p == rem && n - q * v >= 0
  {
    var r := n - q * v;
    assert (q * v) * p == q * (v * p);
    assert r * p == n * p - (q * v) * p;
    if r <= -1 { MulGe(p, -1, r); }
  }

  lemma {:induction false} NormalisedBounds(u1: nat, u0: nat, v: nat, s: nat, un64: nat, un10: nat, vn: nat)
    requires Normalised(u1, u0, v, s, un64, un10, vn)
    ensures B63 <= vn < B64 && un64 < vn && un10 < B64
  {
  }

  lemma {:induction false} RemainderBelow(un: nat, d: nat, v: nat, q: nat, rem: nat)
    requires IsDigitOf(un, d, v, q, rem)
    ensures rem < v
  {
  }

  lemma {:induction false} Reassemble(u1: nat, u0: nat, v: nat, s: nat, un64: nat, un10: nat, vn: nat,
                   q1: nat, un21: nat, q0: nat, rem: nat)
    requires Normalised(u1, u0, v, s, un64, un10, vn)
    requires IsDigitOf(un64, un10 / B32, vn, q1, un21) && IsDigitOf(un21, un10 % B32, vn, q0, rem)
    ensures var q, r := Wrap64(q1 * B32 + q0), ShiftRight(rem, s);
            u1 * B64 + u0 == q * v + r && r < v
  {
    hide Pow2, IsDigitOf;
    TwoDigits(un64, un10, vn, q1, un21, q0, rem);
    Denormalise(u1 * B64 + u0, v, Pow2(s), q1 * B32 + q0, rem);
  }

  /**
   * `udiv128by64to64default`: exact quotient and remainder of u1*2^64+u0 by v
   * whenever the quotient fits one word, that is, whenever u1 < v.
   */
  method Udiv128By64To64(u1: nat, u0: nat, v: nat) returns (q: nat, r: nat)
    requires u1 < v < B64 && u0 < B64
    ensures u1 * B64 + u0 == q * v + r && r < v
    ensures q < B64
  {
    hide Pow2, Normalised, IsDigitOf, ShiftLeft64, ShiftRight;
    var s := LeadingZeros(v);
    var un64, un10, vn := u1, u0, v;
    if s > 0 {
      NormaliseShifted(u1, u0, v, s);
      vn := ShiftLeft64(v, s);
      un64 := OrDisjoint(ShiftLeft64(u1, s), ShiftRight(u0, 64 - s), s);
      un10 := ShiftLeft64(u0, s);
    } else {
      NormaliseUnshifted(u1, u0, v);
    }
    assert Normalised(u1, u0, v, s, un64, un10, vn);
    NormalisedBounds(u1, u0, v, s, un64, un10, vn);
    var vn1, vn0 := vn / B32, vn % B32;
    var un1, un0 := un10 / B32, un10 % B32;
    var q1, un21, n1 := QuotientDigit(un64, un1, vn, vn1, vn0);
    assert un21 < vn by { RemainderBelow(un64, un1, vn, q1, un21); }
    var q0, rem, n0 := QuotientDigit(un21, un0, vn, vn1, vn0);
    q, r := Wrap64(q1 * B32 + q0), ShiftRight(rem, s);
    Reassemble(u1, u0, v, s, un64, un10, vn, q1, un21, q0, rem);
  }

  // ---------- 128 by 128 bits ----------

  function Wrap128(x: int): (w: nat)
    ensures w < B128
    ensures 0 <= x < B128 ==> w == x
  {
    x % B128
  }

  /** `(ti_int)(divisor - dividend - 1) >> 127`: all ones (-1) or zero. */
  function SignMask(divisor: nat, dividend: nat): (mask: int)
    requires divisor < B128 && dividend < B128
    ensures mask == -1 || mask == 0
  {
    if Wrap128(divisor - dividend - 1) >= B127 then -1 else 0
  }

  /** Operands closer than half the word range: then the sign bit is the comparison. */
  ghost predicate Aligned(divisor: nat, dividend: nat) {
    dividend < divisor + B127 && divisor <= dividend + B127
  }

  lemma {:induction false} SignMaskCompares(divisor: nat, dividend: nat)
    requires divisor < B128 && dividend < B128 && Aligned(divisor, dividend)
    ensures SignMask(divisor, dividend) == if dividend >= divisor then -1 else 0
  {
    var d := divisor - dividend - 1;
    if dividend >= divisor {
      assert Wrap128(d) == d + B128;
    }
  }

  /** Without the alignment the trick is wrong: a huge divisor would be subtracted from zero. */
  lemma {:induction false} SignMaskNeedsAlignment(divisor: nat, dividend: nat)
    requires divisor < B128 && dividend < B128
    ensures (SignMask(divisor, dividend) == -1 <==> dividend >= divisor) <==> Aligned(divisor, dividend)
  {
    var d := divisor - dividend - 1;
    if dividend >= divisor {
      assert Wrap128(d) == d + B128;
    }
  }

  ghost predicate DivState(a: nat, b: nat, q: nat, dividend: nat, p: nat) {
    a == q * (b * p) + dividend && dividend < b * p
  }

  lemma {:induction false} SubtractStep(a: nat, b: nat, q: nat, dividend: nat, p: nat)
    requires DivState(a, b, q, dividend, 2 * p)
    ensures dividend >= b * p ==> DivState(a, b, 2 * q + 1, dividend - b * p, p)
    ensures dividend < b * p ==> DivState(a, b, 2 * q, dividend, p)
  {
    assert b * (2 * p) == 2 * (b * p);
    assert q * (2 * (b * p)) == (2 * q) * (b * p);
    assert (2 * q + 1) * (b * p) == (2 * q) * (b * p) + b * p;
  }

  lemma {:induction false} QuotientFits(a: nat, b: nat, q: nat, dividend: nat, p: nat)
    requires DivState(a, b, q, dividend, p) && a < B128 && b >= B64 && p >= 1
    ensures q < B64
  {
    MulGe(b, p, 1);
    if q >= B64 {
      MulGe(b * p, q, B64);
      MulGe(B64, b * p, B64);
    }
  }

  lemma {:induction false} HalveDivisor(b: nat, p: nat)
    ensures (b * (2 * p)) / 2 == b * p
  {
    assert b * (2 * p) == 2 * (b * p);
  }

  /** Shifting out the high word's leading zeros brings the leading bit to position 127. */
  lemma {:induction false} LeadingBitAtTop(n: nat, z: nat)
    requires B64 <= n < B128 && z < 64
    requires B63 <= (n / B64) * Pow2(z) < B64
    ensures B127 <= n * Pow2(z) < B128
  {
    hide Pow2;
    Pow2Of64();
    Pow2Add(z, 64 - z);
    TopBounds(n, n / B64, Pow2(z), Pow2(64 - z));
  }

  lemma {:induction false} TopBounds(n: nat, h: nat, p: nat, c: nat)
    requires h * B64 <= n < (h + 1) * B64 && p * c == B64 && p > 0
    requires B63 <= h * p < B64
    ensures B127 <= n * p < B128
  {
    MulGe(p, n, h * B64);
    assert (h * B64) * p == (h * p) * B64;
    MulLtCancel(p, h, c);
    MulGe(p, c, h + 1);
    MulGe(B64, p * c, (h + 1) * p);
    assert ((h + 1) * B64) * p == ((h + 1) * p) * B64;
    LtScale(p, n, (h + 1) * B64);
  }

  lemma {:induction false} ShiftNotNegative(a: nat, b: nat, za: nat, zb: nat)
    requires b <= a && B127 <= b * Pow2(zb) && a * Pow2(za) < B128
    ensures zb >= za
  {
    hide Pow2;
    if zb < za {
      Pow2Add(zb, za - zb);
      Pow2AtLeast2(za - zb);
      Doubled(a, b, Pow2(zb), Pow2(za - zb));
      assert false;
    }
  }

  lemma {:induction false} Doubled(a: nat, b: nat, x: nat, y: nat)
    requires b <= a && y >= 2
    ensures a * (x * y) >= 2 * (b * x)
  {
    MulGe(x, y, 2);
    MulGe(a, x * y, 2 * x);
    MulGe(2 * x, a, b);
    assert b * (2 * x) == 2 * (b * x);
  }

  lemma {:induction false} AlignedFromTop(x: nat, y: nat, p: nat)
    requires p > 0 && B127 <= x * p < B128 && B127 <= y * p < B128
    ensures x < B128 && Aligned(x, y) && y < 2 * x
  {
    MulGe(x, p, 1);
    MulGe(y, p, 1);
    assert (x - y) * p == x * p - y * p;
    if x - y >= B127 + 1 { MulGe(x - y, p, 1); assert false; }
    assert (y - x) * p == y * p - x * p;
    if y - x >= B127 { MulGe(y - x, p, 1); assert false; }
    assert (2 * x) * p == 2 * (x * p);
    if y >= 2 * x { MulGe(p, y, 2 * x); assert false; }
  }

  /** The initial shift aligns the leading bits and loses none of them. */
  lemma {:induction false} InitialShift(a: nat, b: nat)
    requires B64 <= b <= a < B128
    ensures var shift := LeadingZeros(b / B64) - LeadingZeros(a / B64);
            0 <= shift < 64 && b * Pow2(shift) < B128 && Aligned(b * Pow2(shift), a)
            && DivState(a, b, 0, a, 2 * Pow2(shift))
  {
    hide Pow2, LeadingZeros;
    var zb, za := LeadingZeros(b / B64), LeadingZeros(a / B64);
    LeadingBitAtTop(a, za);
    LeadingBitAtTop(b, zb);
    ShiftNotNegative(a, b, za, zb);
    Pow2Add(zb - za, za);
    ShiftedState(a, b, Pow2(zb - za), Pow2(za));
  }

  lemma {:induction false} ShiftedState(a: nat, b: nat, p: nat, pa: nat)
    requires pa > 0 && B127 <= b * (p * pa) < B128 && B127 <= a * pa < B128
    ensures b * p < B128 && Aligned(b * p, a) && DivState(a, b, 0, a, 2 * p)
  {
    assert (b * p) * pa == b * (p * pa);
    AlignedFromTop(b * p, a, pa);
    assert b * (2 * p) == 2 * (b * p);
  }

  /** After the first subtraction the divisor has left the top bit, which keeps the operands aligned. */
  lemma {:induction false} StaysAligned(b: nat, p: nat, dividend: nat)
    requires b * (2 * p) < B128 && dividend < b * (2 * p)
    ensures Aligned(b * p, dividend)
  {
    assert b * (2 * p) == 2 * (b * p);
  }

  /** `divisor & mask` for a mask of all ones or zero. */
  function Masked(divisor: nat, mask: int): (w: nat)
    requires mask == -1 || mask == 0
    ensures w == if mask == -1 then divisor else 0
  {
    if mask == 0 then 0 else divisor
  }

  /** `(low << 1) | (mask & 1)`: the shifted word's low bit is clear, so the or is a sum. */
  function ShiftInBit(q: nat, mask: int): (w: nat)
    requires mask == -1 || mask == 0
  {
    Wrap64(2 * q) + (if mask == 0 then 0 else 1)
  }

  /** One step: the masked update is exactly compare-and-subtract, and no quotient bit is lost. */
  lemma {:induction false} LoopStep(a: nat, b: nat, q: nat, dividend: nat, p: nat)
    requires a < B128 && b >= B64 && p >= 1 && b * p < B128 && q < B64 && dividend < B128
    requires DivState(a, b, q, dividend, 2 * p) && Aligned(b * p, dividend)
    ensures var mask := SignMask(b * p, dividend);
            var left := Wrap128(dividend - Masked(b * p, mask));
            DivState(a, b, ShiftInBit(q, mask), left, p) && ShiftInBit(q, mask) < B64
  {
    SignMaskCompares(b * p, dividend);
    SubtractStep(a, b, q, dividend, p);
    if dividend >= b * p {
      QuotientFits(a, b, 2 * q + 1, dividend - b * p, p);
    } else {
      QuotientFits(a, b, 2 * q, dividend, p);
    }
  }

  /** Halving p: the divisor follows, and having left the top bit it stays aligned with the dividend. */
  lemma {:induction false} NextDivisor(a: nat, b: nat, q: nat, dividend: nat, p: nat)
    requires DivState(a, b, q, dividend, 2 * p) && b * (2 * p) < B128
    ensures (b * (2 * p)) / 2 == b * p && b * p < B128 && Aligned(b * p, dividend)
  {
    HalveDivisor(b, p);
    StaysAligned(b, p, dividend);
  }

  /** The divisor shifted into place, in a 128-bit word. */
  function ShiftLeft(b: nat, shift: nat): nat {
    Wrap128(b * Pow2(shift))
  }

  /** Between two steps of the loop, with `shift + 1` quotient bits still to come. */
  ghost predicate Shifting(a: nat, b: nat, q: nat, dividend: nat, divisor: nat, shift: int) {
    && -1 <= shift < 64 && dividend < B128 && q < B64
    && DivState(a, b, q, dividend, Pow2(shift + 1))
    && (shift >= 0 ==> divisor == b * Pow2(shift) && divisor < B128 && Aligned(divisor, dividend))
  }

  lemma {:induction false} ShiftingStarts(a: nat, b: nat)
    requires B64 <= b <= a < B128
    ensures var shift := LeadingZeros(b / B64) - LeadingZeros(a / B64);
            0 <= shift && Shifting(a, b, 0, a, ShiftLeft(b, shift), shift)
  {
    hide Pow2, LeadingZeros, DivState, Aligned;
    InitialShift(a, b);
    Pow2Step(LeadingZeros(b / B64) - LeadingZeros(a / B64) + 1);
  }

  lemma {:induction false} ShiftingOn(a: nat, b: nat, q: nat, dividend: nat, divisor: nat, shift: nat)
    requires a < B128 && b >= B64 && Shifting(a, b, q, dividend, divisor, shift)
    ensures divisor < B128 && dividend < B128
    ensures var mask := SignMask(divisor, dividend);
            Shifting(a, b, ShiftInBit(q, mask), Wrap128(dividend - Masked(divisor, mask)), divisor / 2, shift - 1)
  {
    hide Pow2, DivState, Aligned, SignMask, ShiftInBit, Masked;
    Pow2Step(shift + 1);
    LoopStep(a, b, q, dividend, Pow2(shift));
    var mask := SignMask(divisor, dividend);
    var left := Wrap128(dividend - Masked(divisor, mask));
    hide Wrap128;
    if shift > 0 {
      Pow2Step(shift);
      NextDivisor(a, b, ShiftInBit(q, mask), left, Pow2(shift - 1));
    }
  }

  lemma {:induction false} ShiftingEnds(a: nat, b: nat, q: nat, r: nat, divisor: nat)
    requires Shifting(a, b, q, r, divisor, -1)
    ensures a == q * b + r && r < b && q < B64
  {
  }

  /** The shift/subtract loop: one quotient bit per step, chosen by the sign mask alone. */
  method ShiftSubtract(a: nat, b: nat) returns (q: nat, r: nat)
    requires B64 <= b <= a < B128
    ensures a == q * b + r && r < b
    ensures q < B64
  {
    hide Shifting, ShiftLeft, LeadingZeros, SignMask, ShiftInBit, Wrap128, Masked;
    ShiftingStarts(a, b);
    var shift: int := LeadingZeros(b / B64) - LeadingZeros(a / B64);
    var divisor: nat, dividend: nat := ShiftLeft(b, shift), a;
    q := 0;
    while shift >= 0
      invariant -1 <= shift && Shifting(a, b, q, dividend, divisor, shift)
    {
      ShiftingOn(a, b, q, dividend, divisor, shift);
      var mask := SignMask(divisor, dividend);
      q := ShiftInBit(q, mask);
      dividend := Wrap128(dividend - Masked(divisor, mask));
      divisor := divisor / 2;
      shift := shift - 1;
    }
    r := dividend;
    ShiftingEnds(a, b, q, r, divisor);
  }

  /**
   * `__udivmodti4`: for every dividend and every non-zero divisor, the quotient and the
   * remainder. (A zero divisor is undefined behaviour in the source.)
   */
  method Udivmodti4(a: nat, b: nat) returns (q: nat, r: nat)
    requires a < B128 && 0 < b < B128
    ensures a == q * b + r && r < b
    ensures q < B128
  {
    if b > a {
      return 0, a;
    }
    if b / B64 == 0 {
      var high, low := a / B64, a % B64;
      if high < b {
        q, r := Udiv128By64To64(high, low, b);
      } else {
        var qh := high / b;
        var qlow;
        qlow, r := Udiv128By64To64(high % b, low, b);
        q := qh * B64 + qlow;
        HighThenLow(a, high, low, b, qlow, r);
      }
      return;
    }
    q, r := ShiftSubtract(a, b);
  }

  lemma {:induction false} HighThenLow(a: nat, high: nat, low: nat, b: nat, qlow: nat, r: nat)
    requires a == high * B64 + low && b > 0 && high < B64 && qlow < B64
    requires (high % b) * B64 + low == qlow * b + r
    ensures a == ((high / b) * B64 + qlow) * b + r && (high / b) * B64 + qlow < B128
  {
    DivModOf(high, b);
    var qh := high / b;
    assert (qh * B64 + qlow) * b == (qh * b) * B64 + qlow * b;
    assert qh <= high by { MulGe(qh, b, 1); }
  }

  /** The contract pins the result: no other pair satisfies it. */
  lemma {:induction false} DivisionUnique(a: nat, b: nat, q: nat, r: nat)
    requires a == q * b + r && r < b
    ensures q == a / b && r == a % b
  {
    var q', r' := a / b, a % b;
    assert a == q' * b + r';
    assert (q - q') * b == r' - r;
    if q - q' >= 1 { MulGe(b, q - q', 1); } else if q - q' <= -1 { MulGe(b, -1, q - q'); }
  }
}
