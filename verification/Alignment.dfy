// The alignment arithmetic of internal_memalign (src/runtime/dlmalloc/malloc.c:4896-4935).

module Alignment {
  import opened Powers
  import opened BinMaps

  ghost predicate PowerOfTwo(a: nat) {
    exists k: nat :: a == Pow2(k)
  }

  lemma {:induction false} AndSelf(x: nat)
    ensures And(x, x) == x
  {
    if x != 0 { AndSelf(x / 2); }
  }

  lemma {:induction false} HalfPower(b: nat)
    ensures PowerOfTwo(2 * b) <==> PowerOfTwo(b)
  {
    if PowerOfTwo(b) {
      var k: nat :| b == Pow2(k);
      assert 2 * b == Pow2(k + 1);
    }
    if PowerOfTwo(2 * b) {
      var k: nat :| 2 * b == Pow2(k);
      assert k > 0 && b == Pow2(k - 1);
    }
  }

  lemma {:induction false} Pow2Even(k: nat)
    ensures Pow2(k) == 1 || (k > 0 && Pow2(k) == 2 * Pow2(k - 1))
  {
    if k == 0 {
      assert Pow2(0) == 1;
    } else {
      Pow2Step(k);
    }
  }

  lemma {:induction false} HalfWord()
    ensures Pow2(31) == 0x8000_0000
  {
    hide Pow2;
    WordPow();
    Pow2Step(32);
  }

  lemma {:induction false} AndBelowEven(b: nat)
    requires b > 0
    ensures And(2 * b, 2 * b - 1) == 2 * And(b, b - 1)
  {
    assert 2 * b / 2 == b && (2 * b - 1) / 2 == b - 1 && 2 * b % 2 == 0;
  }

  lemma {:induction false} AndBelowOdd(b: nat)
    requires b > 0
    ensures And(2 * b + 1, 2 * b) == 2 * b
  {
    assert (2 * b + 1) / 2 == b && 2 * b / 2 == b && 2 * b % 2 == 0;
    AndSelf(b);
  }

  lemma {:induction false} OddNoPower(b: nat)
    requires b > 0
    ensures !PowerOfTwo(2 * b + 1)
  {
    if PowerOfTwo(2 * b + 1) {
      hide Pow2;
      var k: nat :| 2 * b + 1 == Pow2(k);
      Pow2Even(k);
    }
  }

  /** `(a & (a - 1)) == 0` tests for a power of two. */
  lemma {:induction false} PowerTest(a: nat)
    requires a > 0
    ensures And(a, a - 1) == 0 <==> PowerOfTwo(a)
  {
    if a == 1 {
      assert a == Pow2(0);
    } else {
      hide And, PowerOfTwo;
      var b := a / 2;
      if a == 2 * b {
        PowerTest(b);
        AndBelowEven(b);
        HalfPower(b);
      } else {
        AndBelowOdd(b);
        OddNoPower(b);
      }
    }
  }

  /** A power of two of at least 16 is a multiple of 8; below 2^32 it is at most 2^31. */
  lemma {:induction false} PowerFacts(a: nat)
    requires PowerOfTwo(a)
    ensures a > 0 && (a >= 16 ==> a % 8 == 0) && (a < W ==> a <= 0x8000_0000)
    ensures a < 16 ==> a == 1 || a == 2 || a == 4 || a == 8
  {
    var k: nat :| a == Pow2(k);
    WordPow();
    if k >= 4 {
      Pow2Add(4, k - 4);
      MultipleOf8(Pow2(k - 4));
    } else {
      assert k == 0 || k == 1 || k == 2 || k == 3;
    }
    if a < W && k >= 32 { Pow2Below(32, k); }
    if k < 31 { Pow2Below(k, 31); }
    HalfWord();
  }

  lemma {:induction false} MultipleOf8(x: nat)
    ensures 16 * x % 8 == 0
  {
  }

  /** The doubling loop: the least power of two, from 16 on, that is no less than the alignment. */
  method RoundToPower(alignment: nat) returns (a: nat)
    requires 16 <= alignment <= 0x8000_0000
    ensures PowerOfTwo(a) && alignment <= a <= 0x8000_0000
    ensures forall k: nat :: Pow2(k) >= alignment ==> a <= Pow2(k)
  {
    a := 16;
    ghost var k: nat := 4;
    assert Pow2(4) == 16;
    HalfWord();
    while a < alignment
      invariant a == Pow2(k) && 4 <= k <= 31 && a / 2 < alignment
      decreases alignment - a
    {
      if k == 31 { assert false; }
      k := k + 1;
      a := 2 * a % W;
      Pow2Monotone(k, 31);
    }
    forall j: nat | Pow2(j) >= alignment
      ensures a <= Pow2(j)
    {
      if j < k { Pow2Monotone(j, k - 1); }
      if k <= j { Pow2Monotone(k, j); }
    }
  }

  lemma {:induction false} Pow2Monotone(i: nat, j: nat)
    requires i <= j
    ensures Pow2(i) <= Pow2(j)
  {
    if i < j { Pow2Monotone(i, j - 1); }
  }

  /** a after n rounds of `a <<= 1` on a 32-bit word, from 16. */
  function Doubled(n: nat): nat {
    if n == 0 then 16 else 2 * Doubled(n - 1) % W
  }

  lemma {:induction false} DoubledIs(n: nat)
    ensures Doubled(n) == if n <= 27 then Pow2(n + 4) else 0
  {
    if n == 0 {
      assert Pow2(4) == 16;
    } else {
      hide Pow2;
      DoubledIs(n - 1);
      WordPow();
      Pow2Step(n + 4);
      if n <= 27 { Pow2Below(n + 4, 32); }
      ShiftWord(Doubled(n - 1));
    }
  }

  lemma {:induction false} ShiftWord(d: nat)
    ensures 2 * d < W ==> 2 * d % W == 2 * d
    ensures 2 * d == W ==> 2 * d % W == 0
  {
  }

  /** The loop ends if and only if the alignment is at most 2^31: above that the word wraps to 0 and stays there. */
  lemma {:induction false} RoundingEndsIff(alignment: nat)
    requires 16 <= alignment < W
    ensures (exists n: nat :: Doubled(n) >= alignment) <==> alignment <= 0x8000_0000
  {
    hide Pow2, Doubled;
    DoubledIs(27);
    HalfWord();
    if n: nat :| Doubled(n) >= alignment {
      DoubledIs(n);
      if n <= 27 { Pow2Monotone(n + 4, 31); }
    }
  }

  /** `(x + a - 1) & -a` for a power of two a. */
  function AlignUp(x: nat, a: nat): nat
    requires a > 0
  {
    (x + a - 1) / a * a
  }

  lemma {:induction false} AlignUpIs(x: nat, a: nat)
    requires a > 0
    ensures AlignUp(x, a) % a == 0 && x <= AlignUp(x, a) < x + a
    ensures x % a != 0 ==> x < AlignUp(x, a)
    ensures (AlignUp(x, a) + a) % a == 0
  {
    var q, r := (x + a - 1) / a, (x + a - 1) % a;
    Euclid(x + a - 1, a);
    assert q * a == x + a - 1 - r;
    MulMod(q, a);
    MulMod(q + 1, a);
    assert (q + 1) * a == q * a + a;
  }

  lemma {:induction false} Euclid(x: nat, a: nat)
    requires a > 0
    ensures x == x / a * a + x % a && 0 <= x % a < a
  {
  }

  lemma {:induction false} MulMod(q: nat, a: nat)
    requires a > 0
    ensures q * a % a == 0
  {
    if q > 0 {
      MulMod(q - 1, a);
      assert q * a == (q - 1) * a + a;
      AddMod((q - 1) * a, a);
    }
  }

  lemma {:induction false} AddMod(x: nat, a: nat)
    requires a > 0 && x % a == 0
    ensures (x + a) % a == 0
  {
    var q := x / a;
    assert x == a * q;
    assert x + a == a * (q + 1);
    QuotientIs(x + a, a, q + 1, 0);
  }

  lemma {:induction false} AlignUpLeast(start: nat, alignment: nat, o: nat)
    requires alignment > 0 && o % alignment == 0 && start <= o
    ensures AlignUp(start, alignment) <= o
  {
    AlignUpIs(start, alignment);
    var up := AlignUp(start, alignment);
    hide AlignUp;
    MultiplesApart(o, up, alignment);
  }

  /** Different multiples of a differ by at least a. */
  lemma {:induction false} MultiplesApart(x: nat, y: nat, a: nat)
    requires a > 0 && x % a == 0 && y % a == 0
    ensures x < y ==> x + a <= y
  {
    Euclid(x, a);
    Euclid(y, a);
    var k := y / a - x / a;
    assert k * a == y - x;
    Gap(k, a);
  }

  lemma {:induction false} Gap(k: int, a: nat)
    ensures k * a >= a || k * a <= 0
  {
    if k >= 1 { assert k * a >= a; } else { assert k * a <= 0; }
  }

  /** A multiple of a multiple of 8 is one. */
  lemma {:induction false} EightDivides(x: nat, a: nat)
    requires a > 0 && a % 8 == 0 && x % a == 0
    ensures x % 8 == 0
  {
    Euclid(x, a);
    EightTimes(x, x / a, a / 8);
  }

  lemma {:induction false} EightTimes(x: nat, q: nat, b: nat)
    requires x == q * (8 * b)
    ensures x % 8 == 0
  {
    assert q * (8 * b) == 8 * (q * b);
    var k := q * b;
    assert x == 8 * k;
  }

  // ---------- rounding by a mask ----------

  /** One bit of a conjunction. */
  lemma {:induction false} AndStep(x: nat, y: nat)
    ensures And(x, y) == (x % 2) * (y % 2) + 2 * And(x / 2, y / 2)
  {
  }

  lemma {:induction false} HalfWordBits(y: nat, w: nat)
    requires w > 0 && y < Pow2(w)
    ensures y / 2 < Pow2(w - 1)
  {
    Pow2Step(w);
    hide Pow2;
  }

  lemma {:induction false} AndAll(y: nat, w: nat)
    requires y < Pow2(w)
    ensures And(y, Pow2(w) - 1) == y
    decreases w
  {
    if w > 0 {
      HalfWordBits(y, w);
      AndAll(y / 2, w - 1);
      Pow2Step(w);
      hide Pow2, And;
      var m := 2 * Pow2(w - 1) - 1;
      assert m % 2 == 1 && m / 2 == Pow2(w - 1) - 1;
      AndStep(y, m);
    }
  }

  /** A mask of the bits from k on rounds down to a multiple of 2^k. */
  lemma {:induction false} MaskRounds(y: nat, w: nat, k: nat)
    requires k <= w && y < Pow2(w)
    ensures Pow2(k) <= Pow2(w) && And(y, Pow2(w) - Pow2(k)) == y / Pow2(k) * Pow2(k)
    decreases k
  {
    hide And;
    Pow2Monotone(k, w);
    if k == 0 {
      AndAll(y, w);
      assert Pow2(0) == 1;
    } else {
      HalfWordBits(y, w);
      MaskRounds(y / 2, w - 1, k - 1);
      Pow2Step(w);
      Pow2Step(k);
      hide Pow2;
      AndEvenMask(y, Pow2(w - 1) - Pow2(k - 1));
      RoundHalves(y, Pow2(k - 1));
    }
  }

  lemma {:induction false} AndEvenMask(y: nat, m: nat)
    ensures And(y, 2 * m) == 2 * And(y / 2, m)
  {
    AndStep(y, 2 * m);
    hide And;
  }

  lemma {:induction false} RoundHalves(y: nat, p: nat)
    requires p > 0
    ensures y / (2 * p) * (2 * p) == 2 * (y / 2 / p * p)
  {
    HalfThenShift(y, p);
    var q := y / 2 / p;
    assert q * (2 * p) == 2 * (q * p);
  }

  /** `AlignUp` is the source's `(x + a - 1) & ~(a - 1)` on words of w bits. */
  lemma {:induction false} AlignUpIsMask(x: nat, a: nat, w: nat)
    requires PowerOfTwo(a) && a <= Pow2(w) && x + a - 1 < Pow2(w)
    ensures a > 0 && And(x + a - 1, Pow2(w) - a) == AlignUp(x, a)
  {
    hide Pow2, And;
    var k: nat :| a == Pow2(k);
    if k > w { Pow2Below(w, k); }
    MaskRounds(x + a - 1, w, k);
  }
}
