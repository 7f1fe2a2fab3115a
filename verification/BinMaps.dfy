// The 32-bit bin maps of malloc_state and the bit tricks that search them
// (src/runtime/dlmalloc/malloc.c:2920-2966). A word is a natural number below 2^32;
// the bitwise operators are defined bit by bit and unary minus is 2^32 - x, wrapped.

module BinMaps {
  import opened Powers

  const W: nat := 0x1_0000_0000

  predicate Bit(m: nat, i: nat)
    decreases i
  {
    if i == 0 then m % 2 == 1 else Bit(m / 2, i - 1)
  }

  function And(x: nat, y: nat): (r: nat) {
    if x == 0 then 0 else (x % 2) * (y % 2) + 2 * And(x / 2, y / 2)
  }

  function Or(x: nat, y: nat): (r: nat)
    decreases x + y
  {
    if x == 0 && y == 0 then 0
    else (if x % 2 == 1 || y % 2 == 1 then 1 else 0) + 2 * Or(x / 2, y / 2)
  }

  function Negate(x: nat): (r: nat)
    requires x < W
  {
    (W - x) % W
  }

  /** `idx2bit` */
  function IdxBit(i: nat): nat {
    Pow2(i)
  }

  /** `mark_treemap`, `mark_smallmap` */
  function Mark(m: nat, i: nat): nat {
    Or(m, IdxBit(i))
  }

  /** `clear_treemap`, `clear_smallmap`: & with the complement of the bit. */
  function Clear(m: nat, i: nat): nat
    requires i < 32
  {
    WordPow();
    Pow2Below(i, 32);
    And(m, W - 1 - IdxBit(i))
  }

  /** `least_bit` */
  function LeastBit(m: nat): nat
    requires m < W
  {
    And(m, Negate(m))
  }

  /** `left_bits` */
  function LeftBits(m: nat): nat
    requires m < W
  {
    var x := (2 * m) % W;
    Or(x, Negate(x))
  }

  /** `ffs(x) - 1` */
  function Ffs(x: nat): (r: nat)
    requires x > 0
  {
    if x % 2 == 1 then 0 else 1 + Ffs(x / 2)
  }

  // ---------- bits of the operators ----------

  lemma {:induction false} WordPow()
    ensures Pow2(32) == W
  {
    hide Pow2;
    Pow2Of8();
    Pow2Add(8, 8);
    Pow2Add(16, 16);
  }

  lemma {:induction false} Pow2Below(i: nat, j: nat)
    requires i < j
    ensures Pow2(i) < Pow2(j)
    decreases j - i
  {
    if i + 1 < j { Pow2Below(i + 1, j); }
  }

  lemma {:induction false} ZeroBit(i: nat)
    ensures !Bit(0, i)
  {
    if i > 0 { ZeroBit(i - 1); }
  }

  lemma {:induction false} AndBit(x: nat, y: nat, i: nat)
    ensures Bit(And(x, y), i) <==> Bit(x, i) && Bit(y, i)
    decreases i
  {
    if x == 0 {
      ZeroBit(i);
    } else if i > 0 {
      assert And(x, y) / 2 == And(x / 2, y / 2);
      AndBit(x / 2, y / 2, i - 1);
    }
  }

  lemma {:induction false} OrBit(x: nat, y: nat, i: nat)
    ensures Bit(Or(x, y), i) <==> Bit(x, i) || Bit(y, i)
    decreases i
  {
    if x == 0 && y == 0 {
      ZeroBit(i);
    } else if i > 0 {
      assert Or(x, y) / 2 == Or(x / 2, y / 2);
      OrBit(x / 2, y / 2, i - 1);
    }
  }

  lemma {:induction false} PowBit(k: nat, i: nat)
    ensures Bit(Pow2(k), i) <==> i == k
    decreases i
  {
    if k == 0 {
      if i > 0 { ZeroBit(i - 1); }
    } else if i > 0 {
      PowBit(k - 1, i - 1);
    }
  }

  lemma {:induction false} ComplementBit(m: nat, w: nat, i: nat)
    requires i < w && m < Pow2(w)
    ensures Bit(Pow2(w) - 1 - m, i) <==> !Bit(m, i)
    decreases i
  {
    assert Pow2(w) == 2 * Pow2(w - 1);
    if i > 0 {
      assert (Pow2(w) - 1 - m) / 2 == Pow2(w - 1) - 1 - m / 2;
      ComplementBit(m / 2, w - 1, i - 1);
    }
  }

  /** Some bit of x lies below position j. */
  predicate Below(x: nat, j: nat)
    decreases j
  {
    j > 0 && (x % 2 == 1 || Below(x / 2, j - 1))
  }

  lemma {:induction false} BelowIff(x: nat, j: nat, i: nat)
    requires i < j && Bit(x, i)
    ensures Below(x, j)
    decreases i
  {
    if i > 0 { BelowIff(x / 2, j - 1, i - 1); }
  }

  /** Two's complement: bits up to the lowest one stay, the rest flip. */
  lemma {:induction false} NegateBit(x: nat, w: nat, j: nat)
    requires j < w && 0 < x < Pow2(w)
    ensures Bit(Pow2(w) - x, j) <==> Bit(x, j) != Below(x, j)
    decreases j
  {
    assert Pow2(w) == 2 * Pow2(w - 1);
    if j > 0 {
      if x % 2 == 1 {
        assert (Pow2(w) - x) / 2 == Pow2(w - 1) - 1 - x / 2;
        ComplementBit(x / 2, w - 1, j - 1);
      } else {
        assert (Pow2(w) - x) / 2 == Pow2(w - 1) - x / 2;
        NegateBit(x / 2, w - 1, j - 1);
      }
    }
  }

  lemma {:induction false} PowBelow(k: nat, j: nat)
    ensures Below(Pow2(k), j) <==> k < j
    decreases j
  {
    if j > 0 && k > 0 { PowBelow(k - 1, j - 1); }
    if j > 0 && k == 0 { assert Pow2(0) == 1; }
  }

  lemma {:induction false} FfsLowest(x: nat)
    requires x > 0
    ensures Bit(x, Ffs(x)) && !Below(x, Ffs(x))
  {
    if x % 2 == 0 { FfsLowest(x / 2); }
  }

  lemma {:induction false} FfsBound(x: nat, w: nat)
    requires 0 < x < Pow2(w)
    ensures Ffs(x) < w
    decreases w
  {
    if x % 2 == 0 { FfsBound(x / 2, w - 1); }
  }

  // ---------- the macros ----------

  lemma {:induction false} MarkBit(m: nat, i: nat, j: nat)
    ensures Bit(Mark(m, i), j) <==> i == j || Bit(m, j)
  {
    OrBit(m, IdxBit(i), j);
    PowBit(i, j);
  }

  lemma {:induction false} ClearBit(m: nat, i: nat, j: nat)
    requires i < 32 && j < 32
    ensures Bit(Clear(m, i), j) <==> i != j && Bit(m, j)
  {
    WordPow();
    Pow2Below(i, 32);
    AndBit(m, W - 1 - IdxBit(i), j);
    ComplementBit(IdxBit(i), 32, j);
    PowBit(i, j);
  }

  lemma {:induction false} OrBound(x: nat, y: nat, w: nat)
    requires x < Pow2(w) && y < Pow2(w)
    ensures Or(x, y) < Pow2(w)
    decreases w
  {
    if w > 0 && !(x == 0 && y == 0) { OrBound(x / 2, y / 2, w - 1); }
  }

  lemma {:induction false} AndBound(x: nat, y: nat)
    ensures And(x, y) <= x
    decreases x
  {
    if x > 0 { AndBound(x / 2, y / 2); }
  }

  lemma {:induction false} AndBoundRight(x: nat, y: nat)
    ensures And(x, y) <= y
    decreases x
  {
    if x > 0 { AndBoundRight(x / 2, y / 2); }
  }

  lemma {:induction false} MapsStayWords(m: nat, i: nat)
    requires m < W && i < 32
    ensures Mark(m, i) < W && Clear(m, i) < W
  {
    hide And, Or, Pow2;
    WordPow();
    Pow2Below(i, 32);
    OrBound(m, IdxBit(i), 32);
    AndBound(m, W - 1 - IdxBit(i));
  }

  /** Only the mark of bin i may differ. */
  ghost predicate OtherMarks(map0: nat, map1: nat, i: nat) {
    map1 < W && forall j :: 0 <= j < 32 && j != i ==> (Bit(map1, j) <==> Bit(map0, j))
  }

  lemma {:induction false} MarkOther(m: nat, i: nat)
    requires m < W && i < 32
    ensures OtherMarks(m, Mark(m, i), i) && Bit(Mark(m, i), i)
    ensures OtherMarks(m, Clear(m, i), i) && !Bit(Clear(m, i), i)
  {
    hide Bit, Mark, Clear;
    MapsStayWords(m, i);
    forall j: nat | j < 32
      ensures Bit(Mark(m, i), j) <==> i == j || Bit(m, j)
      ensures Bit(Clear(m, i), j) <==> i != j && Bit(m, j)
    {
      MarkBit(m, i, j);
      ClearBit(m, i, j);
    }
  }

  lemma {:induction false} LeftBitsBit(i: nat, j: nat)
    requires i < 32 && j < 32
    ensures IdxBit(i) < W
    ensures Bit(LeftBits(IdxBit(i)), j) <==> j > i
  {
    hide Pow2, Bit, Or, Below;
    WordPow();
    Pow2Below(i, 32);
    Pow2Step(i + 1);
    var x := (2 * IdxBit(i)) % W;
    OrBit(x, Negate(x), j);
    if i == 31 {
      assert x == 0;
      ZeroBit(j);
    } else {
      Pow2Below(i + 1, 32);
      assert x == Pow2(i + 1);
      PowBit(i + 1, j);
      PowBelow(i + 1, j);
      NegateBit(x, 32, j);
    }
  }

  /** left_bits(idx2bit(i)) & m keeps exactly the marks above i. */
  lemma {:induction false} MarksAbove(m: nat, i: nat, j: nat)
    requires i < 32 && j < 32
    ensures IdxBit(i) < W
    ensures Bit(And(LeftBits(IdxBit(i)), m), j) <==> j > i && Bit(m, j)
  {
    hide And, Bit, Pow2, LeftBits;
    LeftBitsBit(i, j);
    AndBit(LeftBits(IdxBit(i)), m, j);
  }

  lemma {:induction false} ZeroHasNoBit(m: nat, i: nat)
    requires Bit(m, i)
    ensures m > 0
  {
    if m == 0 { ZeroBit(i); }
  }

  lemma {:induction false} LeastBitBit(m: nat, j: nat)
    requires 0 < m < W && j < 32
    ensures Bit(LeastBit(m), j) <==> Bit(m, j) && !Below(m, j)
  {
    hide And, Bit, Pow2, Below;
    WordPow();
    NegateBit(m, 32, j);
    AndBit(m, Negate(m), j);
  }

  /** compute_bit2idx(least_bit(m)) is the lowest marked index. */
  lemma {:induction false} LowestMark(m: nat)
    requires 0 < m < W
    ensures LeastBit(m) > 0
    ensures var r := Ffs(LeastBit(m)); r < 32 && Bit(m, r) && forall j: nat :: j < r ==> !Bit(m, j)
  {
    hide LeastBit;
    WordPow();
    FfsLowest(m);
    FfsBound(m, 32);
    LeastBitBit(m, Ffs(m));
    ZeroHasNoBit(LeastBit(m), Ffs(m));
    LeastIsLow(m);
    var r := Ffs(LeastBit(m));
    FfsLowest(LeastBit(m));
    FfsBound(LeastBit(m), 32);
    LeastBitBit(m, r);
    forall j: nat | j < r
      ensures !Bit(m, j)
    {
      if Bit(m, j) { BelowIff(m, r, j); }
    }
  }

  lemma {:induction false} LeastIsLow(m: nat)
    requires m < W
    ensures LeastBit(m) < W
  {
    AndBound(m, Negate(m));
  }

  /** `m >> k` moves every mark down by k. */
  lemma {:induction false} ShiftedBit(m: nat, k: nat, j: nat)
    ensures m / Pow2(k) >= 0 && (Bit(m / Pow2(k), j) <==> Bit(m, k + j))
    decreases k
  {
    QuotientNat(m, Pow2(k));
    if k > 0 {
      HalfThenShift(m, Pow2(k - 1));
      ShiftedBit(m / 2, k - 1, j);
    }
  }

  lemma {:induction false} HalfThenShift(m: nat, p: nat)
    requires p > 0
    ensures m / (2 * p) == (m / 2) / p
  {
    var q, r := (m / 2) / p, (m / 2) % p;
    assert m / 2 == q * p + r;
    assert m == q * (2 * p) + (2 * r + m % 2);
    assert 2 * r + m % 2 < 2 * p;
    QuotientIs(m, 2 * p, q, 2 * r + m % 2);
  }

  lemma {:induction false} QuotientIs(m: nat, d: nat, q: int, r: nat)
    requires d > 0 && m == q * d + r && r < d
    ensures m / d == q
  {
    var q', r' := m / d, m % d;
    assert m == q' * d + r';
    assert (q - q') * d == r' - r;
    if q - q' >= 1 { MulGe(d, q - q', 1); } else if q - q' <= -1 { MulGe(d, -1, q - q'); }
  }

  /** `x << k` within a word whose bits do not leave it: every mark moves up by k. */
  lemma {:induction false} RaisedBit(x: nat, k: nat, j: nat)
    ensures Bit(x * Pow2(k), j) <==> j >= k && Bit(x, j - k)
    decreases k
  {
    if k > 0 {
      assert x * Pow2(k) == 2 * (x * Pow2(k - 1));
      if j > 0 { RaisedBit(x, k - 1, j - 1); }
    }
  }
}
