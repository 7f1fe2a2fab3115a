// Which tree bin holds which sizes (src/runtime/dlmalloc/malloc.c:2887-2918).

module TreeIndex {
  import opened Powers
  import opened BinMaps

  const TREEBINS: nat := 32

  /** 32-bit unsigned subtraction. */
  function Sub32(x: nat, y: nat): (r: nat)
    requires x < W && y < W
    ensures r == if x >= y then x - y else x + W - y
  {
    (x + W - y) % W
  }

  /** `(x >> 16) & mask` for a one-bit mask. */
  function HighHalfBit(x: nat, mask: nat): (r: nat)
    requires mask > 0
  {
    ((x / 0x1_0000) / mask % 2) * mask
  }

  /** `minsize_for_tree_index` */
  function MinSize(i: nat): (s: nat)
    requires i < TREEBINS
  {
    Pow2(i / 2 + 8) + (i % 2) * Pow2(i / 2 + 7)
  }

  /** `((y - threshold) >> 16) & k`: the borrow of the subtraction selects the shift. */
  function StageShift(y: nat, threshold: nat, k: nat): (n: nat)
    requires y <= 0xFFFF && threshold <= 0x4000 && (k == 2 || k == 4 || k == 8)
    ensures n == if y < threshold then k else 0
  {
    HighHalfBit(Sub32(y, threshold), k)
  }

  lemma {:induction false} StagePowers()
    ensures Pow2(0) == 1 && Pow2(2) == 4 && Pow2(4) == 16 && Pow2(8) == 256
  {
    assert Pow2(2) == 4;
    Pow2Add(2, 2);
    Pow2Of8();
  }

  /** The three branch-free doublings that normalise x to at least 0x4000; returns (y, total shift). */
  function Normalise(x: nat): (r: (nat, nat))
    requires 0 < x <= 0xFFFF
    ensures 0x4000 <= r.0 <= 0xFFFF && r.1 <= 14 && r.0 == x * Pow2(r.1)
  {
    hide Pow2;
    StagePowers();
    var n := StageShift(x, 0x100, 8);
    var y1 := x * Pow2(n);
    var k1 := StageShift(y1, 0x1000, 4);
    var y2 := y1 * Pow2(k1);
    var k2 := StageShift(y2, 0x4000, 2);
    var y3 := y2 * Pow2(k2);
    Pow2Add(n, k1);
    Pow2Add(n + k1, k2);
    ProductOfShifts(x, Pow2(n), Pow2(k1), Pow2(k2));
    (y3, n + k1 + k2)
  }

  lemma {:induction false} ProductOfShifts(x: nat, a: nat, b: nat, c: nat)
    ensures ((x * a) * b) * c == x * ((a * b) * c)
  {
  }

  /** The generic `compute_tree_index`. */
  function TreeIndexOf(s: nat): (i: nat)
    requires s < W
  {
    var x := s / 0x100;
    if x == 0 then 0
    else if x > 0xFFFF then TREEBINS - 1
    else
      var (y, n) := Normalise(x);
      var k := 14 - n + y / 0x8000;
      2 * k + (s / Pow2(k + 7)) % 2
  }

  lemma {:induction false} LogOf(x: nat)
    requires 0 < x <= 0xFFFF
    ensures var (y, n) := Normalise(x); var k := 14 - n + y / 0x8000;
            k < 16 && Pow2(k) <= x < Pow2(k + 1)
  {
    hide Pow2, Normalise;
    var (y, n) := Normalise(x);
    var k := 14 - n + y / 0x8000;
    SmallPowers();
    Pow2Add(14 - n, n);
    Pow2Step(15 - n);
    Pow2Step(16 - n);
    assert y / 0x8000 == if y >= 0x8000 then 1 else 0;
    Scaled(x, y, Pow2(n), Pow2(14 - n));
  }

  lemma {:induction false} SmallPowers()
    ensures Pow2(14) == 0x4000 && Pow2(15) == 0x8000 && Pow2(16) == 0x1_0000
  {
    hide Pow2;
    Pow2Of8();
    Pow2Add(8, 8);
    Pow2Step(16);
    Pow2Step(15);
  }

  lemma {:induction false} Scaled(x: nat, y: nat, p: nat, c: nat)
    requires y == x * p && p > 0 && c * p == 0x4000 && 0x4000 <= y < 0x1_0000
    ensures y >= 0x8000 ==> 2 * c <= x < 4 * c
    ensures y < 0x8000 ==> c <= x < 2 * c
  {
    assert (2 * c) * p == 0x8000 && (4 * c) * p == 0x1_0000;
    if x < c { LtScale(p, x, c); }
    if x < 2 * c { LtScale(p, x, 2 * c); } else { MulGe(p, x, 2 * c); }
    if x >= 4 * c { MulGe(p, x, 4 * c); }
  }

  /** The first and the last size of a bin: the interval the C macros imply. */
  lemma {:induction false} MinSizeNext(i: nat)
    requires i + 1 < TREEBINS
    ensures MinSize(i + 1) == MinSize(i) + Pow2(i / 2 + 7)
  {
    hide Pow2;
    Pow2Step(i / 2 + 8);
    Pow2Step(i / 2 + 9);
    if i % 2 == 1 {
      assert (i + 1) / 2 == i / 2 + 1;
    } else {
      assert (i + 1) / 2 == i / 2;
    }
  }

  lemma {:induction false} MinSizeOrder(i: nat, j: nat)
    requires i < j < TREEBINS
    ensures MinSize(i) < MinSize(j)
    decreases j - i
  {
    MinSizeNext(i);
    if i + 1 < j { MinSizeOrder(i + 1, j); }
  }

  lemma {:induction false} LastBin()
    ensures MinSize(30) == 0x80_0000 && MinSize(31) == 0xC0_0000
  {
    hide Pow2;
    SmallPowers();
    Pow2Of8();
    Pow2Add(15, 8);
    Pow2Add(14, 8);
  }

  /** The sizes that belong in bin i. */
  ghost predicate InBin(i: nat, s: nat) {
    i < TREEBINS && MinSize(i) <= s < W && (i + 1 < TREEBINS ==> s < MinSize(i + 1))
  }

  lemma {:induction false} HalfBit(s: nat, k: nat)
    requires Pow2(k + 8) <= s < Pow2(k + 9)
    ensures Pow2(k + 8) + ((s / Pow2(k + 7)) % 2) * Pow2(k + 7) <= s
    ensures s < Pow2(k + 8) + ((s / Pow2(k + 7)) % 2) * Pow2(k + 7) + Pow2(k + 7)
  {
    hide Pow2;
    Pow2Step(k + 8);
    Pow2Step(k + 9);
    DigitOf(s, Pow2(k + 7));
  }

  lemma {:induction false} DigitOf(s: nat, p: nat)
    requires p > 0 && 2 * p <= s < 4 * p
    ensures 2 * p + ((s / p) % 2) * p <= s < 2 * p + ((s / p) % 2) * p + p
  {
    var q := s / p;
    assert s == q * p + s % p;
    if q <= 1 { MulGe(p, 1, q); }
    if q >= 4 { MulGe(p, q, 4); }
    assert q == 2 || q == 3;
  }

  /** compute_tree_index files every large size in the one bin whose interval holds it. */
  lemma {:induction false} TreeIndexInBin(s: nat)
    requires 0x100 <= s < W
    ensures InBin(TreeIndexOf(s), s)
  {
    hide Pow2, Normalise;
    var x := s / 0x100;
    if x > 0xFFFF {
      LastBin();
    } else {
      LogOf(x);
      var (y, n) := Normalise(x);
      var k := 14 - n + y / 0x8000;
      Pow2Of8();
      Pow2Add(k, 8);
      Pow2Add(k + 1, 8);
      ShiftBounds(s, x, Pow2(k), Pow2(k + 1));
      HalfBit(s, k);
      var i := TreeIndexOf(s);
      assert i == 2 * k + (s / Pow2(k + 7)) % 2;
      if i + 1 < TREEBINS { MinSizeNext(i); }
    }
  }

  lemma {:induction false} ShiftBounds(s: nat, x: nat, a: nat, b: nat)
    requires x == s / 0x100 && a <= x < b
    ensures a * 0x100 <= s < b * 0x100
  {
  }

  /** Bins partition the sizes, in order. */
  lemma {:induction false} BinUnique(i: nat, j: nat, s: nat, t: nat)
    requires InBin(i, s) && InBin(j, t)
    ensures i < j ==> s < t
    ensures s == t ==> i == j
  {
    hide MinSize;
    if i < j {
      if i + 1 < j { MinSizeOrder(i + 1, j); }
    } else if j < i {
      if j + 1 < i { MinSizeOrder(j + 1, i); }
    }
  }

  // ---------- descending a bin's trie by the bits of a size ----------

  /** The prefix and the number of free bits of the sizes in bin i. */
  function BinLow(i: nat): nat
    requires i < TREEBINS
  {
    if i == TREEBINS - 1 then 0 else MinSize(i)
  }

  function BinBits(i: nat): nat
    requires i < TREEBINS
  {
    if i == TREEBINS - 1 then 32 else i / 2 + 7
  }

  /** `leftshift_for_tree_index` */
  function LeftShift(i: nat): (n: nat)
    requires i < TREEBINS
    ensures n == 32 - BinBits(i)
  {
    if i == TREEBINS - 1 then 0 else 31 - (i / 2 + 6)
  }

  /** `s << n` in a 32-bit word. */
  function Shl32(s: nat, n: nat): (r: nat)
    ensures r < W
  {
    (s * Pow2(n)) % W
  }

  /** `(k >> (SIZE_T_BITSIZE-1)) & 1` */
  predicate TopBit(k: nat) {
    (k / 0x8000_0000) % 2 == 1
  }

  /** The shifted size holds exactly the bits below the current prefix. */
  ghost predicate SizeBits(bits: nat, s: nat, lo: nat, k: nat) {
    k <= 32 && lo <= s < lo + Pow2(k) && bits == (s - lo) * Pow2(32 - k)
  }

  lemma {:induction false} BinInterval(i: nat, s: nat)
    requires InBin(i, s)
    ensures BinBits(i) <= 32 && BinLow(i) <= s < BinLow(i) + Pow2(BinBits(i))
  {
    if i == TREEBINS - 1 { WordPow(); } else { MinSizeNext(i); }
  }

  lemma {:induction false} InitialSizeBits(i: nat, s: nat)
    requires InBin(i, s)
    ensures SizeBits(Shl32(s, LeftShift(i)), s, BinLow(i), BinBits(i))
  {
    hide Pow2;
    BinInterval(i, s);
    WordPow();
    if i < TREEBINS - 1 {
      var h := i / 2 + 7;
      Pow2Step(h + 1);
      Pow2Add(h, 32 - h);
      PrefixShiftsOut(s, MinSize(i), 2 + i % 2, Pow2(h), Pow2(32 - h));
    } else {
      Pow2Zero();
    }
  }

  lemma {:induction false} Pow2Zero()
    ensures Pow2(0) == 1
  {
  }

  lemma {:induction false} PrefixShiftsOut(s: nat, lo: nat, m: nat, p: nat, c: nat)
    requires lo == m * p && p * c == W && lo <= s < lo + p && c > 0
    ensures (s * c) % W == (s - lo) * c
  {
    assert s * c == lo * c + (s - lo) * c;
    assert (m * p) * c == m * (p * c);
    LtScale(c, s - lo, p);
    MultipleOfWord(s * c, m, (s - lo) * c);
  }

  lemma {:induction false} MultipleOfWord(x: nat, m: nat, r: nat)
    requires x == m * W + r && r < W
    ensures x % W == r
  {
  }

  lemma {:induction false} TopBitIs(bits: nat, s: nat, lo: nat, k: nat)
    requires SizeBits(bits, s, lo, k) && k > 0
    ensures bits < W
    ensures TopBit(bits) <==> s >= lo + Pow2(k - 1)
    ensures SizeBits((2 * bits) % W, s, if TopBit(bits) then lo + Pow2(k - 1) else lo, k - 1)
  {
    hide Pow2;
    WordPow();
    Pow2Step(k);
    Pow2Add(k, 32 - k);
    Pow2Step(33 - k);
    TopBitScaled(bits, s - lo, Pow2(k - 1), Pow2(32 - k));
    var lo' := if TopBit(bits) then lo + Pow2(k - 1) else lo;
    assert (s - lo') * Pow2(33 - k) == (2 * bits) % W;
  }

  lemma {:induction false} TopBitScaled(bits: nat, d: nat, half: nat, c: nat)
    requires bits == d * c && d < 2 * half && (2 * half) * c == W && c > 0
    ensures bits < W
    ensures TopBit(bits) <==> d >= half
    ensures (2 * bits) % W == (if TopBit(bits) then d - half else d) * (2 * c)
  {
    LtScale(c, d, 2 * half);
    assert half * c == 0x8000_0000 by { assert (2 * half) * c == 2 * (half * c); }
    if d >= half { MulGe(c, d, half); } else { LtScale(c, d, half); }
    Doubling(bits);
    hide TopBit;
    assert (d - half) * (2 * c) == 2 * (d * c) - W;
  }

  /** Doubling a word loses its top bit. */
  lemma {:induction false} Doubling(bits: nat)
    requires bits < W
    ensures TopBit(bits) <==> bits >= 0x8000_0000
    ensures (2 * bits) % W == if TopBit(bits) then 2 * bits - W else 2 * bits
  {
  }
}
