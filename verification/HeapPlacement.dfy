// Where each free chunk is kept: every free chunk is the designated victim, or in exactly one bin, or
// (in the middle of an operation) one of a few loose chunks (src/runtime/dlmalloc/malloc.c:3429-3487).

module HeapPlacement {
  import opened HeapTiling

  ghost predicate DvOk(h: Heap, dv: int, dvsize: nat) {
    && (dvsize == 0 ==> dv == 0)
    && (dvsize != 0 ==> IsFree(h, dv) && h.head[dv].size == dvsize)
  }

  ghost predicate Placed(h: Heap, dv: int, dvsize: nat, bins: map<int, nat>, loose: set<int>) {
    && DvOk(h, dv, dvsize)
    && (forall a :: a in loose ==> IsFree(h, a) && a != dv && a !in bins)
    && (forall a :: a in bins ==> IsFree(h, a) && h.head[a].size == bins[a] && a != dv)
    && (forall a :: IsFree(h, a) ==> a == dv || a in loose || a in bins)
  }

  // ---------- moving a chunk between places, boundaries unchanged ----------

  lemma {:induction false} BinToLoose(h: Heap, dv: int, dvsize: nat, bins: map<int, nat>, loose: set<int>, p: int)
    requires Placed(h, dv, dvsize, bins, loose) && p in bins
    ensures Placed(h, dv, dvsize, bins - {p}, loose + {p})
  {
  }

  lemma {:induction false} LooseToBin(h: Heap, dv: int, dvsize: nat, bins: map<int, nat>, p: int)
    requires Placed(h, dv, dvsize, bins, {p}) && p in h.head
    ensures p !in bins && Placed(h, dv, dvsize, bins[p := h.head[p].size], {})
  {
  }

  lemma {:induction false} DvToLoose(h: Heap, dv: int, dvsize: nat, bins: map<int, nat>, loose: set<int>)
    requires Placed(h, dv, dvsize, bins, loose) && dvsize != 0 && Grid(h)
    ensures dv !in loose && Placed(h, 0, 0, bins, loose + {dv})
  {
  }

  lemma {:induction false} DvToBin(h: Heap, dv: int, dvsize: nat, bins: map<int, nat>, loose: set<int>)
    requires Placed(h, dv, dvsize, bins, loose) && dvsize != 0 && Grid(h)
    ensures dv !in bins && Placed(h, 0, 0, bins[dv := dvsize], loose)
  {
  }

  lemma {:induction false} LooseToDv(h: Heap, bins: map<int, nat>, p: int)
    requires Placed(h, 0, 0, bins, {p}) && Tiled(h)
    ensures p in h.head && h.head[p].size != 0 && Placed(h, p, h.head[p].size, bins, {})
  {
    assert p in {p};
    assert IsFree(h, p);
    assert StepOk(h, p);
  }

  /** A binned or designated chunk really is a free chunk of that size. */
  lemma {:induction false} PlacedSizes(h: Heap, dv: int, dvsize: nat, bins: map<int, nat>, loose: set<int>, p: int)
    requires Placed(h, dv, dvsize, bins, loose) && Tiled(h) && (p in bins || p in loose || (dvsize != 0 && p == dv))
    ensures IsFree(h, p) && p > 0 && p % 8 == 0 && h.head[p].size >= MIN_CHUNK && h.head[p].size % 8 == 0
    ensures Run(h, p, Next(h, p)) && IsLive(h, Next(h, p)) && h.head[p].size < ADDRESSES
    ensures h.head[p].pinuse && h.first <= p && Next(h, p) < h.top
  {
    assert IsFree(h, p);
    assert StepOk(h, p) && CoalescedOk(h, p);
    FreePinuse(h, p);
  }

  /** The chunk before a free chunk is in use. */
  lemma {:induction false} FreePinuse(h: Heap, p: int)
    requires Tiled(h) && IsFree(h, p)
    ensures h.head[p].pinuse
  {
    StartsMapped(h, p);
    assert BackOk(h, p) && CoalescedOk(h, p - h.foot[p] as int);
  }

  // ---------- the user's view ----------

  /** The chunks in use, with their sizes. */
  ghost function LiveMap(h: Heap): map<int, nat> {
    map a | a in h.starts && IsLive(h, a) :: h.head[a].size
  }

  function Outside(m: map<int, nat>, lo: int, hi: int): map<int, nat> {
    map a | a in m && !(lo <= a < hi) :: m[a]
  }

  /** A run of one live chunk, or of one live chunk among free ones. */
  lemma {:induction false} OutsideOne(h: Heap, p: int, lo: int, hi: int)
    requires IsLive(h, p) && lo <= p < hi
    requires forall a :: IsLive(h, a) && lo <= a < hi ==> a == p
    ensures Outside(LiveMap(h), lo, hi) == LiveMap(h) - {p}
  {
  }

  // ---------- redrawing boundaries ----------

  /** The free chunks of a run are exactly the loose ones. */
  ghost predicate LooseIn(h: Heap, loose: set<int>, lo: int, hi: int) {
    && (forall a :: a in loose ==> lo <= a < hi)
    && (forall a :: IsFree(h, a) && lo <= a < hi ==> a in loose)
  }

  lemma {:induction false} UsePlaced(h: Heap, dv: int, dvsize: nat, bins: map<int, nat>, loose: set<int>, lo: int, hi: int)
    requires Run(h, lo, hi) && Placed(h, dv, dvsize, bins, loose) && LooseIn(h, loose, lo, hi)
    ensures Tiled(MakeUsed(h, lo, hi)) && Placed(MakeUsed(h, lo, hi), dv, dvsize, bins, {})
    ensures LiveMap(MakeUsed(h, lo, hi)) == Outside(LiveMap(h), lo, hi)[lo := hi - lo]
  {
    MakeUsedTiled(h, lo, hi);
    hide Tiled;
    MakeUsedChunks(h, lo, hi);
    RunStep(h, lo, hi);
  }

  lemma {:induction false} FreePlaced(h: Heap, dv: int, dvsize: nat, bins: map<int, nat>, loose: set<int>, lo: int, hi: int)
    requires Run(h, lo, hi) && h.head[lo].pinuse && IsLive(h, hi)
    requires Placed(h, dv, dvsize, bins, loose) && LooseIn(h, loose, lo, hi)
    ensures Tiled(MakeFree(h, lo, hi)) && Placed(MakeFree(h, lo, hi), dv, dvsize, bins, {lo})
    ensures LiveMap(MakeFree(h, lo, hi)) == Outside(LiveMap(h), lo, hi)
  {
    MakeFreeTiled(h, lo, hi);
    hide Tiled;
    MakeFreeChunks(h, lo, hi);
    RunStep(h, lo, hi);
  }

  lemma {:induction false} TopPlaced(h: Heap, dv: int, dvsize: nat, bins: map<int, nat>, loose: set<int>, lo: int)
    requires Run(h, lo, h.top) && h.head[lo].pinuse
    requires Placed(h, dv, dvsize, bins, loose) && LooseIn(h, loose, lo, h.top)
    ensures Tiled(MakeTop(h, lo)) && Placed(MakeTop(h, lo), dv, dvsize, bins, {})
    ensures LiveMap(MakeTop(h, lo)) == Outside(LiveMap(h), lo, h.top)
  {
    MakeTopTiled(h, lo);
    assert Grid(h);
    hide Tiled;
    MakeTopChunks(h, lo);
  }

  lemma {:induction false} CutPlaced(h: Heap, dv: int, dvsize: nat, bins: map<int, nat>, loose: set<int>, p: int, m: int)
    requires Cuttable(h, p, m) && Placed(h, dv, dvsize, bins, loose)
    ensures Tiled(SplitUsed(h, p, m)) && Placed(SplitUsed(h, p, m), dv, dvsize, bins, loose)
    ensures LiveMap(SplitUsed(h, p, m)) == LiveMap(h)[p := m - p][m := Next(h, p) - m]
  {
    SplitUsedTiled(h, p, m);
    CutInside(h, p, m);
    hide Tiled;
    SplitUsedChunks(h, p, m);
  }

  lemma {:induction false} TopCutPlaced(h: Heap, dv: int, dvsize: nat, bins: map<int, nat>, nb: nat)
    requires Tiled(h) && nb % 8 == 0 && MIN_CHUNK <= nb < h.topsize && Placed(h, dv, dvsize, bins, {})
    ensures Tiled(SplitTop(h, nb)) && Placed(SplitTop(h, nb), dv, dvsize, bins, {})
    ensures LiveMap(SplitTop(h, nb)) == LiveMap(h)[h.top := nb]
  {
    SplitTopTiled(h, nb);
    hide Tiled;
    SplitTopChunks(h, nb);
  }

  /** Nothing written inside a live payload can break the heap: boundaries, places and live sizes stay. */
  lemma {:induction false} PayloadWritePlaced(h: Heap, h': Heap, dv: int, dvsize: nat, bins: map<int, nat>, loose: set<int>, p: int)
    requires Tiled(h) && Placed(h, dv, dvsize, bins, loose) && IsLive(h, p) && PayloadWrite(h, h', p)
    ensures Tiled(h') && Placed(h', dv, dvsize, bins, loose) && LiveMap(h') == LiveMap(h)
  {
    PayloadWriteTiled(h, h', p);
    hide Tiled, PayloadWrite;
    assert forall a :: IsFree(h, a) ==> h'.head[a] == h.head[a];
    assert forall a :: IsLive(h, a) ==> h'.head[a] == h.head[a];
  }

  // ---------- splitting a free chunk ----------

  /** nb bytes of the free chunk p go into use, the rest stays free. */
  function SplitFree(h: Heap, p: int, nb: nat): Heap
    requires p in h.head && nb <= h.head[p].size && Next(h, p) in h.head && Next(h, p) in h.foot
  {
    var r, rsize := p + nb, h.head[p].size - nb;
    h.(head := h.head[p := Head(nb, true, true)][r := Head(rsize, false, true)],
       foot := h.foot[r + rsize := rsize],
       starts := h.starts + {r})
  }

  lemma {:induction false} SplitFreeIs(h: Heap, p: int, nb: nat)
    requires Tiled(h) && IsFree(h, p) && nb % 8 == 0 && MIN_CHUNK <= nb && nb + MIN_CHUNK <= h.head[p].size
    requires Run(h, p, Next(h, p)) && IsLive(h, Next(h, p)) && h.head[p].pinuse
    ensures var n, r := Next(h, p), p + nb;
            var h1 := MakeUsed(h, p, n);
            var h2 := SplitUsed(h1, p, r);
            && Next(h1, p) == n && Cuttable(h1, p, r) && Run(h2, r, n) && h2.head[r].pinuse && IsLive(h2, n)
            && n in h.foot && SplitFree(h, p, nb) == MakeFree(h2, r, n)
  {
    var n, r := Next(h, p), p + nb;
    assert StepOk(h, p) && MarkOk(h, p);
    StartsMapped(h, n);
    MakeUsedTiled(h, p, n);
    MakeUsedChunks(h, p, n);
    var h1 := MakeUsed(h, p, n);
    MultiplesOf8(p, nb);
    assert Cuttable(h1, p, r);
    SplitUsedTiled(h1, p, r);
    CutInside(h1, p, r);
    SplitUsedChunks(h1, p, r);
    var h2 := SplitUsed(h1, p, r);
    hide Tiled, Steps, Apart, Marks, Feet, Backs, Coalesced;
    SplitFreeStarts(h, p, nb);
    var h3 := MakeFree(h2, r, n);
    assert h3.starts == h.starts + {r};
    assert h3.head == h.head[p := Head(nb, true, true)][r := Head(n - r, false, true)];
  }

  lemma {:induction false} SplitFreeStarts(h: Heap, p: int, nb: nat)
    requires Tiled(h) && IsFree(h, p) && MIN_CHUNK <= nb && nb + MIN_CHUNK <= h.head[p].size
    ensures forall a :: a in h.starts ==> !(p < a < Next(h, p))
  {
    forall a | a in h.starts
      ensures !(p < a < Next(h, p))
    {
      assert ApartOk(h, p, a);
    }
  }

  /** Half way: the whole chunk in use, and cut in two. */
  lemma {:induction false} SplitMiddle(h: Heap, dv: int, dvsize: nat, bins: map<int, nat>, p: int, nb: nat)
    requires Tiled(h) && Placed(h, dv, dvsize, bins, {p})
    requires p in h.head && nb % 8 == 0 && MIN_CHUNK <= nb && nb + MIN_CHUNK <= h.head[p].size
    ensures var n, r := Next(h, p), p + nb;
            && n in h.head && n in h.foot && IsFree(h, p)
            && var h1 := MakeUsed(h, p, n);
            && p in h1.head && Next(h1, p) == n && Cuttable(h1, p, r)
            && var h2 := SplitUsed(h1, p, r);
            && r in h2.head && n in h2.head && Placed(h2, dv, dvsize, bins, {}) && Run(h2, r, n) && h2.head[r].pinuse && IsLive(h2, n) && LooseIn(h2, {}, r, n)
            && SplitFree(h, p, nb) == MakeFree(h2, r, n)
            && LiveMap(h2) == Outside(LiveMap(h), p, n)[p := n - p][p := r - p][r := n - r]
  {
    hide Tiled, LiveMap, Outside, Placed, LooseIn, MakeFree, Run, SplitFree;
    assert p in {p};
    PlacedSizes(h, dv, dvsize, bins, {p}, p);
    SplitFreeIs(h, p, nb);
    SplitFreeStarts(h, p, nb);
    var n, r := Next(h, p), p + nb;
    OnlyLoose(h, p, n);
    UsePlaced(h, dv, dvsize, bins, {p}, p, n);
    var h1 := MakeUsed(h, p, n);
    CutPlaced(h1, dv, dvsize, bins, {}, p, r);
    SplitUsedChunks(h1, p, r);
    NoFreeAt(SplitUsed(h1, p, r), r, n);
  }

  lemma {:induction false} SplitPlaced(h: Heap, dv: int, dvsize: nat, bins: map<int, nat>, p: int, nb: nat)
    requires Tiled(h) && Placed(h, dv, dvsize, bins, {p})
    requires p in h.head && nb % 8 == 0 && MIN_CHUNK <= nb && nb + MIN_CHUNK <= h.head[p].size
    ensures Next(h, p) in h.head && Next(h, p) in h.foot
    ensures var h' := SplitFree(h, p, nb);
            && Tiled(h') && Placed(h', dv, dvsize, bins, {p + nb})
            && LiveMap(h') == LiveMap(h)[p := nb]
  {
    hide Tiled, LiveMap, Outside, Placed, LooseIn, MakeUsed, SplitUsed, MakeFree, Run, IsLive, IsFree, SplitFree, Cuttable;
    SplitMiddle(h, dv, dvsize, bins, p, nb);
    SplitFreeStarts(h, p, nb);
    var n, r := Next(h, p), p + nb;
    var h1 := MakeUsed(h, p, n);
    var h2 := SplitUsed(h1, p, r);
    FreePlaced(h2, dv, dvsize, bins, {}, r, n);
    SplitLive(LiveMap(h), Outside(LiveMap(h), p, n)[p := n - p], LiveMap(h2), h, p, r, n);
  }

  lemma {:induction false} SplitLive(m: map<int, nat>, m1: map<int, nat>, m2: map<int, nat>, h: Heap, p: int, r: int, n: int)
    requires p < r < n && p in h.head && m == LiveMap(h) && IsFree(h, p)
    requires m1 == Outside(m, p, n)[p := n - p] && m2 == m1[p := r - p][r := n - r]
    requires forall a :: a in h.starts ==> !(p < a < n)
    ensures Outside(m2, r, n) == m[p := r - p]
  {
  }

  lemma {:induction false} OnlyLoose(h: Heap, p: int, n: int)
    requires IsFree(h, p) && p < n && forall a :: a in h.starts ==> !(p < a < n)
    ensures LooseIn(h, {p}, p, n)
  {
  }

  lemma {:induction false} NoFreeAt(h: Heap, lo: int, hi: int)
    requires Tiled(h) && IsLive(h, lo) && Next(h, lo) == hi
    ensures LooseIn(h, {}, lo, hi)
  {
    forall a
      ensures !(IsFree(h, a) && lo <= a < hi)
    {
      assert ApartOk(h, lo, a);
    }
  }
}
