// Growing a chunk in use over what follows it: top, dv or a binned chunk
// (src/runtime/dlmalloc/malloc.c:4817-4894).

module HeapResize {
  import opened HeapTiling
  import opened HeapPlacement

  // ---------- into top ----------

  /** The chunk before top takes nb bytes in all, and top starts behind it. */
  function GrowIntoTop(h: Heap, p: int, nb: nat): Heap
    requires p in h.head && p + nb <= End(h)
  {
    var rest := End(h) - (p + nb);
    h.(head := h.head[p := Head(nb, true, h.head[p].pinuse)][p + nb := Head(rest, false, true)],
       starts := h.starts - {h.top} + {p + nb}, top := p + nb, topsize := rest)
  }

  ghost predicate BeforeTop(h: Heap, p: int, nb: nat) {
    && Tiled(h) && IsLive(h, p) && Next(h, p) == h.top && nb % 8 == 0
    && h.head[p].size < nb < h.head[p].size + h.topsize
  }

  lemma {:induction false} GrowIntoTopTiled(h: Heap, p: int, nb: nat)
    requires BeforeTop(h, p, nb)
    ensures Tiled(GrowIntoTop(h, p, nb))
  {
    var h' := GrowIntoTop(h, p, nb);
    assert StepOk(h, p) && MarkOk(h, p);
    MultiplesOf8(p, nb);
    forall a
      ensures StepOk(h', a) && MarkOk(h', a) && FootOk(h', a) && CoalescedOk(h', a) && BackOk(h', a)
    {
      assert StepOk(h, a) && ApartOk(h, a, p) && ApartOk(h, p, a);
      assert MarkOk(h, a) && FootOk(h, a) && CoalescedOk(h, a) && BackOk(h, a);
    }
    forall a, b
      ensures ApartOk(h', a, b)
    {
      assert ApartOk(h, a, b) && ApartOk(h, a, p) && ApartOk(h, p, a) && ApartOk(h, p, b);
    }
  }

  lemma {:induction false} GrowIntoTopPlaced(h: Heap, dv: int, dvsize: nat, bins: map<int, nat>, p: int, nb: nat)
    requires BeforeTop(h, p, nb) && Placed(h, dv, dvsize, bins, {})
    ensures Tiled(GrowIntoTop(h, p, nb)) && Placed(GrowIntoTop(h, p, nb), dv, dvsize, bins, {})
    ensures LiveMap(GrowIntoTop(h, p, nb)) == LiveMap(h)[p := nb]
  {
    GrowIntoTopTiled(h, p, nb);
    var h' := GrowIntoTop(h, p, nb);
    forall a
      ensures Within(h', a) <==> Within(h, a)
      ensures Within(h', a) && a != p ==> h'.head[a] == h.head[a]
    {
      assert StepOk(h, p) && ApartOk(h, p, a);
    }
  }

  // ---------- into a free chunk ----------

  /** p and the free chunk after it, up to hi. */
  lemma {:induction false} NextRun(h: Heap, p: int)
    requires Tiled(h) && IsLive(h, p) && IsFree(h, Next(h, p))
    ensures var next := Next(h, p);
            var hi := Next(h, next);
            && Run(h, p, hi) && p < next < hi && IsLive(h, hi) && LooseIn(h, {next}, p, hi)
            && Outside(LiveMap(h), p, hi) == LiveMap(h) - {p} && hi !in LiveMap(h) - {hi}
  {
    var next := Next(h, p);
    var hi := Next(h, next);
    assert StepOk(h, p) && StepOk(h, next) && CoalescedOk(h, next);
    forall a | Within(h, a) && p <= a < hi
      ensures a == p || a == next
    {
      assert ApartOk(h, p, a) && ApartOk(h, next, a);
    }
    OutsideOne(h, p, p, hi);
  }

  /** p takes all of the free chunk after it. */
  lemma {:induction false} AbsorbPlaced(h: Heap, dv: int, dvsize: nat, bins: map<int, nat>, p: int, next: int, hi: int)
    requires Tiled(h) && IsLive(h, p) && Next(h, p) == next && IsFree(h, next) && Next(h, next) == hi
    requires Placed(h, dv, dvsize, bins, {next})
    ensures hi in h.head && p <= hi
    ensures var h' := MakeUsed(h, p, hi);
            && Tiled(h') && Placed(h', dv, dvsize, bins, {}) && LiveMap(h') == LiveMap(h)[p := hi - p] && IsLive(h', p)
            && Next(h', p) == hi && IsLive(h', hi) && h'.head[hi].pinuse
  {
    hide Tiled, Placed, LiveMap, LooseIn, Outside;
    NextRun(h, p);
    UsePlaced(h, dv, dvsize, bins, {next}, p, hi);
    MakeUsedChunks(h, p, hi);
    KeyBack(LiveMap(h), p, hi - p);
  }

  lemma {:induction false} KeyBack(m: map<int, nat>, p: int, s: nat)
    ensures (m - {p})[p := s] == m[p := s]
  {
  }

  /** A live chunk is cut at r. */
  lemma {:induction false} CutLive(h: Heap, p: int, r: int)
    requires Cuttable(h, p, r)
    ensures r !in LiveMap(h) && p in LiveMap(h) && r > 0
  {
    CutInside(h, p, r);
  }

  /** A chunk cut off a live chunk is freed; nothing follows it that it could merge with. */
  lemma {:induction false} ShedPlaced(h: Heap, dv: int, dvsize: nat, bins: map<int, nat>, p: int, r: int, n: int)
    requires Cuttable(h, p, r) && n == Next(h, p) && IsLive(h, n) && Placed(h, dv, dvsize, bins, {})
    ensures r in SplitUsed(h, p, r).head && n in SplitUsed(h, p, r).head && r < n
    ensures var h' := MakeFree(SplitUsed(h, p, r), r, n);
            && Tiled(h') && Placed(h', dv, dvsize, bins, {r}) && LiveMap(h') == LiveMap(h)[p := r - p]
  {
    hide Tiled, Placed, LiveMap, Outside, LooseIn, MakeFree, SplitUsed, IsLive, Run, Cuttable;
    ShedRun(h, p, r, n);
    CutLive(h, p, r);
    CutPlaced(h, dv, dvsize, bins, {}, p, r);
    var h1 := SplitUsed(h, p, r);
    NoFreeAt(h1, r, n);
    FreePlaced(h1, dv, dvsize, bins, {}, r, n);
    ShedLive(h, h1, p, r, n);
  }

  lemma {:induction false} ShedRun(h: Heap, p: int, r: int, n: int)
    requires Cuttable(h, p, r) && n == Next(h, p) && IsLive(h, n)
    ensures p in h.head && p < r < Next(h, p)
    ensures var h1 := SplitUsed(h, p, r);
            && Run(h1, r, n) && IsLive(h1, r) && Next(h1, r) == n && IsLive(h1, n) && h1.head[r].pinuse && p < r < n
  {
    CutInside(h, p, r);
    SplitUsedTiled(h, p, r);
    SplitUsedChunks(h, p, r);
  }

  lemma {:induction false} ShedLive(h: Heap, h1: Heap, p: int, r: int, n: int)
    requires Tiled(h1) && IsLive(h1, r) && Next(h1, r) == n && r !in LiveMap(h) && p < r < n
    requires LiveMap(h1) == LiveMap(h)[p := r - p][r := n - r]
    ensures Outside(LiveMap(h1), r, n) == LiveMap(h)[p := r - p]
  {
    forall a | IsLive(h1, a) && r <= a < n
      ensures a == r
    {
      assert ApartOk(h1, r, a);
    }
    OutsideOne(h1, r, r, n);
  }

  /** The words written when p grows over a free chunk and sheds a remainder. */
  lemma {:induction false} GrowWrites(h: Heap, p: int, r: int, n: int)
    requires p in h.head && n in h.head && n in h.foot && p < r < n
    ensures var h3 := MakeFree(SplitUsed(MakeUsed(h, p, n), p, r), r, n);
            && h3.head == h.head[p := Head(r - p, true, h.head[p].pinuse)][n := h.head[n].(pinuse := false)][r := Head(n - r, false, true)]
            && h3.foot == h.foot[n := n - r] && h3.first == h.first && h3.top == h.top && h3.topsize == h.topsize
  {
  }
}
