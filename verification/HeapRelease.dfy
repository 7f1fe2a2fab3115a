// What dlfree and dispose_chunk find around a chunk in use (src/runtime/dlmalloc/malloc.c:4369-4435,
// 4688-4795): at most one free neighbour on either side, both of which join the freed run.

module HeapRelease {
  import opened HeapTiling
  import opened HeapPlacement
  import opened HeapFrame

  /** Where the freed run begins: at the chunk, or at the free chunk before it. */
  ghost function Lowest(h: Heap, p: int): int
    requires p in h.head && p in h.foot
  {
    if h.head[p].pinuse then p else p - h.foot[p] as int
  }

  function Before(p: int, lo: int): set<int> {
    if lo == p then {} else {lo}
  }

  /** p is the only live chunk of the run, and `loose` its free chunks. */
  ghost predicate Around(h: Heap, p: int, lo: int, hi: int, loose: set<int>) {
    && Run(h, lo, hi) && h.head[lo].pinuse && lo <= p < hi && LooseIn(h, loose, lo, hi)
    && (forall a :: IsLive(h, a) && lo <= a < hi ==> a == p)
  }

  lemma {:induction false} BackwardRun(h: Heap, p: int)
    requires Tiled(h) && IsLive(h, p)
    ensures p in h.head && p in h.foot && p > 0 && p % 8 == 0 && h.head[p].size < ADDRESSES
    ensures var lo := Lowest(h, p);
            && Around(h, p, lo, Next(h, p), Before(p, lo)) && (lo != p ==> IsFree(h, lo) && Next(h, lo) == p)
            && (lo != p <==> !h.head[p].pinuse)
    ensures var next := Next(h, p);
            && next in h.head && next <= h.top && h.head[next].pinuse && (h.head[next].cinuse <==> IsLive(h, next))
            && (!h.head[next].cinuse && next != h.top ==> IsFree(h, next))
  {
    StartsMapped(h, p);
    var lo, next := Lowest(h, p), Next(h, p);
    assert StepOk(h, p) && MarkOk(h, p) && BackOk(h, p);
    if lo != p {
      assert StepOk(h, lo);
      FreePinuse(h, lo);
    }
    forall a | Within(h, a) && lo <= a < next
      ensures a == lo || a == p
    {
      assert ApartOk(h, lo, a) && ApartOk(h, p, a);
    }
  }

  lemma {:induction false} ForwardRun(h: Heap, p: int, lo: int, next: int)
    requires Tiled(h) && IsLive(h, p) && Next(h, p) == next && lo <= p && Around(h, p, lo, next, Before(p, lo))
    requires IsFree(h, next)
    ensures var hi := Next(h, next);
            && Around(h, p, lo, hi, Before(p, lo) + {next}) && IsLive(h, hi) && !h.head[hi].pinuse
            && next < hi < h.top
  {
    var hi := Next(h, next);
    assert StepOk(h, next) && CoalescedOk(h, next) && MarkOk(h, next);
    assert Run(h, lo, hi);
    forall a | Within(h, a) && lo <= a < hi
      ensures a < next || a == next
    {
      assert ApartOk(h, next, a);
    }
  }

  /** Freeing a run removes p from the live chunks. */
  lemma {:induction false} Released(h: Heap, p: int, lo: int, hi: int, loose: set<int>)
    requires IsLive(h, p) && Around(h, p, lo, hi, loose)
    ensures Outside(LiveMap(h), lo, hi) == LiveMap(h) - {p}
  {
    hide LiveMap, Outside;
    OutsideOne(h, p, lo, hi);
  }

  lemma {:induction false} FreeAround(h: Heap, dv: int, dvsize: nat, bins: map<int, nat>, p: int, lo: int, hi: int, loose: set<int>)
    requires IsLive(h, p) && Around(h, p, lo, hi, loose) && IsLive(h, hi) && Placed(h, dv, dvsize, bins, loose)
    ensures lo in h.head && hi in h.head && lo <= hi
    ensures Tiled(MakeFree(h, lo, hi)) && Placed(MakeFree(h, lo, hi), dv, dvsize, bins, {lo})
    ensures LiveMap(MakeFree(h, lo, hi)) == LiveMap(h) - {p} && Untouched(h, MakeFree(h, lo, hi))
  {
    hide Tiled, Placed, LiveMap, Outside, Untouched;
    FreeUntouched(h, lo, hi);
    FreePlaced(h, dv, dvsize, bins, loose, lo, hi);
    Released(h, p, lo, hi, loose);
  }

  lemma {:induction false} TopAround(h: Heap, dv: int, dvsize: nat, bins: map<int, nat>, p: int, lo: int, loose: set<int>)
    requires IsLive(h, p) && Around(h, p, lo, h.top, loose) && Placed(h, dv, dvsize, bins, loose)
    ensures lo <= End(h)
    ensures Tiled(MakeTop(h, lo)) && Placed(MakeTop(h, lo), dv, dvsize, bins, {})
    ensures LiveMap(MakeTop(h, lo)) == LiveMap(h) - {p} && Untouched(h, MakeTop(h, lo))
  {
    hide Tiled, Placed, LiveMap, Outside, Untouched;
    TopUntouched(h, lo);
    TopPlaced(h, dv, dvsize, bins, loose, lo);
    Released(h, p, lo, h.top, loose);
  }
}
