// The heap as an address-ordered run of chunks with boundary tags: the invariant spelled out by
// do_check_any_chunk .. traverse_and_check (src/runtime/dlmalloc/malloc.c:3225-3290, 3429-3457), and the
// six ways in which malloc, free, realloc and memalign redraw chunk boundaries.

module HeapTiling {
  /** A head word: size and the two in-use bits (the size is a multiple of 8, so the bits are separate). */
  datatype Head = Head(size: nat, cinuse: bool, pinuse: bool)

  /**
   * Memory seen as chunk headers: head[a] and foot[a] are the words `head` and `prev_foot` of a
   * chunk at a. `starts` are the addresses at which chunks really begin, up to and including top.
   */
  datatype Heap = Heap(head: map<int, Head>, foot: map<int, nat>, starts: set<int>, first: int, top: int, topsize: nat)

  const MIN_CHUNK: nat := 16
  const ADDRESSES: nat := 0x1_0000_0000

  function End(h: Heap): int {
    h.top + h.topsize
  }

  /** Every address of the 32-bit address space reads as some header; the heap ends inside it. */
  ghost predicate Mapped(h: Heap) {
    End(h) < ADDRESSES && forall a :: 0 <= a < ADDRESSES ==> a in h.head && a in h.foot
  }

  ghost predicate Grid(h: Heap) {
    && h.first in h.starts && h.top in h.starts && 0 < h.first && h.topsize > 0
    && forall a :: a in h.starts ==> h.first <= a <= h.top && a % 8 == 0
  }

  predicate Within(h: Heap, a: int) {
    a in h.starts && a != h.top && a in h.head
  }

  function Next(h: Heap, a: int): int
    requires a in h.head
  {
    a + h.head[a].size
  }

  ghost predicate IsFree(h: Heap, a: int) {
    Within(h, a) && !h.head[a].cinuse
  }

  ghost predicate IsLive(h: Heap, a: int) {
    Within(h, a) && h.head[a].cinuse
  }

  // Each clause of the invariant is a pointwise predicate, quantified with itself as trigger: a
  // proof names the chunks it looks at, and the solver does not wander along the heap.

  /** A chunk has a legal size and is followed by a chunk. */
  ghost predicate StepOk(h: Heap, a: int) {
    Within(h, a) ==>
      h.head[a].size >= MIN_CHUNK && h.head[a].size % 8 == 0 && Next(h, a) in h.starts && Next(h, a) in h.head
  }

  /** Chunks do not overlap. */
  ghost predicate ApartOk(h: Heap, a: int, b: int) {
    Within(h, a) && b in h.starts && a < b ==> Next(h, a) <= b
  }

  /** The pinuse bit of the chunk after a mirrors a's cinuse bit. */
  ghost predicate MarkOk(h: Heap, a: int) {
    Within(h, a) && Next(h, a) in h.head ==> h.head[Next(h, a)].pinuse == h.head[a].cinuse
  }

  /** A free chunk has its size repeated at its foot ... */
  ghost predicate FootOk(h: Heap, a: int) {
    IsFree(h, a) ==> Next(h, a) in h.foot && h.foot[Next(h, a)] == h.head[a].size
  }

  /** ... from which the chunk after it finds it. */
  ghost predicate BackOk(h: Heap, b: int) {
    b in h.starts && b in h.head && !h.head[b].pinuse ==>
      b in h.foot && IsFree(h, b - (h.foot[b] as int)) && Next(h, b - (h.foot[b] as int)) == b
  }

  /** No free chunk borders another, or top. */
  ghost predicate CoalescedOk(h: Heap, a: int) {
    IsFree(h, a) ==> IsLive(h, Next(h, a))
  }

  ghost predicate Steps(h: Heap) {
    forall a {:trigger StepOk(h, a)} :: StepOk(h, a)
  }

  ghost predicate Apart(h: Heap) {
    forall a, b {:trigger ApartOk(h, a, b)} :: ApartOk(h, a, b)
  }

  ghost predicate Marks(h: Heap) {
    h.first in h.head && h.head[h.first].pinuse && forall a {:trigger MarkOk(h, a)} :: MarkOk(h, a)
  }

  ghost predicate Feet(h: Heap) {
    forall a {:trigger FootOk(h, a)} :: FootOk(h, a)
  }

  ghost predicate Backs(h: Heap) {
    forall b {:trigger BackOk(h, b)} :: BackOk(h, b)
  }

  ghost predicate Coalesced(h: Heap) {
    forall a {:trigger CoalescedOk(h, a)} :: CoalescedOk(h, a)
  }

  ghost predicate TopOk(h: Heap) {
    h.top in h.head && h.head[h.top] == Head(h.topsize, false, true)
  }

  ghost predicate Tiled(h: Heap) {
    Mapped(h) && Grid(h) && Steps(h) && Apart(h) && Marks(h) && Feet(h) && Backs(h) && Coalesced(h) && TopOk(h)
  }

  lemma {:induction false} StartsMapped(h: Heap, a: int)
    requires Mapped(h) && Grid(h) && a in h.starts
    ensures a in h.head && a in h.foot
  {
  }

  // ---------- releasing ----------

  /** The chunks between lo and hi become one free chunk. */
  function MakeFree(h: Heap, lo: int, hi: int): Heap
    requires lo in h.head && hi in h.head && lo <= hi
  {
    h.(head := h.head[hi := h.head[hi].(pinuse := false)][lo := Head(hi - lo, false, true)],
       foot := h.foot[hi := hi - lo],
       starts := set a | a in h.starts && !(lo < a < hi))
  }

  /** Boundaries at which a run may be redrawn: chunk starts, in order. */
  ghost predicate Run(h: Heap, lo: int, hi: int) {
    Tiled(h) && lo in h.starts && hi in h.starts && lo < hi && lo in h.head && hi in h.head
  }

  lemma {:induction false} RunStep(h: Heap, lo: int, hi: int)
    requires Run(h, lo, hi)
    ensures Within(h, lo) && Next(h, lo) <= hi && hi - lo >= MIN_CHUNK && (hi - lo) % 8 == 0
  {
    assert Within(h, lo);
    assert StepOk(h, lo) && ApartOk(h, lo, hi);
    MultiplesOf8(lo, hi);
  }

  lemma {:induction false} MultiplesOf8(lo: int, hi: int)
    requires lo % 8 == 0 && hi % 8 == 0
    ensures (hi - lo) % 8 == 0 && (hi + lo) % 8 == 0
  {
  }

  lemma {:induction false} MakeFreeSteps(h: Heap, lo: int, hi: int)
    requires Run(h, lo, hi) && h.head[lo].pinuse && IsLive(h, hi)
    ensures var h' := MakeFree(h, lo, hi); Mapped(h') && Grid(h') && Steps(h') && Apart(h') && TopOk(h')
  {
    RunStep(h, lo, hi);
    var h' := MakeFree(h, lo, hi);
    forall a
      ensures StepOk(h', a)
    {
      assert StepOk(h, a) && ApartOk(h, a, lo) && ApartOk(h, a, hi);
    }
    forall a, b
      ensures ApartOk(h', a, b)
    {
      assert ApartOk(h, a, b);
    }
  }

  lemma {:induction false} MakeFreeMarks(h: Heap, lo: int, hi: int)
    requires Run(h, lo, hi) && h.head[lo].pinuse && IsLive(h, hi)
    ensures var h' := MakeFree(h, lo, hi); Marks(h') && Feet(h') && Coalesced(h')
  {
    RunStep(h, lo, hi);
    var h' := MakeFree(h, lo, hi);
    forall a
      ensures MarkOk(h', a) && FootOk(h', a) && CoalescedOk(h', a)
    {
      assert StepOk(h, a) && ApartOk(h, a, lo) && ApartOk(h, a, hi);
      assert MarkOk(h, a) && FootOk(h, a) && CoalescedOk(h, a);
    }
  }

  lemma {:induction false} MakeFreeBacks(h: Heap, lo: int, hi: int)
    requires Run(h, lo, hi) && h.head[lo].pinuse && IsLive(h, hi)
    ensures Backs(MakeFree(h, lo, hi))
  {
    RunStep(h, lo, hi);
    var h' := MakeFree(h, lo, hi);
    forall b
      ensures BackOk(h', b)
    {
      assert BackOk(h, b);
      if b in h'.starts && b in h'.head && !h'.head[b].pinuse && b != hi {
        var a := b - h.foot[b];
        assert ApartOk(h, a, lo) && ApartOk(h, a, hi) && ApartOk(h, lo, b);
      }
    }
  }

  lemma {:induction false} MakeFreeTiled(h: Heap, lo: int, hi: int)
    requires Run(h, lo, hi) && h.head[lo].pinuse && IsLive(h, hi)
    ensures Tiled(MakeFree(h, lo, hi))
  {
    MakeFreeSteps(h, lo, hi);
    MakeFreeMarks(h, lo, hi);
    MakeFreeBacks(h, lo, hi);
  }

  /** Everything from lo on joins top. */
  function MakeTop(h: Heap, lo: int): Heap
    requires lo <= End(h)
  {
    h.(head := h.head[lo := Head(End(h) - lo, false, true)],
       starts := (set a | a in h.starts && a <= lo), top := lo, topsize := End(h) - lo)
  }

  lemma {:induction false} MakeTopTiled(h: Heap, lo: int)
    requires Run(h, lo, h.top) && h.head[lo].pinuse
    ensures Tiled(MakeTop(h, lo))
  {
    var h' := MakeTop(h, lo);
    forall a
      ensures StepOk(h', a) && MarkOk(h', a) && FootOk(h', a) && CoalescedOk(h', a) && BackOk(h', a)
    {
      assert StepOk(h, a) && ApartOk(h, a, lo) && MarkOk(h, a) && FootOk(h, a) && CoalescedOk(h, a) && BackOk(h, a);
    }
    forall a, b
      ensures ApartOk(h', a, b)
    {
      assert ApartOk(h, a, b);
    }
  }

  // ---------- taking ----------

  /** The chunks between lo and hi become one chunk in use. */
  function MakeUsed(h: Heap, lo: int, hi: int): Heap
    requires lo in h.head && hi in h.head && lo <= hi
  {
    h.(head := h.head[lo := Head(hi - lo, true, h.head[lo].pinuse)][hi := h.head[hi].(pinuse := true)],
       starts := set a | a in h.starts && !(lo < a < hi))
  }

  lemma {:induction false} MakeUsedSteps(h: Heap, lo: int, hi: int)
    requires Run(h, lo, hi)
    ensures var h' := MakeUsed(h, lo, hi);
            Mapped(h') && Grid(h') && Steps(h') && Apart(h') && TopOk(h') && Marks(h') && Feet(h')
  {
    RunStep(h, lo, hi);
    var h' := MakeUsed(h, lo, hi);
    forall a
      ensures StepOk(h', a) && MarkOk(h', a) && FootOk(h', a)
    {
      assert StepOk(h, a) && ApartOk(h, a, lo) && ApartOk(h, a, hi) && MarkOk(h, a) && FootOk(h, a);
    }
    forall a, b
      ensures ApartOk(h', a, b)
    {
      assert ApartOk(h, a, b);
    }
  }

  lemma {:induction false} MakeUsedTiled(h: Heap, lo: int, hi: int)
    requires Run(h, lo, hi)
    ensures Tiled(MakeUsed(h, lo, hi))
  {
    RunStep(h, lo, hi);
    MakeUsedSteps(h, lo, hi);
    var h' := MakeUsed(h, lo, hi);
    forall b
      ensures BackOk(h', b)
    {
      assert BackOk(h, b);
      if b in h'.starts && b in h'.head && !h'.head[b].pinuse {
        var a := b - h.foot[b];
        assert StepOk(h, a) && ApartOk(h, a, lo) && ApartOk(h, a, hi) && ApartOk(h, lo, b);
      }
    }
    MakeUsedCoalesced(h, lo, hi);
  }

  lemma {:induction false} MakeUsedCoalesced(h: Heap, lo: int, hi: int)
    requires Run(h, lo, hi)
    ensures Coalesced(MakeUsed(h, lo, hi))
  {
    RunStep(h, lo, hi);
    var h' := MakeUsed(h, lo, hi);
    forall a
      ensures CoalescedOk(h', a)
    {
      assert CoalescedOk(h, a) && ApartOk(h, a, lo) && ApartOk(h, a, hi);
    }
  }

  /** A chunk in use is cut at m into two chunks in use. */
  function SplitUsed(h: Heap, p: int, m: int): Heap
    requires p in h.head && p <= m <= Next(h, p)
  {
    h.(head := h.head[m := Head(Next(h, p) - m, true, true)][p := Head(m - p, true, h.head[p].pinuse)],
       starts := h.starts + {m})
  }

  ghost predicate Cuttable(h: Heap, p: int, m: int) {
    Tiled(h) && IsLive(h, p) && m % 8 == 0 && p + MIN_CHUNK <= m && m + MIN_CHUNK <= Next(h, p)
  }

  lemma {:induction false} CutInside(h: Heap, p: int, m: int)
    requires Cuttable(h, p, m)
    ensures m !in h.starts && StepOk(h, p) && MarkOk(h, p) && m in h.head && h.first < m < h.top && m != Next(h, p)
  {
    assert StepOk(h, p) && ApartOk(h, p, m) && MarkOk(h, p);
  }

  lemma {:induction false} SplitUsedSteps(h: Heap, p: int, m: int)
    requires Cuttable(h, p, m)
    ensures var h' := SplitUsed(h, p, m); Mapped(h') && Grid(h') && Steps(h') && TopOk(h')
  {
    CutInside(h, p, m);
    MultiplesOf8(p, m);
    MultiplesOf8(m, Next(h, p));
    var h' := SplitUsed(h, p, m);
    forall a
      ensures StepOk(h', a)
    {
      assert StepOk(h, a);
    }
  }

  lemma {:induction false} SplitUsedApart(h: Heap, p: int, m: int)
    requires Cuttable(h, p, m)
    ensures Apart(SplitUsed(h, p, m))
  {
    CutInside(h, p, m);
    var h' := SplitUsed(h, p, m);
    forall a, b
      ensures ApartOk(h', a, b)
    {
      assert ApartOk(h, a, b) && ApartOk(h, a, p) && ApartOk(h, p, b) && ApartOk(h, p, a);
    }
  }

  lemma {:induction false} SplitUsedMarks(h: Heap, p: int, m: int)
    requires Cuttable(h, p, m)
    ensures var h' := SplitUsed(h, p, m); Marks(h') && Feet(h') && Coalesced(h')
  {
    CutInside(h, p, m);
    var h' := SplitUsed(h, p, m);
    forall a
      ensures MarkOk(h', a) && FootOk(h', a) && CoalescedOk(h', a)
    {
      assert StepOk(h, a) && MarkOk(h, a) && FootOk(h, a) && CoalescedOk(h, a);
    }
  }

  lemma {:induction false} SplitUsedTiled(h: Heap, p: int, m: int)
    requires Cuttable(h, p, m)
    ensures Tiled(SplitUsed(h, p, m))
  {
    CutInside(h, p, m);
    SplitUsedSteps(h, p, m);
    SplitUsedApart(h, p, m);
    SplitUsedMarks(h, p, m);
    forall b
      ensures BackOk(SplitUsed(h, p, m), b)
    {
      assert BackOk(h, b);
    }
  }

  /** nb bytes from the start of top become a chunk in use. */
  function SplitTop(h: Heap, nb: nat): Heap
    requires nb <= h.topsize
  {
    h.(head := h.head[h.top + nb := Head(h.topsize - nb, false, true)][h.top := Head(nb, true, true)],
       starts := h.starts + {h.top + nb}, top := h.top + nb, topsize := h.topsize - nb)
  }

  lemma {:induction false} SplitTopTiled(h: Heap, nb: nat)
    requires Tiled(h) && nb % 8 == 0 && MIN_CHUNK <= nb < h.topsize
    ensures Tiled(SplitTop(h, nb))
  {
    var h' := SplitTop(h, nb);
    forall a
      ensures StepOk(h', a) && MarkOk(h', a) && FootOk(h', a) && CoalescedOk(h', a) && BackOk(h', a)
    {
      assert StepOk(h, a) && MarkOk(h, a) && FootOk(h, a) && CoalescedOk(h, a) && BackOk(h, a);
    }
    forall a, b
      ensures ApartOk(h', a, b)
    {
      assert ApartOk(h, a, b) && StepOk(h, a) && ApartOk(h, a, h.top);
    }
  }

  /** Top grows by bytes obtained from the system; the fake chunk behind it is rewritten (init_top). */
  function ExtendTop(h: Heap, more: nat): Heap {
    h.(head := h.head[h.top := Head(h.topsize + more, false, true)][End(h) + more := Head(40, false, false)],
       topsize := h.topsize + more)
  }

  lemma {:induction false} ExtendTopTiled(h: Heap, more: nat)
    requires Tiled(h) && End(h) + more < ADDRESSES
    ensures Tiled(ExtendTop(h, more))
  {
    var h' := ExtendTop(h, more);
    forall a
      ensures StepOk(h', a) && MarkOk(h', a) && FootOk(h', a) && CoalescedOk(h', a) && BackOk(h', a)
    {
      assert StepOk(h, a) && MarkOk(h, a) && FootOk(h, a) && CoalescedOk(h, a) && BackOk(h, a);
    }
    forall a, b
      ensures ApartOk(h', a, b)
    {
      assert ApartOk(h, a, b);
    }
  }

  /** A fresh segment: top is all there is. */
  function FreshHeap(head: map<int, Head>, foot: map<int, nat>, top: int, topsize: nat): Heap {
    Heap(head[top := Head(topsize, false, true)][top + topsize := Head(40, false, false)], foot, {top}, top, top, topsize)
  }

  lemma {:induction false} FreshHeapTiled(head: map<int, Head>, foot: map<int, nat>, top: int, topsize: nat)
    requires forall a :: 0 <= a < ADDRESSES ==> a in head && a in foot
    requires 0 < top && top % 8 == 0 && 0 < topsize && top + topsize < ADDRESSES
    ensures Tiled(FreshHeap(head, foot, top, topsize))
  {
    var h := FreshHeap(head, foot, top, topsize);
    forall a
      ensures StepOk(h, a) && MarkOk(h, a) && FootOk(h, a) && CoalescedOk(h, a) && BackOk(h, a)
    {
    }
  }

  // ---------- what the invariant gives the user ----------

  /** The usable bytes of a chunk: chunk2mem(a) up to the head word of the next chunk. */
  function PayloadStart(a: int): int {
    a + 8
  }

  function PayloadEnd(h: Heap, a: int): int
    requires a in h.head
  {
    Next(h, a) + 4
  }

  /** Payloads of live chunks are disjoint. */
  lemma {:induction false} PayloadsDisjoint(h: Heap, a: int, b: int)
    requires Tiled(h) && IsLive(h, a) && IsLive(h, b) && a < b
    ensures PayloadEnd(h, a) <= PayloadStart(b)
  {
    assert ApartOk(h, a, b);
  }

  /**
   * Writes to the payload of a live chunk p: they may hit the head words at (p, next) and the
   * prev_foot words up to the next chunk's own, and nothing else.
   */
  ghost predicate PayloadWrite(h: Heap, h': Heap, p: int)
    requires p in h.head
  {
    && h' == h.(head := h'.head, foot := h'.foot)
    && h'.head.Keys == h.head.Keys && h'.foot.Keys == h.foot.Keys
    && (forall a :: a in h.head && !(PayloadStart(p) < a + 8 && a + 4 < PayloadEnd(h, p)) ==> h'.head[a] == h.head[a])
    && (forall a :: a in h.foot && !(PayloadStart(p) < a + 4 && a < PayloadEnd(h, p)) ==> h'.foot[a] == h.foot[a])
  }

  /** No write inside a live payload can break the heap. */
  lemma {:induction false} PayloadWriteTiled(h: Heap, h': Heap, p: int)
    requires Tiled(h) && IsLive(h, p) && PayloadWrite(h, h', p)
    ensures Tiled(h')
    ensures forall a :: IsLive(h', a) <==> IsLive(h, a)
    ensures forall a :: IsFree(h', a) <==> IsFree(h, a)
    ensures forall a :: a in h.starts ==> a in h.head && a in h'.head && h'.head[a] == h.head[a]
  {
    assert StepOk(h, p) && MarkOk(h, p);
    forall a | a in h.starts
      ensures a in h'.head && h'.head[a] == h.head[a]
      ensures a != Next(h, p) ==> a in h'.foot && h'.foot[a] == h.foot[a]
    {
      assert ApartOk(h, p, a) && ApartOk(h, a, p);
    }
    forall a
      ensures StepOk(h', a) && MarkOk(h', a) && FootOk(h', a) && CoalescedOk(h', a)
    {
      assert StepOk(h, a) && MarkOk(h, a) && FootOk(h, a) && CoalescedOk(h, a) && ApartOk(h, a, p) && ApartOk(h, p, a);
    }
    forall b
      ensures BackOk(h', b)
    {
      assert BackOk(h, b);
    }
    forall a, b
      ensures ApartOk(h', a, b)
    {
      assert ApartOk(h, a, b);
    }
  }

  // ---------- conservation ----------

  /** The chunks met from a on, by following sizes. */
  ghost function Walk(h: Heap, a: int): (w: seq<int>)
    requires Tiled(h) && a in h.starts
    decreases h.top - a
  {
    if a == h.top then []
    else
      assert a in h.head && StepOk(h, a);
      [a] + Walk(h, Next(h, a))
  }

  ghost function Bytes(h: Heap, w: seq<int>): int
    requires forall i :: 0 <= i < |w| ==> w[i] in h.head
  {
    if w == [] then 0 else h.head[w[0]].size + Bytes(h, w[1..])
  }

  /** The walk meets every chunk, once, in address order, and its bytes add up to the whole heap below top. */
  lemma {:induction false} WalkTiles(h: Heap, a: int)
    requires Tiled(h) && a in h.starts
    ensures var w := Walk(h, a);
            && (forall b :: b in w <==> b in h.starts && a <= b < h.top)
            && (forall i, j :: 0 <= i < j < |w| ==> w[i] < w[j])
            && (forall i :: 0 <= i < |w| ==> w[i] in h.head)
            && Bytes(h, w) == h.top - a
    decreases h.top - a
  {
    if a != h.top {
      assert a in h.head && StepOk(h, a);
      var n := Next(h, a);
      WalkTiles(h, n);
      var w := Walk(h, a);
      assert w == [a] + Walk(h, n);
      assert w[1..] == Walk(h, n);
      forall b | b in h.starts && a <= b < h.top
        ensures b in w
      {
        if b != a {
          assert ApartOk(h, a, b);
          assert b in w[1..];
        }
      }
      forall b | b in w
        ensures b in h.starts && a <= b < h.top && b in h.head
      {
        if b != a { assert b in w[1..]; }
      }
    }
  }

  // ---------- which chunks are free and live after each redrawing ----------

  lemma {:induction false} MakeFreeChunks(h: Heap, lo: int, hi: int)
    requires Run(h, lo, hi)
    ensures var h' := MakeFree(h, lo, hi);
            && (forall a :: IsFree(h', a) <==> a == lo || (IsFree(h, a) && !(lo <= a < hi)))
            && (forall a :: IsLive(h', a) <==> IsLive(h, a) && !(lo <= a < hi))
            && (forall a :: Within(h', a) && a != lo ==> Within(h, a) && h'.head[a].size == h.head[a].size)
            && h'.head[lo].size == hi - lo
  {
    RunStep(h, lo, hi);
  }

  lemma {:induction false} MakeUsedChunks(h: Heap, lo: int, hi: int)
    requires Run(h, lo, hi)
    ensures var h' := MakeUsed(h, lo, hi);
            && (forall a :: IsFree(h', a) <==> IsFree(h, a) && !(lo <= a < hi))
            && (forall a :: IsLive(h', a) <==> a == lo || (IsLive(h, a) && !(lo <= a < hi)))
            && (forall a :: Within(h', a) && a != lo ==> Within(h, a) && h'.head[a].size == h.head[a].size)
            && h'.head[lo].size == hi - lo
  {
    RunStep(h, lo, hi);
  }

  lemma {:induction false} MakeTopChunks(h: Heap, lo: int)
    requires Run(h, lo, h.top)
    ensures var h' := MakeTop(h, lo);
            && (forall a :: IsFree(h', a) <==> IsFree(h, a) && a < lo)
            && (forall a :: IsLive(h', a) <==> IsLive(h, a) && a < lo)
            && (forall a :: Within(h', a) ==> h'.head[a].size == h.head[a].size)
  {
  }

  lemma {:induction false} SplitUsedChunks(h: Heap, p: int, m: int)
    requires Cuttable(h, p, m)
    ensures var h' := SplitUsed(h, p, m);
            && (forall a :: IsFree(h', a) <==> IsFree(h, a))
            && (forall a :: IsLive(h', a) <==> IsLive(h, a) || a == m)
            && (forall a :: Within(h', a) && a != p && a != m ==> h'.head[a].size == h.head[a].size)
            && h'.head[p].size == m - p && h'.head[m].size == Next(h, p) - m
  {
    CutInside(h, p, m);
  }

  lemma {:induction false} SplitTopChunks(h: Heap, nb: nat)
    requires Tiled(h) && 0 < nb < h.topsize
    ensures var h' := SplitTop(h, nb);
            && (forall a :: IsFree(h', a) <==> IsFree(h, a))
            && (forall a :: IsLive(h', a) <==> IsLive(h, a) || a == h.top)
            && (forall a :: Within(h', a) && a != h.top ==> h'.head[a].size == h.head[a].size)
            && h'.head[h.top].size == nb
  {
  }
}
