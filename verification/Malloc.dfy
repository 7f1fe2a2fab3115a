// dlmalloc as configured for wasm32 (src/runtime/src/alloc_wasm.c:24-49): chunk headers in memory,
// the designated victim, top, and the bins. Addresses and sizes are 32-bit words.

module Malloc {
  import opened BinMaps
  import opened HeapTiling
  import opened HeapPlacement
  import opened HeapRelease
  import opened HeapResize
  import opened HeapFrame
  import opened FreeStore
  import CB = ChunkBins
  import LB = LargeBins
  import SB = SmallBins
  import TB = TreeBins

  const TOP_FOOT: nat := 40

  /** Every address of the 32-bit address space can be read. */
  ghost predicate AllWords(head: map<int, Head>, foot: map<int, nat>) {
    forall a :: 0 <= a < ADDRESSES ==> a in head && a in foot
  }

  /** `align_offset` */
  function AlignOffset(a: nat): nat {
    if a % 8 == 0 then 0 else (8 - a % 8) % 8
  }

  /** In-place resizing: p keeps its place and has room for nb bytes, or nothing happened. */
  ghost predicate Resized(before: map<int, nat>, after: map<int, nat>, p: int, nb: nat, q: int) {
    && (q == 0 || q == p)
    && (q == 0 ==> after == before)
    && (q == p ==> p in after && after == before[p := after[p]] && nb <= after[p] < nb + MIN_CHUNK)
  }

  /** The chunk has nb bytes, alone or with top, which keeps at least one, or with the free chunk behind it. */
  ghost predicate Growable(h: Heap, p: int, nb: nat) {
    && p in h.head
    && var size, next := h.head[p].size, Next(h, p);
    || size >= nb
    || (next == h.top && size + h.topsize > nb)
    || (IsFree(h, next) && size + h.head[next].size >= nb)
  }

  /** `Growable`, by what the chunk is followed by. */
  lemma {:induction false} GrowableIs(h: Heap, dv: int, dvsize: nat, bins: map<int, nat>, p: int, nb: nat)
    requires Tiled(h) && Placed(h, dv, dvsize, bins, {}) && IsLive(h, p)
    ensures var size, next := h.head[p].size, Next(h, p);
            && next in h.head
            && (size >= nb ==> Growable(h, p, nb))
            && (size < nb ==>
                  (Growable(h, p, nb) <==>
                   if next == h.top then size + h.topsize > nb
                   else if next == dv then size + dvsize >= nb
                   else !h.head[next].cinuse && size + h.head[next].size >= nb))
  {
    BackwardRun(h, p);
    if Next(h, p) == dv {
      DvNonzero(h, dv, dvsize, bins, {});
      DvChunk(h, dv, dvsize, bins, {});
    }
  }

  /** What lies around a live chunk, as free memory has it. */
  lemma {:induction false} AroundIs(h: Heap, s: Store, p: int)
    requires Tiled(h) && Placed(h, s.dv, s.dvsize, s.bins, {}) && IsLive(h, p) && s.top == h.top
    ensures p in h.head && p in h.foot && Next(h, p) in h.head && Low(s, p) == Lowest(h, p) && p !in s.bins
    ensures var q := Next(h, p);
            && (q != h.top ==> (FreeAt(s, q) <==> !h.head[q].cinuse) && (FreeAt(s, q) ==> SizeAt(s, q) == h.head[q].size))
            && (s.dvsize != 0 ==> s.dv !in s.bins) && (s.dvsize == 0 ==> s.dv == 0)
            && (h.head[q].cinuse ==> q != h.top && !FreeAt(s, q))
  {
    BackwardRun(h, p);
    forall a
      ensures FreeAt(s, a) <==> IsFree(h, a)
      ensures IsFree(h, a) ==> SizeAt(s, a) == h.head[a].size
    {
      FreeAtIs(h, s, a);
    }
    hide Placed, FreeAt, SizeAt;
    var lo := Lowest(h, p);
    forall a | EndsAt(s, a, p)
      ensures a == lo && lo != p
    {
      EndsOnce(h, a, p);
    }
    if lo != p { assert EndsAt(s, lo, p); }
  }

  lemma {:induction false} FreeAtIs(h: Heap, s: Store, a: int)
    requires Tiled(h) && Placed(h, s.dv, s.dvsize, s.bins, {})
    ensures FreeAt(s, a) <==> IsFree(h, a)
    ensures IsFree(h, a) ==> SizeAt(s, a) == h.head[a].size
    ensures (s.dvsize != 0 ==> s.dv !in s.bins) && (s.dvsize == 0 ==> s.dv == 0)
  {
    if s.dvsize != 0 { DvChunk(h, s.dv, s.dvsize, s.bins, {}); }
    if IsFree(h, a) && a == s.dv { FreeIsPlaced(h, s.dv, s.dvsize, s.bins, {}, a); }
  }

  lemma {:induction false} EndsOnce(h: Heap, a: int, p: int)
    requires Tiled(h) && IsFree(h, a) && Next(h, a) == p && IsLive(h, p)
    ensures p in h.head && p in h.foot && !h.head[p].pinuse && Lowest(h, p) == a
  {
    BackwardRun(h, p);
    assert StepOk(h, a) && MarkOk(h, a) && BackOk(h, p);
    var lo := Lowest(h, p);
    if lo != p { assert ApartOk(h, a, lo) && ApartOk(h, lo, a); }
  }

  lemma {:induction false} NoKey(m: map<int, nat>, k: int)
    requires k !in m
    ensures m - {k} == m
  {
  }

  /** Neither dv nor top is binned. */
  lemma {:induction false} RestNotBinned(h: Heap, dv: int, dvsize: nat, bins: map<int, nat>)
    requires Tiled(h) && Placed(h, dv, dvsize, bins, {})
    ensures (dvsize != 0 ==> dv !in bins) && h.top !in bins
  {
  }

  lemma {:induction false} InContents(small: map<int, nat>, large: map<int, nat>, p: int)
    requires SizesApart(small, large) && p in small
    ensures p in small + large && (small + large)[p] == small[p]
  {
  }

  lemma {:induction false} NoExact(small: map<int, nat>, large: map<int, nat>, nb: nat, none: bool)
    requires SizesApart(small, large)
    requires none ==> forall a :: a in small ==> small[a] != nb && small[a] != nb + 8
    ensures none ==> forall a :: !Exact(small + large, nb, a)
  {
    forall a
      ensures Exact(small + large, nb, a) <==> a in small && (small[a] == nb || small[a] == nb + 8)
    {
      ExactIs(small, large, nb, a);
    }
  }

  lemma {:induction false} ExactChosen(s: Store, small: map<int, nat>, large: map<int, nat>, nb: nat, p: int)
    requires SizesApart(small, large) && s.bins == small + large && p in small && nb < 0x100
    requires small[p] == nb || (small[p] == nb + 8 && forall a :: a in small ==> small[a] != nb)
    ensures Chosen(s, nb, p) && p in s.bins && s.bins[p] == small[p]
  {
    ExactIs(small, large, nb, p);
    InContents(small, large, p);
    forall a | Exact(s.bins, nb, a)
      ensures s.bins[p] <= s.bins[a]
    {
      ExactIs(small, large, nb, a);
      InContents(small, large, a);
    }
  }

  lemma {:induction false} LiveFacts(h: Heap, p: int)
    requires Tiled(h) && p in LiveMap(h)
    ensures IsLive(h, p) && h.head[p].size == LiveMap(h)[p] && p > 0 && p % 8 == 0 && h.head[p].size % 8 == 0
    ensures h.head[p].size >= MIN_CHUNK && Next(h, p) in h.head && MarkOk(h, p) && Next(h, p) <= h.top
    ensures h.top + h.topsize < ADDRESSES && Mapped(h) && Grid(h)
  {
    assert StepOk(h, p) && MarkOk(h, p);
  }

  lemma {:induction false} WroteInside(h: Heap, h': Heap, p: int)
    requires p in h.head && h' == h.(head := h'.head, foot := h'.foot)
    requires h'.head.Keys == h.head.Keys && h'.foot.Keys == h.foot.Keys
    requires forall a :: a in h.head && !(p + 8 < a + 8 && a + 4 < p + h.head[p].size + 4) ==> h'.head[a] == h.head[a]
    requires forall a :: a in h.foot && !(p + 8 < a + 4 && a < p + h.head[p].size + 4) ==> h'.foot[a] == h.foot[a]
    ensures PayloadWrite(h, h', p)
  {
  }

  lemma {:induction false} TrimFacts(h: Heap, p: int, nb: nat)
    requires Tiled(h) && IsLive(h, p) && nb % 8 == 0 && MIN_CHUNK <= nb && nb + MIN_CHUNK <= h.head[p].size
    ensures Cuttable(h, p, p + nb) && p in LiveMap(h) && p + nb !in LiveMap(h)
    ensures p + nb in h.head && Next(h, p) in h.head && h.head[Next(h, p)].pinuse
  {
    hide LiveMap;
    assert StepOk(h, p) && MarkOk(h, p);
    MultiplesOf8(p, nb);
    CutInside(h, p, p + nb);
    CutLive(h, p, p + nb);
  }

  /** Marking the two parts in the other order writes the same words. */
  lemma {:induction false} CutWritten(h: Heap, p: int, m: int)
    requires Cuttable(h, p, m)
    ensures p in h.head && m in h.head && Next(h, p) in h.head && p <= m <= Next(h, p)
    ensures var n := Next(h, p);
            h.head[m := Head(n - m, true, h.head[m].pinuse)][n := h.head[n].(pinuse := true)]
            [p := Head(m - p, true, h.head[p].pinuse)][m := Head(n - m, true, true)] == SplitUsed(h, p, m).head
  {
    CutInside(h, p, m);
  }

  lemma {:induction false} AbsorbedCut(h: Heap, p: int, nb: nat)
    requires Tiled(h) && IsLive(h, p) && nb % 8 == 0 && MIN_CHUNK <= nb && nb + MIN_CHUNK <= h.head[p].size
    ensures Cuttable(h, p, p + nb) && p + nb in h.head && Next(h, p) in h.head && Next(h, p) in h.foot
  {
    TrimFacts(h, p, nb);
    assert StepOk(h, p);
    StartsMapped(h, Next(h, p));
  }

  lemma {:induction false} DvNonzero(h: Heap, dv: int, dvsize: nat, bins: map<int, nat>, loose: set<int>)
    requires Placed(h, dv, dvsize, bins, loose) && dv > 0
    ensures dvsize != 0
  {
  }

  lemma {:induction false} KeyTwice(live: map<int, nat>, p: int, s: nat, nb: nat)
    ensures live[p := s][p := nb] == live[p := nb]
  {
  }

  lemma {:induction false} CutBack(live: map<int, nat>, p: int, r: int, nb: nat, rsize: nat)
    requires p in live && r !in live && p < r
    ensures live[p := nb][r := rsize] - {r} == live[p := nb]
  {
  }

  /** A run of chunks of which one is dv: it can be merged once dv is given up. */
  lemma {:induction false} DvInRun(h: Heap, dv: int, dvsize: nat, bins: map<int, nat>, p: int, lo: int, hi: int, run: set<int>)
    requires Placed(h, dv, dvsize, bins, run - {dv}) && dv == lo && Around(h, p, lo, hi, run) && Tiled(h)
    requires IsLive(h, p)
    ensures Placed(h, 0, 0, bins, run)
  {
    assert dv in run;
    DvToLoose(h, dv, dvsize, bins, run - {dv});
    assert run - {dv} + {dv} == run;
  }

  lemma {:induction false} FreeIsPlaced(h: Heap, dv: int, dvsize: nat, bins: map<int, nat>, loose: set<int>, a: int)
    requires Tiled(h) && Placed(h, dv, dvsize, bins, loose) && IsFree(h, a)
    ensures a > 0 && a in h.head && (a == dv || a in loose || a in bins) && (a == dv ==> dvsize != 0 && dvsize == h.head[a].size)
  {
  }

  lemma {:induction false} NotLoose(h: Heap, dv: int, dvsize: nat, bins: map<int, nat>, loose: set<int>)
    requires Placed(h, dv, dvsize, bins, loose)
    ensures dv !in loose
  {
  }

  lemma {:induction false} RunBounds(h: Heap, p: int, lo: int, hi: int, run: set<int>)
    requires Around(h, p, lo, hi, run)
    ensures lo in h.head && hi in h.head && 0 < lo < hi
  {
  }

  /** The unsigned test `rsize < dvsize - nb`. */
  lemma {:induction false} CloserFit(rsize: nat, dvsize: nat, nb: nat)
    requires nb + rsize < W && dvsize < W
    ensures rsize < (dvsize + W - nb) % W <==> dvsize < nb || nb + rsize < dvsize
  {
  }

  lemma {:induction false} SameLiveTrans(h: Heap, h1: Heap, h2: Heap)
    requires LiveMap(h1) == LiveMap(h) && Untouched(h, h1) && Untouched(h1, h2)
    ensures Untouched(h, h2)
  {
    hide LiveMap;
    UntouchedTrans(h, h1, h2);
  }

  lemma {:induction false} NothingLive(h: Heap, h': Heap)
    requires LiveMap(h) == map[]
    ensures Untouched(h, h')
  {
  }

  lemma {:induction false} NoChunks(h: Heap)
    requires h.starts == {}
    ensures LiveMap(h) == map[]
  {
  }

  lemma {:induction false} NewHeap(head: map<int, Head>, foot: map<int, nat>, top: int, topsize: nat)
    requires AllWords(head, foot) && 0 < top && top % 8 == 0 && 0 < topsize && top + topsize < ADDRESSES
    ensures var h := FreshHeap(head, foot, top, topsize); Tiled(h) && Placed(h, 0, 0, map[], {}) && LiveMap(h) == map[]
  {
    FreshHeapTiled(head, foot, top, topsize);
    hide Tiled;
    var h := FreshHeap(head, foot, top, topsize);
    assert forall a :: !Within(h, a);
  }

  lemma {:induction false} ExtendPlaced(h: Heap, dv: int, dvsize: nat, bins: map<int, nat>, more: nat)
    requires Tiled(h) && Placed(h, dv, dvsize, bins, {}) && End(h) + more < ADDRESSES
    ensures Tiled(ExtendTop(h, more)) && Placed(ExtendTop(h, more), dv, dvsize, bins, {})
    ensures LiveMap(ExtendTop(h, more)) == LiveMap(h)
  {
    ExtendTopTiled(h, more);
    var h' := ExtendTop(h, more);
    assert Grid(h);
    forall a
      ensures Within(h', a) <==> Within(h, a)
      ensures Within(h', a) ==> h'.head[a] == h.head[a]
    {
    }
    hide Tiled;
  }

  lemma {:induction false} TopAddress(h: Heap)
    requires Tiled(h)
    ensures h.topsize > 0 && Mapped(h) && h.top > 0 && h.first <= h.top && h.top % 8 == 0 && h.top !in LiveMap(h)
  {
  }

  lemma {:induction false} HasWords(h: Heap)
    requires Tiled(h)
    ensures AllWords(h.head, h.foot) && h.top > 0
  {
  }

  lemma {:induction false} NoTrees(bins: CB.ChunkBins)
    requires bins.Valid()
    ensures bins.large.treemap == 0 <==> bins.large.contents == map[]
  {
    LB.EmptyIff(bins.large.State());
  }

  lemma {:induction false} LooseIsFree(h: Heap, dv: int, dvsize: nat, bins: map<int, nat>, p: int)
    requires Placed(h, dv, dvsize, bins, {p})
    ensures IsFree(h, p)
  {
    assert p in {p};
  }

  lemma {:induction false} LooseAddress(h: Heap, dv: int, dvsize: nat, bins: map<int, nat>, p: int)
    requires Tiled(h) && Placed(h, dv, dvsize, bins, {p})
    ensures p > 0 && p % 8 == 0
  {
    assert p in {p};
    PlacedSizes(h, dv, dvsize, bins, {p}, p);
  }

  lemma {:induction false} DvWord(h: Heap, dv: int, dvsize: nat, bins: map<int, nat>)
    requires Tiled(h) && Placed(h, dv, dvsize, bins, {})
    ensures dvsize < W
  {
    if dvsize != 0 { PlacedSizes(h, dv, dvsize, bins, {}, dv); }
  }

  lemma {:induction false} BinnedChunk(h: Heap, dv: int, dvsize: nat, bins: map<int, nat>, loose: set<int>, p: int)
    requires Placed(h, dv, dvsize, bins, loose) && p in bins
    ensures p in h.head && h.head[p].size == bins[p]
  {
  }

  lemma {:induction false} HasGrid(h: Heap)
    requires Tiled(h)
    ensures Grid(h) && Mapped(h)
  {
  }

  lemma {:induction false} DvChunk(h: Heap, dv: int, dvsize: nat, bins: map<int, nat>, loose: set<int>)
    requires Placed(h, dv, dvsize, bins, loose) && dvsize != 0
    ensures IsFree(h, dv) && h.head[dv].size == dvsize
  {
  }

  lemma {:induction false} NoDv(h: Heap, dv: int, dvsize: nat, bins: map<int, nat>, loose: set<int>)
    requires Placed(h, dv, dvsize, bins, loose) && dvsize == 0
    ensures dv == 0
  {
  }

  /** What a successful allocation of nb bytes does: one new live chunk, of at least nb and less than nb + 16 bytes. */
  ghost predicate Got(before: map<int, nat>, after: map<int, nat>, p: int, nb: nat) {
    && p > 0 && p % 8 == 0 && p !in before && p in after
    && after == before[p := after[p]] && nb <= after[p] < nb + MIN_CHUNK
  }

  /** A free chunk alone: nothing starts inside it, and it is not live. */
  lemma {:induction false} WholeRun(h: Heap, p: int)
    requires Tiled(h) && IsFree(h, p)
    ensures LooseIn(h, {p}, p, Next(h, p))
    ensures Outside(LiveMap(h), p, Next(h, p)) == LiveMap(h) && p !in LiveMap(h)
  {
    assert StepOk(h, p);
    forall a | a in h.starts
      ensures !(p < a < Next(h, p))
    {
      assert ApartOk(h, p, a);
    }
  }

  class MallocState {
    // memory, as chunk headers
    var head: map<int, Head>
    var foot: map<int, nat>
    // malloc_state
    var dv: int
    var dvsize: nat
    var top: int
    var topsize: nat
    const bins: CB.ChunkBins
    // where the chunks are
    ghost var starts: set<int>
    ghost var first: int

    ghost function H(): Heap
      reads this
    {
      Heap(head, foot, starts, first, top, topsize)
    }

    /** The heap is tiled, and every free chunk not in `loose` is dv or in one bin. */
    ghost predicate Sound(loose: set<int>)
      reads this, bins, bins.small, bins.large
    {
      bins.Valid() && Tiled(H()) && Placed(H(), dv, dvsize, bins.Contents(), loose)
    }

    ghost function Live(): map<int, nat>
      reads this
    {
      LiveMap(H())
    }

    /** Free memory. */
    ghost function Free(): Store
      reads this, bins, bins.small, bins.large
    {
      Store(bins.Contents(), dv, dvsize, top, topsize)
    }

    /** Sound, or still without memory. */
    ghost predicate Ready()
      reads this, bins, bins.small, bins.large
    {
      && bins.Valid() && AllWords(head, foot)
      && (top != 0 ==> Sound({}))
      && (top == 0 ==> bins.Contents() == map[] && dv == 0 && dvsize == 0 && topsize == 0 && starts == {})
    }

    lemma {:induction false} Initialised(p: int)
      requires Ready() && p in Live()
      ensures top != 0 && Sound({})
    {
    }

    constructor (heads: map<int, Head>, feet: map<int, nat>)
      requires AllWords(heads, feet)
      ensures top == 0 && Ready() && Live() == map[]
      ensures fresh(bins) && fresh(bins.small) && fresh(bins.large)
    {
      head, foot := heads, feet;
      dv, dvsize, top, topsize := 0, 0, 0, 0;
      bins := new CB.ChunkBins();
      starts, first := {}, 0;
    }

    /** `set_inuse_and_pinuse`: a loose free chunk goes into use whole. */
    method TakeWhole(p: int)
      requires Sound({p})
      modifies this`head, this`starts
      ensures Sound({})
      ensures p in old(head) && p !in old(Live()) && Live() == old(Live())[p := old(head)[p].size]
      ensures Untouched(old(H()), H())
    {
      hide Untouched, Tiled, Placed, LiveMap, LooseIn, Run;
      ghost var h := H();
      assert p in {p};
      PlacedSizes(h, dv, dvsize, bins.Contents(), {p}, p);
      ghost var n := Next(h, p);
      WholeRun(h, p);
      UsePlaced(h, dv, dvsize, bins.Contents(), {p}, p, n);
      UsedUntouched(h, p, n);
      var s := head[p].size;
      head := head[p := Head(s, true, true)];
      head := head[p + s := head[p + s].(pinuse := true)];
      starts := MakeUsed(h, p, n).starts;
      assert H() == MakeUsed(h, p, n);
    }

    /** Split a loose free chunk: nb bytes go into use, and the rest is the new loose chunk. */
    method SplitLoose(p: int, nb: nat) returns (r: int)
      requires Sound({p}) && p in head && nb % 8 == 0 && MIN_CHUNK <= nb && nb + MIN_CHUNK <= head[p].size
      modifies this`head, this`foot, this`starts
      ensures Sound({r}) && r in head && head[r].size == old(head)[p].size - nb
      ensures p !in old(Live()) && Live() == old(Live())[p := nb]
      ensures Untouched(old(H()), H())
      ensures r == p + nb
    {
      hide Untouched, Tiled, Placed, LiveMap;
      ghost var h := H();
      assert p in {p};
      PlacedSizes(h, dv, dvsize, bins.Contents(), {p}, p);
      WholeRun(h, p);
      SplitPlaced(h, dv, dvsize, bins.Contents(), p, nb);
      LooseIsFree(SplitFree(h, p, nb), dv, dvsize, bins.Contents(), p + nb);
      SplitUntouched(h, p, nb);
      var rsize := head[p].size - nb;
      r := p + nb;
      head := head[p := Head(nb, true, true)];
      head := head[r := Head(rsize, false, true)];
      foot := foot[r + rsize := rsize];
      starts := starts + {r};
      assert H() == SplitFree(h, p, nb);
    }

    lemma {:induction false} BinsApart()
      requires bins.Valid()
      ensures SizesApart(bins.small.contents, bins.large.contents)
      ensures bins.Contents() == bins.small.contents + bins.large.contents
    {
      bins.SizesApart();
      hide SB.ValidBins, TB.ValidBins;
    }

    /** `unlink_chunk`: a binned chunk becomes loose. */
    method UnlinkLoose(p: int, ghost loose: set<int>)
      requires Sound(loose) && p in bins.Contents()
      modifies bins.small, bins.large
      ensures Sound(loose + {p}) && p in head && head[p].size == old(bins.Contents())[p]
      ensures bins.Contents() == old(bins.Contents()) - {p}
    {
      hide Tiled, Placed;
      BinnedChunk(H(), dv, dvsize, bins.Contents(), loose, p);
      BinToLoose(H(), dv, dvsize, bins.Contents(), loose, p);
      bins.Unlink(p, head[p].size);
    }

    /** The same, with nothing loose yet. */
    method Unbin(p: int)
      requires Sound({}) && p in bins.Contents()
      modifies bins.small, bins.large
      ensures Sound({p}) && p in head && head[p].size == old(bins.Contents())[p]
      ensures bins.Contents() == old(bins.Contents()) - {p}
    {
      hide Tiled, Placed, SB.ValidBins, TB.ValidBins;
      UnlinkLoose(p, {});
      assert {} + {p} == {p};
    }

    /** `insert_chunk`: the loose chunk goes into its bin. */
    method InsertLoose(r: int)
      requires Sound({r})
      modifies bins.small, bins.large
      ensures Sound({})
      ensures r in head && Free() == old(Free()).(bins := old(bins.Contents())[r := head[r].size])
    {
      hide Tiled, Placed;
      assert r in {r};
      PlacedSizes(H(), dv, dvsize, bins.Contents(), {r}, r);
      LooseToBin(H(), dv, dvsize, bins.Contents(), r);
      bins.Insert(r, head[r].size);
    }

    /** `replace_dv`: the loose chunk becomes dv, the old (small) dv goes into its bin. */
    method ReplaceDv(r: int)
      requires Sound({r}) && CB.IsSmall(dvsize)
      modifies this`dv, this`dvsize, bins.small, bins.large
      ensures Sound({})
      ensures r in head && Free() == WithDv(old(Free()), r, head[r].size)
    {
      hide Tiled, Placed;
      ghost var h := H();
      assert r in {r};
      PlacedSizes(h, dv, dvsize, bins.Contents(), {r}, r);
      if dvsize != 0 {
        PlacedSizes(h, dv, dvsize, bins.Contents(), {r}, dv);
        HasGrid(h);
        DvChunk(h, dv, dvsize, bins.Contents(), {r});
        DvToBin(h, dv, dvsize, bins.Contents(), {r});
        bins.Insert(dv, dvsize);
      } else {
        NoDv(h, dv, dvsize, bins.Contents(), {r});
      }
      LooseToDv(h, bins.Contents(), r);
      dvsize := head[r].size;
      dv := r;
    }

    // ---------- malloc ----------

    /** `tmalloc_small`: split the smallest tree chunk, the remainder becoming dv. */
    method TmallocSmall(nb: nat) returns (p: int)
      requires Sound({}) && nb % 8 == 0 && MIN_CHUNK <= nb < 0x100 && dvsize < nb && bins.large.treemap != 0
      modifies this`head, this`foot, this`starts, this`dv, this`dvsize, bins.small, bins.large
      ensures Sound({}) && Got(old(Live()), Live(), p, nb)
      ensures p in old(bins.large.contents)
      ensures forall a :: a in old(bins.large.contents) ==> old(bins.large.contents)[p] <= old(bins.large.contents)[a]
      ensures Untouched(old(H()), H())
      ensures Free() == AfterServe(old(Free()), nb, p) && Live()[p] == ServedSize(old(Free()), nb, p)
      ensures old(forall a :: a in bins.small.contents ==> bins.small.contents[a] < nb) ==> SmallestFit(old(bins.Contents()), nb, p)
    {
      hide Untouched, Tiled, Placed, LiveMap, SB.ValidBins, TB.ValidBins;
      var rsize;
      p, rsize := bins.large.Smallest(nb);
      Unbin(p);
      p := UseLoose(p, nb, true);
    }

    /** A loose chunk that fits goes into use: whole, or split with the remainder going to dv or to a bin. */
    method UseLoose(p: int, nb: nat, toDv: bool) returns (q: int)
      requires Sound({p}) && p in head && nb % 8 == 0 && MIN_CHUNK <= nb <= head[p].size
      requires toDv ==> CB.IsSmall(dvsize)
      modifies this`head, this`foot, this`starts, this`dv, this`dvsize, bins.small, bins.large
      ensures q == p && Sound({}) && Got(old(Live()), Live(), p, nb)
      ensures Untouched(old(H()), H())
      ensures Free() == AfterLoose(old(Free()), p, old(head[p].size), nb, toDv) && Live()[p] == Given(old(head[p].size), nb)
    {
      hide Untouched, Tiled, Placed, LiveMap, SB.ValidBins, TB.ValidBins;
      LooseAddress(H(), dv, dvsize, bins.Contents(), p);
      q := p;
      if head[p].size - nb < MIN_CHUNK {
        TakeWhole(p);
      } else {
        var r := SplitLoose(p, nb);
        if toDv {
          ReplaceDv(r);
        } else {
          InsertLoose(r);
        }
      }
    }

    /** `tmalloc_large`: the best fitting tree chunk, unless dv fits at least as well. */
    method TmallocLarge(nb: nat) returns (p: int)
      requires Sound({}) && nb % 8 == 0 && 0x100 <= nb < W
      modifies this`head, this`foot, this`starts, this`dv, this`dvsize, bins.small, bins.large
      ensures Sound({})
      ensures p == 0 ==> Live() == old(Live()) && dvsize == old(dvsize) && bins.Contents() == old(bins.Contents())
      ensures p == 0 ==> forall a :: a in old(bins.large.contents) ==>
                           old(bins.large.contents)[a] < nb || nb <= old(dvsize) <= old(bins.large.contents)[a]
      ensures p != 0 ==> Got(old(Live()), Live(), p, nb)
      ensures p != 0 ==> var trees := old(bins.large.contents);
                         && p in trees && nb <= trees[p] && (old(dvsize) < nb || trees[p] < old(dvsize))
                         && forall a :: a in trees && nb <= trees[a] ==> trees[p] <= trees[a]
      ensures Untouched(old(H()), H())
      ensures p == 0 ==> Free() == old(Free())
      ensures p != 0 ==> Free() == AfterServe(old(Free()), nb, p) && Live()[p] == ServedSize(old(Free()), nb, p)
    {
      hide Untouched, Tiled, Placed, LiveMap, SB.ValidBins, TB.ValidBins;
      UntouchedRefl(H());
      p := BestTree(nb);
      if p != 0 {
        Unbin(p);
        p := UseLoose(p, nb, false);
      }
    }

    /** The choice made by `tmalloc_large`, with its unsigned comparison against dvsize - nb. */
    method BestTree(nb: nat) returns (v: int)
      requires Sound({}) && nb % 8 == 0 && 0x100 <= nb < W
      ensures v == 0 ==> forall a :: a in bins.large.contents ==>
                           bins.large.contents[a] < nb || nb <= dvsize <= bins.large.contents[a]
      ensures v != 0 ==> var trees := bins.large.contents;
                         && v in trees && nb <= trees[v] && (dvsize < nb || trees[v] < dvsize)
                         && forall a :: a in trees && nb <= trees[a] ==> trees[v] <= trees[a]
    {
      hide Tiled, Placed, LiveMap, SB.ValidBins, TB.ValidBins, SB.BinOk, TB.BinsOk, TB.ContentsOk;
      bins.SizesApart();
      DvWord(H(), dv, dvsize, bins.Contents());
      var rsize;
      v, rsize := bins.large.BestFit(nb);
      if v != 0 { CloserFit(rsize, dvsize, nb); }
      if v != 0 && rsize >= (dvsize + W - nb) % W {
        v := 0;
      }
    }

    /** The small-request search of dlmalloc, short of dv and top; null when it finds nothing. */
    method SmallRequest(nb: nat) returns (p: int)
      requires Ready() && nb % 8 == 0 && MIN_CHUNK <= nb < 0x100
      modifies this`head, this`foot, this`starts, this`dv, this`dvsize, bins.small, bins.large
      ensures Ready()
      ensures p == 0 ==> Live() == old(Live()) && dvsize == old(dvsize) && bins.Contents() == old(bins.Contents())
      ensures p == 0 && dvsize < nb ==> forall a :: a in bins.Contents() ==> bins.Contents()[a] < nb
      ensures p != 0 ==> Got(old(Live()), Live(), p, nb)
      ensures Untouched(old(H()), H())
      ensures p == 0 ==> Free() == old(Free()) && forall a :: !Exact(bins.Contents(), nb, a)
      ensures p != 0 ==> Free() == AfterServe(old(Free()), nb, p) && Live()[p] == ServedSize(old(Free()), nb, p)
      ensures p != 0 ==> p in old(bins.Contents()) && nb <= old(bins.Contents())[p] && Chosen(old(Free()), nb, p)
    {
      hide Untouched, Tiled, Placed, LiveMap, SB.ValidBins, TB.ValidBins, AllWords, Exact, SizesApart, SmallestFit, Chosen, AfterServe, ServedSize, Got;
      UntouchedRefl(H());
      BinsApart();
      var idx := nb / 8;
      var i;
      i, p := bins.small.ExactFit(idx);
      NoExact(bins.small.contents, bins.large.contents, nb, p == 0);
      if p != 0 {
        ExactChosen(Free(), bins.small.contents, bins.large.contents, nb, p);
        p := ServeExact(nb, p);
      } else if nb > dvsize {
        ghost var s := Free();
        p := SmallSplit(nb);
        if p != 0 { FitIsChosen(s, nb, p); }
      }
    }

    /** A chunk of the size asked for, or of the next: it goes into use whole. */
    method ServeExact(nb: nat, q: int) returns (p: int)
      requires Ready() && nb % 8 == 0 && MIN_CHUNK <= nb < 0x100 && q in bins.Contents() && nb <= bins.Contents()[q] <= nb + 8
      modifies this`head, this`foot, this`starts, this`dv, this`dvsize, bins.small, bins.large
      ensures Ready() && p == q != 0 && Got(old(Live()), Live(), p, nb)
      ensures Untouched(old(H()), H())
      ensures Free() == AfterServe(old(Free()), nb, p) && Live()[p] == ServedSize(old(Free()), nb, p)
    {
      hide Untouched, Tiled, Placed, LiveMap, SB.ValidBins, TB.ValidBins, AllWords;
      p := q;
      Unbin(p);
      LooseAddress(H(), dv, dvsize, bins.Contents(), p);
      TakeWhole(p);
      HasWords(H());
    }

    /** The chunk of the next bin that has one, or the smallest tree chunk, with the remainder becoming dv. */
    method SmallSplit(nb: nat) returns (p: int)
      requires Ready() && nb % 8 == 0 && MIN_CHUNK <= nb < 0x100 && dvsize < nb
      requires forall a :: a in bins.small.contents ==> bins.small.contents[a] != nb && bins.small.contents[a] != nb + 8
      modifies this`head, this`foot, this`starts, this`dv, this`dvsize, bins.small, bins.large
      ensures Ready()
      ensures p == 0 ==> Live() == old(Live()) && dvsize == old(dvsize) && bins.Contents() == old(bins.Contents())
      ensures p == 0 ==> forall a :: a in bins.Contents() ==> bins.Contents()[a] < nb
      ensures p != 0 ==> Got(old(Live()), Live(), p, nb)
      ensures Untouched(old(H()), H())
      ensures p == 0 ==> Free() == old(Free())
      ensures p != 0 ==> Free() == AfterServe(old(Free()), nb, p) && Live()[p] == ServedSize(old(Free()), nb, p)
      ensures p != 0 ==> SmallestFit(old(bins.Contents()), nb, p)
    {
      hide Untouched, Tiled, Placed, LiveMap, SB.ValidBins, TB.ValidBins, AllWords, SizesApart, SmallestFit, AfterServe, ServedSize;
      UntouchedRefl(H());
      BinsApart();
      var i;
      i, p := bins.small.NextFit(nb / 8);
      if p != 0 {
        SmallIsFit(bins.small.contents, bins.large.contents, nb, p);
        InContents(bins.small.contents, bins.large.contents, p);
        p := ServeSplit(nb, p);
      } else {
        NoTrees(bins);
        if bins.large.treemap != 0 {
          p := TmallocSmall(nb);
          HasWords(H());
        }
      }
    }

    /** The next bin with a chunk is at least two steps up, so there is always a remainder, and it becomes dv. */
    method ServeSplit(nb: nat, q: int) returns (p: int)
      requires Ready() && nb % 8 == 0 && MIN_CHUNK <= nb < 0x100 && dvsize < nb
      requires q in bins.Contents() && nb + MIN_CHUNK <= bins.Contents()[q]
      modifies this`head, this`foot, this`starts, this`dv, this`dvsize, bins.small, bins.large
      ensures Ready() && p == q != 0 && Got(old(Live()), Live(), p, nb)
      ensures Untouched(old(H()), H())
      ensures Free() == AfterServe(old(Free()), nb, p) && Live()[p] == ServedSize(old(Free()), nb, p)
    {
      hide Untouched, Tiled, Placed, LiveMap, SB.ValidBins, TB.ValidBins, AllWords;
      p := q;
      Unbin(p);
      LooseAddress(H(), dv, dvsize, bins.Contents(), p);
      var r := SplitLoose(p, nb);
      ReplaceDv(r);
      HasWords(H());
    }

    /** The dv branch of dlmalloc: split it, or use it up. */
    method FromDv(nb: nat) returns (p: int)
      requires Sound({}) && nb % 8 == 0 && MIN_CHUNK <= nb <= dvsize
      modifies this`head, this`foot, this`starts, this`dv, this`dvsize
      ensures Sound({}) && Got(old(Live()), Live(), p, nb)
      ensures Untouched(old(H()), H())
      ensures p == old(dv) && Free() == AfterDv(old(Free()), nb) && Live()[p] == Given(old(dvsize), nb)
    {
      hide Untouched, Tiled, Placed, LiveMap, SB.ValidBins, TB.ValidBins;
      ghost var h := H();
      HasGrid(h);
      DvChunk(h, dv, dvsize, bins.Contents(), {});
      DvToLoose(h, dv, dvsize, bins.Contents(), {});
      assert {} + {dv} == {dv};
      var rsize := dvsize - nb;
      p := dv;
      dv, dvsize := 0, 0;
      LooseAddress(h, 0, 0, bins.Contents(), p);
      if rsize >= MIN_CHUNK {
        var r := SplitLoose(p, nb);
        LooseToDv(H(), bins.Contents(), r);
        dv, dvsize := r, rsize;
      } else {
        TakeWhole(p);
      }
    }

    /** The top branch of dlmalloc. */
    method FromTop(nb: nat) returns (p: int)
      requires Sound({}) && nb % 8 == 0 && MIN_CHUNK <= nb < topsize
      modifies this`head, this`starts, this`top, this`topsize
      ensures Sound({}) && Got(old(Live()), Live(), p, nb)
      ensures top + topsize == old(top + topsize) && top == old(top) + nb
      ensures Untouched(old(H()), H())
      ensures p == old(top) && Free() == AfterTop(old(Free()), nb) && Live()[p] == nb
    {
      hide Untouched, Tiled, Placed, LiveMap;
      ghost var h := H();
      TopAddress(h);
      TopCutPlaced(h, dv, dvsize, bins.Contents(), nb);
      TopCutUntouched(h, nb);
      var rsize := topsize - nb;
      p := top;
      topsize := rsize;
      top := p + nb;
      head := head[top := Head(rsize, false, true)];
      head := head[p := Head(nb, true, true)];
      starts := starts + {top};
      assert H() == SplitTop(h, nb);
    }

    /** No chunk at hand has nb bytes (top keeps at least one byte). */
    ghost predicate NoFit(nb: nat)
      reads this, bins, bins.small, bins.large
    {
      dvsize < nb && topsize <= nb && forall a :: a in bins.Contents() ==> bins.Contents()[a] < nb
    }

    /** `dlmalloc` short of the system: bins, then dv, then top. It fails only if nothing fits. */
    method Find(nb: nat) returns (p: int)
      requires Ready() && nb % 8 == 0 && MIN_CHUNK <= nb < W
      modifies this`head, this`foot, this`starts, this`dv, this`dvsize, this`top, this`topsize, bins.small, bins.large
      ensures Ready() && top + topsize == old(top + topsize) && (top == 0 <==> old(top) == 0)
      ensures p == 0 ==> Live() == old(Live()) && old(NoFit(nb)) && topsize == old(topsize)
      ensures p != 0 ==> Got(old(Live()), Live(), p, nb)
      ensures Untouched(old(H()), H())
      ensures p == 0 ==> Free() == old(Free())
      ensures p != 0 ==> Free() == AfterServe(old(Free()), nb, p) && Live()[p] == ServedSize(old(Free()), nb, p)
      ensures p != 0 ==> !old(NoFit(nb)) && Chosen(old(Free()), nb, p)
    {
      hide Untouched, Tiled, Placed, LiveMap, SB.ValidBins, TB.ValidBins, AllWords;
      hide Chosen;
      ghost var h, s := H(), Free();
      p := FromBins(nb);
      if p == 0 {
        ghost var h1 := H();
        if nb <= dvsize {
          RestNotBinned(h1, dv, dvsize, bins.Contents());
          p := FromDv(nb);
          HasWords(H());
          SameLiveTrans(h, h1, H());
        } else if nb < topsize {
          RestNotBinned(h1, dv, dvsize, bins.Contents());
          p := FromTop(nb);
          HasWords(H());
          SameLiveTrans(h, h1, H());
        }
      }
    }

    /** The bin searches of `dlmalloc`. */
    method FromBins(nb: nat) returns (p: int)
      requires Ready() && nb % 8 == 0 && MIN_CHUNK <= nb < W
      modifies this`head, this`foot, this`starts, this`dv, this`dvsize, bins.small, bins.large
      ensures Ready()
      ensures p == 0 ==> Live() == old(Live()) && dvsize == old(dvsize)
      ensures p == 0 && dvsize < nb ==> old(forall a :: a in bins.Contents() ==> bins.Contents()[a] < nb)
      ensures p != 0 ==> Got(old(Live()), Live(), p, nb)
      ensures Untouched(old(H()), H())
      ensures p == 0 ==> Free() == old(Free()) && forall x :: FromRest(old(Free()), nb, x) ==> Chosen(old(Free()), nb, x)
      ensures p != 0 ==> Free() == AfterServe(old(Free()), nb, p) && Live()[p] == ServedSize(old(Free()), nb, p)
      ensures p != 0 ==> p in old(bins.Contents()) && nb <= old(bins.Contents())[p] && Chosen(old(Free()), nb, p)
    {
      hide Untouched, Tiled, Placed, LiveMap, SB.ValidBins, TB.ValidBins, AllWords;
      hide Exact, Chosen, SmallestFit, AfterServe, ServedSize, Got, FromRest;
      UntouchedRefl(H());
      ghost var s := Free();
      if nb < 0x100 {
        p := SmallRequest(nb);
      } else {
        p := LargeRequest(nb);
      }
      if p == 0 { RestIsChosen(s, nb); }
    }

    /** The large-request search of dlmalloc, short of dv and top. */
    method LargeRequest(nb: nat) returns (p: int)
      requires Ready() && nb % 8 == 0 && 0x100 <= nb < W
      modifies this`head, this`foot, this`starts, this`dv, this`dvsize, bins.small, bins.large
      ensures Ready()
      ensures p == 0 ==> Live() == old(Live()) && Free() == old(Free())
      ensures p == 0 ==> forall a :: a in bins.Contents() ==> bins.Contents()[a] < nb || nb <= dvsize <= bins.Contents()[a]
      ensures p != 0 ==> Got(old(Live()), Live(), p, nb)
      ensures Untouched(old(H()), H())
      ensures p != 0 ==> Free() == AfterServe(old(Free()), nb, p) && Live()[p] == ServedSize(old(Free()), nb, p)
      ensures p != 0 ==> p in old(bins.Contents()) && nb <= old(bins.Contents())[p] && Chosen(old(Free()), nb, p)
    {
      hide Untouched, Tiled, Placed, LiveMap, SB.ValidBins, TB.ValidBins, AllWords;
      hide Chosen, SmallestFit, AfterServe, ServedSize, Got;
      UntouchedRefl(H());
      NoTrees(bins);
      BinsApart();
      ghost var s, small, large := Free(), bins.small.contents, bins.large.contents;
      p := 0;
      if bins.large.treemap != 0 {
        p := TmallocLarge(nb);
        HasWords(H());
        if p != 0 {
          TreeIsFit(small, large, nb, p);
          FitIsChosen(s, nb, p);
        }
      }
    }

    // ---------- memory from the system ----------

    /** `init_top` */
    method InitTop(p: int, psize: nat)
      requires p > 0 && psize >= AlignOffset(p + 8)
      modifies this`head, this`top, this`topsize
      ensures top == p + AlignOffset(p + 8) && topsize == psize - AlignOffset(p + 8)
      ensures head == old(head)[top := Head(topsize, false, true)][top + topsize := Head(TOP_FOOT, false, false)]
    {
      var offset := AlignOffset(p + 8);
      top := p + offset;
      topsize := psize - offset;
      head := head[top := Head(topsize, false, true)];
      head := head[top + topsize := Head(TOP_FOOT, false, false)];
    }

    /** The first segment: all of it is top. */
    method FirstSegment(base: int, size: nat)
      requires Ready() && top == 0 && base > 0 && base % 8 == 0 && size > TOP_FOOT + 8 && base + size <= ADDRESSES
      modifies this
      ensures Ready() && top == base == first && topsize == size - TOP_FOOT && Live() == old(Live())
      ensures Untouched(old(H()), H())
      ensures bins.Contents() == old(bins.Contents()) && dv == old(dv) && dvsize == old(dvsize)
    {
      hide Untouched, SB.ValidBins, TB.ValidBins, Tiled, Placed, LiveMap;
      NewHeap(head, foot, base, size - TOP_FOOT);
      NoChunks(H());
      hide AllWords;
      InitTop(base, size - TOP_FOOT);
      starts, first := {top}, top;
      HasWords(H());
      NothingLive(old(H()), H());
    }

    /** More memory behind the last segment: top grows. */
    method Append(size: nat)
      requires Ready() && top != 0 && top + topsize + size < ADDRESSES
      modifies this`head, this`topsize, this`top
      ensures Ready() && top == old(top) && topsize == old(topsize) + size && Live() == old(Live())
      ensures Untouched(old(H()), H())
    {
      hide Untouched, SB.ValidBins, TB.ValidBins, Placed, Tiled, LiveMap, AllWords;
      ghost var h := H();
      TopAddress(h);
      ExtendPlaced(h, dv, dvsize, bins.Contents(), size);
      ExtendUntouched(h, size);
      HasWords(ExtendTop(h, size));
      InitTop(top, topsize + size);
      assert H() == ExtendTop(h, size);
    }

    // ---------- free ----------

    /** `set_free_with_pinuse`: the run [lo, hi) becomes one free chunk. */
    method SetFree(lo: int, hi: int)
      requires lo in head && hi in head && lo < hi
      modifies this`head, this`foot, this`starts
      ensures H() == MakeFree(old(H()), lo, hi)
    {
      ghost var h := H();
      head := head[hi := head[hi].(pinuse := false)];
      head := head[lo := Head(hi - lo, false, true)];
      foot := foot[hi := hi - lo];
      starts := MakeFree(h, lo, hi).starts;
    }

    /** The freed run, free neighbours included, becomes one chunk: the new dv if it starts at dv, else binned. */
    method FinishFree(ghost p: int, lo: int, hi: int, ghost run: set<int>)
      requires IsLive(H(), p) && Around(H(), p, lo, hi, run) && IsLive(H(), hi)
      requires Sound(run - {dv}) && (dv in run ==> dv == lo)
      modifies this`head, this`foot, this`starts, this`dv, this`dvsize, bins.small, bins.large
      ensures Sound({}) && Live() == old(Live()) - {p}
      ensures Untouched(old(H()), H())
      ensures Free() == Alone(old(Free()), lo, hi)
    {
      hide Untouched, Tiled, Placed, LiveMap, SB.ValidBins, TB.ValidBins, Around;
      ghost var h := H();
      RunBounds(h, p, lo, hi, run);
      if lo == dv {
        DvInRun(h, dv, dvsize, bins.Contents(), p, lo, hi, run);
        FreeAround(h, 0, 0, bins.Contents(), p, lo, hi, run);
        SetFree(lo, hi);
        LooseToDv(H(), bins.Contents(), lo);
        dvsize := hi - lo;
      } else {
        assert run - {dv} == run;
        FreeAround(h, dv, dvsize, bins.Contents(), p, lo, hi, run);
        SetFree(lo, hi);
        InsertLoose(lo);
      }
    }

    /** The freed run borders dv, and becomes dv. */
    method JoinDv(ghost p: int, lo: int, ghost run: set<int>)
      requires dvsize != 0 && IsLive(H(), p) && dv in head && Around(H(), p, lo, dv + dvsize, run + {dv})
      requires Sound(run) && IsLive(H(), dv + dvsize)
      modifies this`head, this`foot, this`starts, this`dv, this`dvsize
      ensures Sound({}) && Live() == old(Live()) - {p}
      ensures Untouched(old(H()), H())
      ensures Free() == old(Free()).(dv := lo, dvsize := Span(lo, old(dv + dvsize)))
    {
      hide Untouched, Tiled, Placed, LiveMap, SB.ValidBins, TB.ValidBins, Around;
      ghost var h := H();
      var hi := dv + dvsize;
      RunBounds(h, p, lo, hi, run + {dv});
      HasGrid(h);
      DvToLoose(h, dv, dvsize, bins.Contents(), run);
      FreeAround(h, 0, 0, bins.Contents(), p, lo, hi, run + {dv});
      SetFree(lo, hi);
      LooseToDv(H(), bins.Contents(), lo);
      dvsize := hi - lo;
      dv := lo;
    }

    /** The freed run borders top, and joins it. */
    method JoinTop(ghost p: int, lo: int, ghost run: set<int>)
      requires IsLive(H(), p) && Around(H(), p, lo, top, run)
      requires Sound(run - {dv}) && (dv in run ==> dv == lo)
      modifies this`head, this`starts, this`dv, this`dvsize, this`top, this`topsize
      ensures Sound({}) && Live() == old(Live()) - {p} && top + topsize == old(top + topsize) && top == lo
      ensures Untouched(old(H()), H())
      ensures Free() == old(Free()).(top := lo, topsize := old(topsize) + Span(lo, old(top)), dv := if lo == old(dv) then 0 else old(dv),
                                     dvsize := if lo == old(dv) then 0 else old(dvsize))
    {
      hide Untouched, Tiled, Placed, LiveMap, SB.ValidBins, TB.ValidBins, Around;
      ghost var h := H();
      RunBounds(h, p, lo, top, run);
      if lo == dv {
        DvInRun(h, dv, dvsize, bins.Contents(), p, lo, top, run);
        TopAround(h, 0, 0, bins.Contents(), p, lo, run);
      } else {
        assert run - {dv} == run;
        TopAround(h, dv, dvsize, bins.Contents(), p, lo, run);
      }
      topsize := topsize + (top - lo);
      top := lo;
      head := head[lo := Head(topsize, false, true)];
      if lo == dv {
        dv, dvsize := 0, 0;
      }
      starts := MakeTop(h, lo).starts;
      assert H() == MakeTop(h, lo);
    }

    /** `dispose_chunk` and the body of `dlfree`: release a live chunk, merging it with its free neighbours. */
    method Dispose(p: int)
      requires Sound({}) && p in Live()
      modifies this`head, this`foot, this`starts, this`dv, this`dvsize, this`top, this`topsize, bins.small, bins.large
      ensures Sound({}) && Live() == old(Live()) - {p} && top + topsize == old(top + topsize)
      ensures Untouched(old(H()), H())
      ensures Free() == AfterFree(old(Free()), p, old(head[p].size))
    {
      hide Untouched, Tiled, Placed, SB.ValidBins, TB.ValidBins, Around, Low, Merged, Alone;
      ghost var h, s := H(), Free();
      BackwardRun(h, p);
      AroundIs(h, s, p);
      var next := p + head[p].size;
      var lo := p;
      ghost var loose: set<int> := {};
      NoKey(bins.Contents(), p);
      if !head[p].pinuse {
        lo := p - foot[p];
        FreeIsPlaced(h, dv, dvsize, bins.Contents(), loose, lo);
        if lo != dv {
          UnlinkLoose(lo, loose);
          assert loose + {lo} == {lo};
          loose := {lo};
        } else if head[next].cinuse && head[next].pinuse {
          assert {lo} - {dv} == {};
          NoKey(s.bins, lo);
          RunBounds(h, p, lo, next, Before(p, lo));
          MergedUsed(s, lo, next);
          FinishFree(p, lo, next, {lo});
          return;
        } else {
          NoKey(s.bins, lo);
        }
      }
      assert bins.Contents() == s.bins - {lo};
      NotLoose(h, dv, dvsize, bins.Contents(), loose);
      assert Before(p, lo) - {dv} == loose;
      DisposeForward(p, lo, next, s, loose);
    }

    /** The forward half: what follows the run is in use, or joins it. */
    method DisposeForward(p: int, lo: int, next: int, ghost s: Store, ghost loose: set<int>)
      requires Sound(loose) && IsLive(H(), p) && p in head && p in foot && Next(H(), p) == next && next in head && lo == Lowest(H(), p)
      requires Before(p, lo) - {dv} == loose && dv !in loose && lo <= p
      requires s.top == top && s.topsize == topsize && s.dv == dv && s.dvsize == dvsize && bins.Contents() == s.bins - {lo} && Low(s, p) == lo
      requires next != top ==> (FreeAt(s, next) <==> !head[next].cinuse) && (FreeAt(s, next) ==> SizeAt(s, next) == head[next].size)
      requires head[next].cinuse ==> next != top && !FreeAt(s, next)
      requires (dvsize != 0 ==> dv !in s.bins) && (dvsize == 0 ==> dv == 0)
      modifies this`head, this`foot, this`starts, this`dv, this`dvsize, this`top, this`topsize, bins.small, bins.large
      ensures Sound({}) && Live() == old(Live()) - {p} && top + topsize == old(top + topsize)
      ensures Untouched(old(H()), H())
      ensures Free() == AfterFree(s, p, old(head[p].size))
    {
      hide Untouched, Tiled, Placed, SB.ValidBins, TB.ValidBins, Around, Low, LiveMap, Merged, FreeAt, SizeAt, Alone;
      ghost var h := H();
      BackwardRun(h, p);
      RunBounds(h, p, lo, next, Before(p, lo));
      if head[next].cinuse {
        MergedUsed(s, lo, next);
        FinishFree(p, lo, next, Before(p, lo));
      } else if next == top {
        MergedTop(s, lo);
        JoinTop(p, lo, Before(p, lo));
      } else {
        ForwardRun(h, p, lo, next);
        FreeIsPlaced(h, dv, dvsize, bins.Contents(), loose, next);
        if next == dv {
          MergedDv(s, lo);
          assert Before(p, lo) + {next} == loose + {dv};
          JoinDv(p, lo, loose);
        } else {
          MergedFree(s, lo, next);
          UnlinkLoose(next, loose);
          assert Before(p, lo) + {next} - {dv} == loose + {next};
          FinishFree(p, lo, next + head[next].size, Before(p, lo) + {next});
        }
      }
    }

    // ---------- the client's own writes ----------

    /** A client writes to its block: the words there may read as anything afterwards, as head words too. */
    method Scribble(p: int)
      requires Ready() && p in Live()
      modifies this`head, this`foot
      ensures Ready() && Live() == old(Live())
    {
      hide Tiled, Placed, LiveMap, SB.ValidBins, TB.ValidBins, AllWords, PayloadWrite;
      Initialised(p);
      ghost var h := H();
      LiveFacts(h, p);
      var heads: map<int, Head>, feet: map<int, nat> := *, *;
      var end := p + head[p].size + 4;
      head := map a | a in head :: if p + 8 < a + 8 && a + 4 < end && a in heads then heads[a] else head[a];
      foot := map a | a in foot :: if p + 8 < a + 4 && a < end && a in feet then feet[a] else foot[a];
      WroteInside(h, H(), p);
      PayloadWritePlaced(h, H(), dv, dvsize, bins.Contents(), {}, p);
      HasWords(H());
    }

    // ---------- realloc ----------

    /** `set_inuse` */
    method SetInuse(p: int, s: nat)
      requires p in head && p + s in head && s > 0
      modifies this`head
      ensures head == old(head)[p := Head(s, true, old(head)[p].pinuse)][p + s := old(head)[p + s].(pinuse := true)]
    {
      head := head[p := Head(s, true, head[p].pinuse)];
      head := head[p + s := head[p + s].(pinuse := true)];
    }

    /** Cut a live chunk at p + nb and give the rest back. */
    method Trim(p: int, nb: nat)
      requires Sound({}) && p in Live() && nb % 8 == 0 && MIN_CHUNK <= nb && nb + MIN_CHUNK <= Live()[p]
      modifies this`head, this`foot, this`starts, this`dv, this`dvsize, this`top, this`topsize, bins.small, bins.large
      ensures Sound({}) && Live() == old(Live())[p := nb] && top + topsize == old(top + topsize)
      ensures Untouched(old(H()), H())
      ensures Free() == AfterFree(old(Free()), p + nb, old(Live()[p]) - nb)
    {
      hide Untouched, Tiled, Placed, LiveMap, SB.ValidBins, TB.ValidBins, Cuttable, AfterFree;
      ghost var h := H();
      LiveFacts(h, p);
      var r, rsize := p + nb, head[p].size - nb;
      TrimFacts(h, p, nb);
      CutPlaced(h, dv, dvsize, bins.Contents(), {}, p, r);
      SetInuse(p, nb);
      SetInuse(r, rsize);
      starts := starts + {r};
      assert H() == SplitUsed(h, p, r);
      ghost var h1 := H();
      CutUntouched(h, p, r);
      Dispose(r);
      CutBack(old(Live()), p, r, nb, rsize);
      CutCovers(LiveMap(h), LiveMap(h1), LiveMap(H()), p, r);
      UntouchedTrans(h, h1, H());
    }

    /** Cut a live chunk at p + lead and give the front back. */
    method GiveLeader(p: int, lead: nat)
      requires Sound({}) && p in Live() && lead % 8 == 0 && MIN_CHUNK <= lead && lead + MIN_CHUNK <= Live()[p]
      modifies this`head, this`foot, this`starts, this`dv, this`dvsize, this`top, this`topsize, bins.small, bins.large
      ensures Sound({}) && p + lead !in old(Live()) && top + topsize == old(top + topsize)
      ensures Live() == (old(Live()) - {p})[p + lead := old(Live())[p] - lead]
      ensures Untouched(old(H()), H())
      ensures Free() == AfterFree(old(Free()), p, lead)
    {
      hide Untouched, Tiled, Placed, LiveMap, SB.ValidBins, TB.ValidBins, Cuttable, AfterFree;
      ghost var h := H();
      LiveFacts(h, p);
      var newp, newsize := p + lead, head[p].size - lead;
      TrimFacts(h, p, lead);
      CutPlaced(h, dv, dvsize, bins.Contents(), {}, p, newp);
      SetInuse(newp, newsize);
      SetInuse(p, lead);
      starts := starts + {newp};
      CutWritten(h, p, newp);
      assert H() == SplitUsed(h, p, newp);
      ghost var h1 := H();
      CutUntouched(h, p, newp);
      Dispose(p);
      CutCovers(LiveMap(h), LiveMap(h1), LiveMap(H()), p, newp);
      UntouchedTrans(h, h1, H());
      assert old(Live())[p := lead][newp := newsize] - {p} == (old(Live()) - {p})[newp := newsize];
    }

    /** The chunk after p is top: take from it. */
    method ExtendIntoTop(p: int, nb: nat) returns (q: int)
      requires Sound({}) && p in Live() && nb % 8 == 0 && head[p].size < nb && p + head[p].size == top
      modifies this`head, this`foot, this`starts, this`dv, this`dvsize, this`top, this`topsize
      ensures Sound({}) && Resized(old(Live()), Live(), p, nb, q) && top + topsize == old(top + topsize)
      ensures Untouched(old(H()), H())
      ensures q == p <==> old(head[p].size + topsize) > nb
      ensures q == 0 ==> unchanged(this)
      ensures q == p ==> Free() == AfterGrow(old(Free()), p, old(head[p].size), nb) && Live()[p] == GrownSize(old(Free()), p, old(head[p].size), nb)
    {
      hide Untouched, Tiled, Placed, LiveMap, SB.ValidBins, TB.ValidBins, AfterTrim, SizeAt;
      ghost var h := H();
      LiveFacts(h, p);
      UntouchedRefl(h);
      q := 0;
      var oldsize := head[p].size;
      if oldsize + topsize > nb {
        GrowIntoTopPlaced(h, dv, dvsize, bins.Contents(), p, nb);
        GrowTopUntouched(h, p, nb);
        var newtopsize := oldsize + topsize - nb;
        var newtop := p + nb;
        SetInuse(p, nb);
        head := head[newtop := Head(newtopsize, false, true)];
        top := newtop;
        topsize := newtopsize;
        starts := GrowIntoTop(h, p, nb).starts;
        assert H() == GrowIntoTop(h, p, nb);
        q := p;
      }
    }

    /** The chunk after p is dv: take from it. */
    method ExtendIntoDv(p: int, nb: nat) returns (q: int)
      requires Sound({}) && p in Live() && nb % 8 == 0 && head[p].size < nb && p + head[p].size == dv
      modifies this`head, this`foot, this`starts, this`dv, this`dvsize, this`top, this`topsize
      ensures Sound({}) && Resized(old(Live()), Live(), p, nb, q) && top + topsize == old(top + topsize)
      ensures Untouched(old(H()), H())
      ensures q == p <==> old(head[p].size + dvsize) >= nb
      ensures q == 0 ==> unchanged(this)
      ensures q == p ==> Free() == AfterGrow(old(Free()), p, old(head[p].size), nb) && Live()[p] == GrownSize(old(Free()), p, old(head[p].size), nb)
    {
      hide Untouched, Tiled, Placed, LiveMap, SB.ValidBins, TB.ValidBins, Cuttable, AfterTrim, SizeAt;
      ghost var h := H();
      LiveFacts(h, p);
      DvNonzero(h, dv, dvsize, bins.Contents(), {});
      DvChunk(h, dv, dvsize, bins.Contents(), {});
      UntouchedRefl(h);
      q := 0;
      var oldsize, dvs := head[p].size, dvsize;
      if oldsize + dvs >= nb {
        var dsize := oldsize + dvs - nb;
        DvToLoose(h, dv, dvsize, bins.Contents(), {});
        assert {} + {dv} == {dv};
        var next := dv;
        dv, dvsize := 0, 0;
        if dsize >= MIN_CHUNK {
          var r := AbsorbPart(p, nb, next);
          LooseToDv(H(), bins.Contents(), r);
          dvsize := dsize;
          dv := r;
        } else {
          AbsorbWhole(p, next);
        }
        q := p;
      }
    }

    /** p takes the whole loose chunk after it. */
    method AbsorbWhole(p: int, next: int)
      requires Sound({next}) && p in Live() && p + head[p].size == next && IsFree(H(), next)
      modifies this`head, this`starts
      ensures Sound({}) && Live() == old(Live())[p := old(head[p].size + head[next].size)]
      ensures Untouched(old(H()), H())
    {
      hide Untouched, Tiled, Placed, LiveMap, SB.ValidBins, TB.ValidBins;
      ghost var h := H();
      LiveFacts(h, p);
      var size := head[p].size + head[next].size;
      AbsorbPlaced(h, dv, dvsize, bins.Contents(), p, next, p + size);
      AbsorbUntouched(h, p, next, p + size);
      SetInuse(p, size);
      starts := MakeUsed(h, p, p + size).starts;
      assert H() == MakeUsed(h, p, p + size);
    }

    /** p takes the front of the loose chunk after it, up to nb bytes in all; the rest stays loose. */
    method AbsorbPart(p: int, nb: nat, next: int) returns (r: int)
      requires Sound({next}) && p in Live() && p + head[p].size == next && IsFree(H(), next) && nb % 8 == 0
      requires MIN_CHUNK <= nb && nb + MIN_CHUNK <= head[p].size + head[next].size
      modifies this`head, this`foot, this`starts
      ensures Sound({r}) && r in head && head[r].size == old(head[p].size + head[next].size) - nb
      ensures Live() == old(Live())[p := nb]
      ensures Untouched(old(H()), H())
      ensures r == p + nb
    {
      hide Untouched, Tiled, Placed, LiveMap, SB.ValidBins, TB.ValidBins, Cuttable;
      ghost var h := H();
      LiveFacts(h, p);
      var n := p + head[p].size + head[next].size;
      r := p + nb;
      AbsorbPlaced(h, dv, dvsize, bins.Contents(), p, next, n);
      ghost var h1 := MakeUsed(h, p, n);
      AbsorbedCut(h1, p, nb);
      ShedPlaced(h1, dv, dvsize, bins.Contents(), p, r, n);
      KeyTwice(Live(), p, n - p, nb);
      GrowWrites(h, p, r, n);
      ghost var h' := MakeFree(SplitUsed(h1, p, r), r, n);
      LooseIsFree(h', dv, dvsize, bins.Contents(), r);
      ShedUntouched(h, p, next, r, n);
      SetInuse(p, nb);
      SetFree(r, n);
      starts := h'.starts;
      assert H() == h';
    }

    /** The chunk after p is free and binned: take it, and give back what is not needed. */
    method ExtendIntoNext(p: int, nb: nat) returns (q: int)
      requires Sound({}) && p in Live() && nb % 8 == 0 && head[p].size < nb
      requires IsFree(H(), p + head[p].size) && p + head[p].size != dv
      modifies this`head, this`foot, this`starts, this`dv, this`dvsize, this`top, this`topsize, bins.small, bins.large
      ensures Sound({}) && Resized(old(Live()), Live(), p, nb, q) && top + topsize == old(top + topsize)
      ensures Untouched(old(H()), H())
      ensures q == p <==> old(head[p].size + head[p + head[p].size].size) >= nb
      ensures q == 0 ==> unchanged(this) && unchanged(bins.small) && unchanged(bins.large)
      ensures q == p ==> Free() == AfterGrow(old(Free()), p, old(head[p].size), nb) && Live()[p] == GrownSize(old(Free()), p, old(head[p].size), nb)
    {
      hide Untouched, Tiled, Placed, SB.ValidBins, TB.ValidBins, LiveMap, AfterFree;
      ghost var h := H();
      LiveFacts(h, p);
      UntouchedRefl(h);
      q := 0;
      var oldsize := head[p].size;
      var next := p + oldsize;
      var nextsize := head[next].size;
      if oldsize + nextsize >= nb {
        var rsize := oldsize + nextsize - nb;
        FreeIsPlaced(h, dv, dvsize, bins.Contents(), {}, next);
        Unbin(next);
        // both branches take the whole; the second then cuts it
        AbsorbWhole(p, next);
        if rsize >= MIN_CHUNK {
          ghost var h1 := H();
          Trim(p, nb);
          GrowCovers(LiveMap(h), LiveMap(h1), LiveMap(H()), p);
          UntouchedTrans(h, h1, H());
        }
        q := p;
      }
    }

    /** `try_realloc_chunk`: resize in place if the chunk can grow, or not at all. */
    method TryRealloc(p: int, nb: nat) returns (q: int)
      requires Sound({}) && p in Live() && nb % 8 == 0 && MIN_CHUNK <= nb
      modifies this`head, this`foot, this`starts, this`dv, this`dvsize, this`top, this`topsize, bins.small, bins.large
      ensures Sound({}) && Resized(old(Live()), Live(), p, nb, q) && top + topsize == old(top + topsize)
      ensures Untouched(old(H()), H())
      ensures q == p <==> Growable(old(H()), p, nb)
      ensures q == 0 ==> unchanged(this) && unchanged(bins.small) && unchanged(bins.large)
      ensures q == p ==> Free() == AfterGrow(old(Free()), p, old(Live()[p]), nb) && Live()[p] == GrownSize(old(Free()), p, old(Live()[p]), nb)
    {
      hide Untouched, Tiled, Placed, SB.ValidBins, TB.ValidBins, Growable, AfterFree, AfterGrow, GrownSize, SizeAt, LiveMap, AfterTrim;
      UntouchedRefl(H());
      LiveFacts(H(), p);
      BackwardRun(H(), p);
      GrowableIs(H(), dv, dvsize, bins.Contents(), p, nb);
      var oldsize := head[p].size;
      var next := p + oldsize;
      if oldsize >= nb {
        ShrunkIs(Free(), p, oldsize, nb);
        if oldsize - nb >= MIN_CHUNK {
          Trim(p, nb);
        }
        q := p;
      } else if next == top {
        q := ExtendIntoTop(p, nb);
      } else if next == dv {
        q := ExtendIntoDv(p, nb);
      } else if !head[next].cinuse {
        q := ExtendIntoNext(p, nb);
      } else {
        q := 0;
      }
    }
  }
}
