// What an operation of the allocator does to the bytes of its clients: it writes head words, foot words
// and links inside free chunks, and none of these lie in a block that stays in use
// (src/runtime/dlmalloc/malloc.c:2097-2167, 2281-2306).

module HeapFrame {
  import opened HeapTiling
  import opened HeapPlacement
  import opened HeapResize

  /** The words of memory from p + 8 up to and including the foot word at q read the same. */
  ghost predicate SameWords(h: Heap, h': Heap, p: int, q: int) {
    && (forall a :: p < a < q && a in h.head ==> a in h'.head && h'.head[a] == h.head[a])
    && (forall a :: p < a <= q && a in h.foot ==> a in h'.foot && h'.foot[a] == h.foot[a])
  }

  /** [p, q) belongs to one live chunk. */
  predicate Covers(live: map<int, nat>, p: int, q: int) {
    p in live && p < q <= p + live[p]
  }

  /** Whatever is live before and after keeps its words. */
  ghost predicate Untouched(h: Heap, h': Heap) {
    forall p, q :: Covers(LiveMap(h), p, q) && Covers(LiveMap(h'), p, q) ==> SameWords(h, h', p, q)
  }

  /** Head words change only where a chunk starts, before or after, or behind top. */
  ghost predicate HeadsWritten(h: Heap, h': Heap) {
    forall a :: a in h.head && (a in h'.head ==> h'.head[a] != h.head[a]) ==> a in h.starts || a in h'.starts || a > h'.top
  }

  /** Foot words change only behind a chunk that is free afterwards. */
  ghost predicate FeetWritten(h: Heap, h': Heap) {
    forall k :: k in h.foot && (k in h'.foot ==> h'.foot[k] != h.foot[k]) ==> FreeBefore(h', k)
  }

  ghost predicate FreeBefore(h: Heap, k: int) {
    exists a :: IsFree(h, a) && Next(h, a) == k
  }

  lemma {:induction false} WrittenUntouched(h: Heap, h': Heap)
    requires Tiled(h) && Tiled(h') && HeadsWritten(h, h') && FeetWritten(h, h')
    ensures Untouched(h, h')
  {
    forall p, q | Covers(LiveMap(h), p, q) && Covers(LiveMap(h'), p, q)
      ensures SameWords(h, h', p, q)
    {
      assert StepOk(h', p);
      forall a | p < a < q && a in h.head
        ensures a in h'.head && h'.head[a] == h.head[a]
      {
        assert ApartOk(h, p, a) && ApartOk(h', p, a);
      }
      forall k | p < k <= q && k in h.foot
        ensures k in h'.foot && h'.foot[k] == h.foot[k]
      {
        LiveBefore(h', p, k);
      }
    }
  }

  /** The words behind the start of a live chunk, up to the next chunk's foot word, are behind no free chunk. */
  lemma {:induction false} LiveBefore(h: Heap, p: int, k: int)
    requires Tiled(h) && IsLive(h, p) && p < k <= Next(h, p)
    ensures !FreeBefore(h, k)
  {
    forall a | IsFree(h, a)
      ensures Next(h, a) != k
    {
      assert ApartOk(h, a, p) && ApartOk(h, p, a) && StepOk(h, a);
    }
  }

  lemma {:induction false} UntouchedTrans(h: Heap, h1: Heap, h2: Heap)
    requires Untouched(h, h1) && Untouched(h1, h2)
    requires forall p, q :: Covers(LiveMap(h), p, q) && Covers(LiveMap(h2), p, q) ==> Covers(LiveMap(h1), p, q)
    ensures Untouched(h, h2)
  {
    forall p, q | Covers(LiveMap(h), p, q) && Covers(LiveMap(h2), p, q)
      ensures SameWords(h, h2, p, q)
    {
      assert SameWords(h, h1, p, q) && SameWords(h1, h2, p, q);
    }
  }

  lemma {:induction false} UntouchedRefl(h: Heap)
    ensures Untouched(h, h)
  {
  }

  // ---------- each way of redrawing boundaries ----------

  lemma {:induction false} UsedUntouched(h: Heap, lo: int, hi: int)
    requires Run(h, lo, hi)
    ensures Untouched(h, MakeUsed(h, lo, hi))
  {
    MakeUsedTiled(h, lo, hi);
    hide Tiled;
    WrittenUntouched(h, MakeUsed(h, lo, hi));
  }

  lemma {:induction false} FreeUntouched(h: Heap, lo: int, hi: int)
    requires Run(h, lo, hi) && h.head[lo].pinuse && IsLive(h, hi)
    ensures Untouched(h, MakeFree(h, lo, hi))
  {
    MakeFreeTiled(h, lo, hi);
    MakeFreeChunks(h, lo, hi);
    hide Tiled;
    var h' := MakeFree(h, lo, hi);
    assert IsFree(h', lo) && Next(h', lo) == hi;
    WrittenUntouched(h, h');
  }

  lemma {:induction false} TopUntouched(h: Heap, lo: int)
    requires Run(h, lo, h.top) && h.head[lo].pinuse
    ensures lo <= End(h) && Untouched(h, MakeTop(h, lo))
  {
    MakeTopTiled(h, lo);
    hide Tiled;
    WrittenUntouched(h, MakeTop(h, lo));
  }

  lemma {:induction false} CutUntouched(h: Heap, p: int, m: int)
    requires Cuttable(h, p, m)
    ensures Untouched(h, SplitUsed(h, p, m))
  {
    SplitUsedTiled(h, p, m);
    hide Tiled;
    WrittenUntouched(h, SplitUsed(h, p, m));
  }

  lemma {:induction false} TopCutUntouched(h: Heap, nb: nat)
    requires Tiled(h) && nb % 8 == 0 && MIN_CHUNK <= nb < h.topsize
    ensures Untouched(h, SplitTop(h, nb))
  {
    SplitTopTiled(h, nb);
    assert h.top in h.starts;
    hide Tiled;
    WrittenUntouched(h, SplitTop(h, nb));
  }

  lemma {:induction false} ExtendUntouched(h: Heap, more: nat)
    requires Tiled(h) && End(h) + more < ADDRESSES
    ensures Untouched(h, ExtendTop(h, more))
  {
    ExtendTopTiled(h, more);
    assert h.top in h.starts && h.topsize > 0;
    hide Tiled;
    WrittenUntouched(h, ExtendTop(h, more));
  }

  lemma {:induction false} GrowTopUntouched(h: Heap, p: int, nb: nat)
    requires BeforeTop(h, p, nb)
    ensures Untouched(h, GrowIntoTop(h, p, nb))
  {
    GrowIntoTopTiled(h, p, nb);
    hide Tiled;
    WrittenUntouched(h, GrowIntoTop(h, p, nb));
  }

  /** A chunk is put into use up to r and left free from r to n. */
  lemma {:induction false} PartUntouched(h: Heap, h': Heap, p: int, r: int, n: int)
    requires Tiled(h) && Tiled(h') && p in h.starts && n in h.starts && IsFree(h', r) && Next(h', r) == n
    requires forall a :: a in h.head && a != p && a != r && a != n ==> a in h'.head && h'.head[a] == h.head[a]
    requires forall a :: a in h.foot && a != n ==> a in h'.foot && h'.foot[a] == h.foot[a]
    ensures Untouched(h, h')
  {
    hide Tiled;
    WrittenUntouched(h, h');
  }

  lemma {:induction false} AbsorbUntouched(h: Heap, p: int, next: int, hi: int)
    requires Tiled(h) && IsLive(h, p) && Next(h, p) == next && IsFree(h, next) && Next(h, next) == hi
    ensures hi in h.head && p <= hi && Untouched(h, MakeUsed(h, p, hi))
  {
    hide Tiled, LiveMap, Outside, LooseIn, Untouched;
    NextRun(h, p);
    UsedUntouched(h, p, hi);
  }

  /** p grows over the free chunk behind it, and what it does not need stays free. */
  lemma {:induction false} ShedUntouched(h: Heap, p: int, next: int, r: int, n: int)
    requires Tiled(h) && IsLive(h, p) && Next(h, p) == next && IsFree(h, next) && Next(h, next) == n && p < r < n
    requires n in h.head && n in h.foot
    requires var h' := MakeFree(SplitUsed(MakeUsed(h, p, n), p, r), r, n); Tiled(h') && IsFree(h', r)
    ensures Untouched(h, MakeFree(SplitUsed(MakeUsed(h, p, n), p, r), r, n))
  {
    var h' := MakeFree(SplitUsed(MakeUsed(h, p, n), p, r), r, n);
    GrowWrites(h, p, r, n);
    assert StepOk(h, next);
    hide Tiled, Untouched, MakeUsed, SplitUsed, MakeFree;
    PartUntouched(h, h', p, r, n);
  }

  lemma {:induction false} SplitUntouched(h: Heap, p: int, nb: nat)
    requires Tiled(h) && IsFree(h, p) && nb <= h.head[p].size && Next(h, p) in h.head && Next(h, p) in h.foot
    requires Tiled(SplitFree(h, p, nb)) && IsFree(SplitFree(h, p, nb), p + nb)
    ensures Untouched(h, SplitFree(h, p, nb))
  {
    assert StepOk(h, p);
    hide Tiled, Untouched;
    PartUntouched(h, SplitFree(h, p, nb), p, p + nb, Next(h, p));
  }

  // ---------- composing ----------

  /** A live chunk is cut, and one of its parts given back. */
  lemma {:induction false} CutCovers(m0: map<int, nat>, m1: map<int, nat>, m2: map<int, nat>, p: int, r: int)
    requires p in m0 && r !in m0 && p in m1 && r in m1 && m1 == m0[p := m1[p]][r := m1[r]] && (m2 == m1 - {r} || m2 == m1 - {p})
    ensures forall a, q :: Covers(m0, a, q) && Covers(m2, a, q) ==> Covers(m1, a, q)
  {
  }

  /** A live chunk grows, and is then cut. */
  lemma {:induction false} GrowCovers(m0: map<int, nat>, m1: map<int, nat>, m2: map<int, nat>, p: int)
    requires p in m1 && p in m2 && m1 == m0[p := m1[p]] && m2 == m1[p := m2[p]] && m2[p] <= m1[p]
    ensures forall a, q :: Covers(m0, a, q) && Covers(m2, a, q) ==> Covers(m1, a, q)
  {
  }

  // ---------- bytes ----------

  /** The word that holds byte x reads differently. */
  predicate WordChanged(h: Heap, h': Heap, x: int) {
    var w := x / 4 * 4;
    if w % 8 == 0 then w in h.foot && (w in h'.foot ==> h'.foot[w] != h.foot[w])
    else w - 4 in h.head && (w - 4 in h'.head ==> h'.head[w - 4] != h.head[w - 4])
  }

  /** Where the links of a free chunk may be. */
  ghost predicate InFreeBody(h: Heap, x: int) {
    exists a :: IsFree(h, a) && a + 8 <= x < Next(h, a)
  }

  /** The bytes that an operation may have written. */
  ghost predicate Clobbered(h: Heap, h': Heap, x: int) {
    WordChanged(h, h', x) || InFreeBody(h, x) || InFreeBody(h', x)
  }

  lemma {:induction false} OutsideFreeBodies(h: Heap, p: int, x: int)
    requires Tiled(h) && IsLive(h, p) && p + 8 <= x < Next(h, p) + 4
    ensures !InFreeBody(h, x)
  {
    forall a | IsFree(h, a)
      ensures !(a + 8 <= x < Next(h, a))
    {
      assert ApartOk(h, a, p) && ApartOk(h, p, a);
    }
  }

  /** No byte of a block that stays in use is clobbered. */
  lemma {:induction false} PayloadKept(h: Heap, h': Heap, p: int, q: int, x: int)
    requires Tiled(h) && Tiled(h') && Untouched(h, h') && Covers(LiveMap(h), p, q) && Covers(LiveMap(h'), p, q)
    requires q % 8 == 0 && p + 8 <= x < q + 4
    ensures !Clobbered(h, h', x)
  {
    OutsideFreeBodies(h, p, x);
    OutsideFreeBodies(h', p, x);
    assert SameWords(h, h', p, q);
    assert p % 8 == 0;
    hide Tiled;
    WordOf(p, q, x);
  }

  lemma {:induction false} WordOf(p: int, q: int, x: int)
    requires p % 8 == 0 && q % 8 == 0 && p + 8 <= x < q + 4
    ensures var w := x / 4 * 4; if w % 8 == 0 then p < w <= q else p < w - 4 < q
  {
  }

  /** Byte x is in the block of chunk p, before and after. */
  predicate Common(before: map<int, nat>, after: map<int, nat>, p: int, x: int) {
    p in before && p in after && p + 8 <= x < p + before[p] + 4 && x < p + after[p] + 4
  }

  /** The bytes of every block that stays in use, as far as it is common to both sizes, are as before. */
  ghost predicate BytesKept(before: map<int, nat>, after: map<int, nat>, d: int -> nat, d': int -> nat) {
    forall p, x :: Common(before, after, p, x) ==> d'(x) == d(x)
  }

  /** The n bytes from src on are now those from dst on. */
  ghost predicate Carried(d: int -> nat, d': int -> nat, src: int, dst: int, n: int) {
    forall x :: dst <= x < dst + n ==> d'(x) == d(src + (x - dst))
  }

  lemma {:induction false} KeptBytes(h: Heap, h': Heap, d: int -> nat, d': int -> nat)
    requires (LiveMap(h) == map[] || Tiled(h)) && Tiled(h') && Untouched(h, h')
    requires forall x :: !Clobbered(h, h', x) ==> d'(x) == d(x)
    ensures BytesKept(LiveMap(h), LiveMap(h'), d, d')
  {
    hide Untouched, Clobbered;
    var before, after := LiveMap(h), LiveMap(h');
    forall p, x | Common(before, after, p, x)
      ensures d'(x) == d(x)
    {
      assert StepOk(h, p) && StepOk(h', p) && p % 8 == 0;
      var q := p + if before[p] <= after[p] then before[p] else after[p];
      hide Tiled, LiveMap;
      PayloadKept(h, h', p, q, x);
    }
  }

  lemma {:induction false} BytesRefl(m: map<int, nat>, m': map<int, nat>, d: int -> nat)
    ensures BytesKept(m, m', d, d)
  {
  }

  lemma {:induction false} BytesTrans(m0: map<int, nat>, m1: map<int, nat>, m2: map<int, nat>,
                                      d0: int -> nat, d1: int -> nat, d2: int -> nat)
    requires BytesKept(m0, m1, d0, d1) && BytesKept(m1, m2, d1, d2)
    requires forall p :: p in m0 && p in m2 ==> p in m1 && (m0[p] <= m1[p] || m2[p] <= m1[p])
    ensures BytesKept(m0, m2, d0, d2)
  {
    forall p, x | Common(m0, m2, p, x)
      ensures d2(x) == d0(x)
    {
      assert Common(m0, m1, p, x) && Common(m1, m2, p, x);
    }
  }

  /** The old block is copied into the new one and given back. */
  lemma {:induction false} CopiedThenFreed(m: map<int, nat>, m': map<int, nat>, src: int, dst: int, n: nat,
                                           d0: int -> nat, d1: int -> nat, d2: int -> nat)
    requires dst in m && src != dst && m' == m - {src} && n + 4 <= m[dst]
    requires BytesKept(m - {dst}, m, d0, d1) && BytesKept(m, m', d1, d2) && Carried(d0, d1, src + 8, dst + 8, n)
    ensures BytesKept(m - {dst}, m', d0, d2) && Carried(d0, d2, src + 8, dst + 8, n)
  {
    forall p, x | Common(m - {dst}, m', p, x)
      ensures d2(x) == d0(x)
    {
      assert Common(m - {dst}, m, p, x) && Common(m, m', p, x);
    }
    forall x | dst + 8 <= x < dst + 8 + n
      ensures d2(x) == d0(src + 8 + (x - (dst + 8)))
    {
      assert Common(m, m', dst, x);
    }
  }

  /** A block moves: a new one is made, and the old one copied into it and given back. */
  lemma {:induction false} BytesMoved(m0: map<int, nat>, m1: map<int, nat>, m2: map<int, nat>, src: int, dst: int, n: nat,
                                      d0: int -> nat, d1: int -> nat, d2: int -> nat)
    requires src in m0 && dst !in m0 && dst in m1 && m1 == m0[dst := m1[dst]] && m2 == m1 - {src} && n + 4 <= m0[src]
    requires BytesKept(m0, m1, d0, d1) && BytesKept(m1 - {dst}, m2, d1, d2) && Carried(d1, d2, src + 8, dst + 8, n)
    ensures BytesKept(m0, m2, d0, d2) && Carried(d0, d2, src + 8, dst + 8, n)
  {
    forall p, x | Common(m0, m2, p, x)
      ensures d2(x) == d0(x)
    {
      assert Common(m0, m1, p, x) && Common(m1 - {dst}, m2, p, x);
    }
    forall x | dst + 8 <= x < dst + 8 + n
      ensures d2(x) == d0(src + 8 + (x - (dst + 8)))
    {
      assert Common(m0, m1, src, src + 8 + (x - (dst + 8)));
    }
  }

  lemma {:induction false} CarriedLess(d: int -> nat, d': int -> nat, src: int, dst: int, n: int, k: int)
    requires Carried(d, d', src, dst, n) && k <= n
    ensures Carried(d, d', src, dst, k)
  {
  }

  /** memcpy */
  ghost function Copied(d: int -> nat, dst: int, src: int, n: nat): (r: int -> nat)
    ensures Carried(d, r, src, dst, n) && forall x :: !(dst <= x < dst + n) ==> r(x) == d(x)
  {
    x => if dst <= x < dst + n then d(src + (x - dst)) else d(x)
  }

  ghost predicate Zeroed(d: int -> nat, mem: int, n: int) {
    forall x :: mem <= x < mem + n ==> d(x) == 0
  }

  /** memset */
  ghost function Cleared(d: int -> nat, mem: int, n: nat): (r: int -> nat)
    ensures Zeroed(r, mem, n) && forall x :: !(mem <= x < mem + n) ==> r(x) == d(x)
  {
    x => if mem <= x < mem + n then 0 else d(x)
  }

  /** A new block is filled. */
  lemma {:induction false} BytesAdded(m0: map<int, nat>, m1: map<int, nat>, dst: int, d0: int -> nat, d1: int -> nat, d2: int -> nat)
    requires dst !in m0 && dst in m1 && m1 == m0[dst := m1[dst]] && BytesKept(m0, m1, d0, d1) && BytesKept(m1 - {dst}, m1, d1, d2)
    ensures BytesKept(m0, m1, d0, d2)
  {
    forall p, x | Common(m0, m1, p, x)
      ensures d2(x) == d0(x)
    {
      assert Common(m1 - {dst}, m1, p, x);
    }
  }

  /** Memory after an operation: whatever was there, except where it wrote. */
  ghost function Disturbed(h: Heap, h': Heap, d: int -> nat, noise: int -> nat): (r: int -> nat)
    ensures forall x :: !Clobbered(h, h', x) ==> r(x) == d(x)
  {
    x => if Clobbered(h, h', x) then noise(x) else d(x)
  }

  /** Writing to one block leaves the others alone. */
  lemma {:induction false} WroteOne(h: Heap, p: int, d: int -> nat, d': int -> nat, lo: int, hi: int)
    requires Tiled(h) && IsLive(h, p) && p + 8 <= lo <= hi <= Next(h, p) + 4
    requires forall x :: !(lo <= x < hi) ==> d'(x) == d(x)
    ensures BytesKept(LiveMap(h) - {p}, LiveMap(h), d, d')
  {
    var m := LiveMap(h);
    forall a, x | Common(m - {p}, m, a, x)
      ensures d'(x) == d(x)
    {
      assert ApartOk(h, a, p) && ApartOk(h, p, a);
    }
  }
}
