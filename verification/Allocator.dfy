// dlmalloc's entry points over wasm linear memory (src/runtime/dlmalloc/malloc.c:4043-4249, 4550-4683,
// 4688-4810, 4896-4968, 5191-5273) and the runtime's exports (src/runtime/src/alloc_wasm.c:63-101).

module Allocator {
  import opened Powers
  import opened BinMaps
  import opened HeapTiling
  import opened HeapPlacement
  import opened WasmMemory
  import opened Malloc
  import opened HeapFrame
  import opened FreeStore
  import opened Alignment
  import CB = ChunkBins
  import SB = SmallBins
  import TB = TreeBins

  const GRANULARITY: nat := 65536
  const SYS_ALLOC_PADDING: nat := TOP_FOOT + 8
  const HALF_MAX: nat := 0x7FFF_FFFF
  const MAX_REQUEST: nat := W - 64
  const MAX_SMALL_REQUEST: nat := 244
  const MIN_REQUEST: nat := 11

  /** `granularity_align` and `page_align`, in 32-bit arithmetic. */
  function GranularityAlign(s: nat): nat {
    (s + GRANULARITY - 1) % W / GRANULARITY * GRANULARITY
  }

  /** ... which the source computes with a mask. */
  lemma {:induction false} GranularityIsMask(s: nat)
    ensures GranularityAlign(s) == And((s + GRANULARITY - 1) % W, W - GRANULARITY)
  {
    hide And, Pow2;
    WordPow();
    assert Pow2(16) == GRANULARITY by {
      Pow2Of8();
      Pow2Add(8, 8);
    }
    MaskRounds((s + GRANULARITY - 1) % W, 32, 16);
  }

  /** `request2size` */
  function RequestSize(bytes: nat): nat {
    if bytes < MIN_REQUEST then MIN_CHUNK else (bytes + 4 + 7) / 8 * 8
  }

  /** What `sys_alloc` asks the system for: whole pages, or 0 if the sum wraps. */
  function PageNeed(nb: nat): nat {
    GranularityAlign((nb + SYS_ALLOC_PADDING) % W)
  }

  /** More than the system can give, from a given break on: it wraps, or is half of memory, or ends behind it. */
  predicate OutOfReach(bytes: nat, brk: nat) {
    || bytes >= MAX_REQUEST
    || (var need := PageNeed(RequestSize(bytes)); need <= RequestSize(bytes) || need >= HALF_MAX || brk + need >= W - 1)
  }

  /** What an aligned request asks of `dlmalloc`: room to move to an aligned spot behind a leader. */
  function Demand(bytes: nat, alignment: nat): nat {
    if alignment <= 8 then bytes
    else if bytes < MAX_REQUEST - alignment then RequestSize(bytes) + alignment + MIN_CHUNK - 4
    else MAX_REQUEST
  }

  /** A request padded: a legal chunk size whose payload holds the bytes, with no more than needed. */
  lemma {:induction false} RequestFits(bytes: nat)
    requires bytes < MAX_REQUEST
    ensures var nb := RequestSize(bytes);
            && nb % 8 == 0 && MIN_CHUNK <= nb < W && bytes + 4 <= nb && (nb == MIN_CHUNK || nb < bytes + 12)
            && (bytes <= MAX_SMALL_REQUEST <==> nb < 0x100)
  {
  }

  /** The overflow test of `dlcalloc`: it lets a product through exactly if it fits a word. */
  lemma {:induction false} ProductTest(n: nat, size: nat)
    requires n < W && size < W
    ensures n > 0 ==> (!((n >= 0x10000 || size >= 0x10000) && n * size % W / n != size) <==> n * size < W)
    ensures n == 0 ==> n * size == 0
  {
    if n > 0 {
      var p := n * size;
      if p < W {
        assert p % W == p;
        QuotientIs(p, n, size, 0);
      } else {
        if n < 0x10000 && size < 0x10000 { SmallProduct(n, size); }
        var req := p % W;
        Euclid(req, n);
        assert req / n == size ==> size * n <= req;
      }
    }
  }

  lemma {:induction false} SmallProduct(n: nat, size: nat)
    requires n < 0x10000 && size < 0x10000
    ensures n * size < W
  {
    MulGe(size, 0xFFFF, n);
    assert size * n == n * size;
  }

  lemma {:induction false} RequestHolds(bytes: nat)
    ensures bytes + 4 <= RequestSize(bytes)
  {
  }

  /** Rounding up does not wrap unless the result says so. */
  lemma {:induction false} RoundedUp(nb: nat)
    requires nb < W && PageNeed(nb) > nb
    ensures var a := PageNeed(nb);
            && a >= nb + SYS_ALLOC_PADDING && a % GRANULARITY == 0 && a % 8 == 0
            && nb + SYS_ALLOC_PADDING + GRANULARITY - 1 < W
  {
    NoWrap(nb);
    WholeUnits(nb + SYS_ALLOC_PADDING);
  }

  lemma {:induction false} NoWrap(nb: nat)
    requires nb < W && PageNeed(nb) > nb
    ensures nb + SYS_ALLOC_PADDING + GRANULARITY - 1 < W
  {
  }

  /** What the first contiguous request asks for: whole pages, and what is missing to a page boundary. */
  function FirstSize(base: nat, asize: nat): nat
    requires base < W
  {
    if base % GRANULARITY != 0 then (asize + (GranularityAlign(base) + W - base) % W) % W else asize
  }

  lemma {:induction false} PagePad(base: nat)
    requires base < W && base % 8 == 0
    ensures var pad := (GranularityAlign(base) + W - base) % W; pad < GRANULARITY && pad % 8 == 0
  {
    var g := GranularityAlign(base);
    if base + GRANULARITY - 1 >= W {
      PageWraps(base);
    } else {
      WholeUnits(base);
      PageAbove(base);
    }
    hide GranularityAlign;
    var up := if g == 0 && base > 0 then W else g;
    assert (g + W - base) % W == up - base;
  }

  lemma {:induction false} PageWraps(base: nat)
    requires base < W && base + GRANULARITY - 1 >= W
    ensures GranularityAlign(base) == 0
  {
    var y := base + GRANULARITY - 1;
    assert y % W == y - W < GRANULARITY;
  }

  lemma {:induction false} PageAbove(base: nat)
    requires base + GRANULARITY - 1 < W
    ensures GranularityAlign(base) < base + GRANULARITY
  {
    var y := base + GRANULARITY - 1;
    assert y % W == y;
    assert y / GRANULARITY * GRANULARITY <= y;
  }

  lemma {:induction false} FirstSizeFits(base: nat, asize: nat)
    requires base < W && base % 8 == 0 && asize < W && asize % GRANULARITY == 0
    ensures asize <= FirstSize(base, asize) && FirstSize(base, asize) % 8 == 0
  {
    PagePad(base);
    hide GranularityAlign;
    AddPad(asize, (GranularityAlign(base) + W - base) % W);
    AddPad(asize, 0);
  }

  lemma {:induction false} AddPad(asize: nat, pad: nat)
    requires asize < W && asize % GRANULARITY == 0 && pad < GRANULARITY && pad % 8 == 0
    ensures asize + pad < W && asize <= (asize + pad) % W && (asize + pad) % W % 8 == 0
  {
    var k := asize / GRANULARITY;
    assert asize == GRANULARITY * k;
    WholePages(k, asize);
    MultiplesOf8(asize, pad);
    assert (asize + pad) % W == asize + pad;
  }

  lemma {:induction false} WholePages(k: nat, asize: nat)
    requires asize == GRANULARITY * k && asize < W
    ensures asize + GRANULARITY <= W && asize % 8 == 0
  {
    assert k < 65536;
    assert asize == 8 * (8192 * k);
  }

  /**
   * A first segment from the non-contiguous path is a whole number of pages long, so a size word
   * that keeps its flag bits clear needs an aligned base.
   */
  lemma {:induction false} MisalignedBase(base: nat, tsize: nat)
    requires tsize % GRANULARITY == 0 && tsize > TOP_FOOT + 8
    ensures (tsize - TOP_FOOT - AlignOffset(base + 8)) % 8 == 0 <==> base % 8 == 0
  {
  }

  lemma {:induction false} RoundedTop(nb: nat, topsize: nat)
    requires topsize <= nb && nb + SYS_ALLOC_PADDING + GRANULARITY - 1 < W
    ensures var a := GranularityAlign((nb - topsize + SYS_ALLOC_PADDING) % W);
            nb + SYS_ALLOC_PADDING <= a + topsize && a % 8 == 0
  {
    var x := nb - topsize + SYS_ALLOC_PADDING;
    assert x % W == x;
    WholeUnits(x);
    hide GranularityAlign;
  }

  lemma {:induction false} WholeUnits(x: nat)
    requires x + GRANULARITY - 1 < W
    ensures x <= GranularityAlign(x) && GranularityAlign(x) % 8 == 0
  {
    var y := x + GRANULARITY - 1;
    assert y % W == y;
    var k := y / GRANULARITY;
    assert y == GRANULARITY * k + y % GRANULARITY;
    WholePages(k, GRANULARITY * k);
  }

  /** dlmalloc's policy: which chunk at hand serves, how much of it, and what is left. */
  ghost predicate ServedFrom(s: Store, s': Store, live: map<int, nat>, nb: nat, p: int) {
    Chosen(s, nb, p) && s' == AfterServe(s, nb, p) && p in live && live[p] == ServedSize(s, nb, p)
  }

  /** What a block had is found at r, as far as the old block and the new size go. */
  ghost predicate Survives(before: map<int, nat>, d: int -> nat, d': int -> nat, mem: int, r: int, bytes: nat) {
    mem - 8 in before && Carried(d, d', mem, r, Lesser(Usable(before, mem - 8), bytes))
  }

  /** The length of the memcpy of a realloc that moves. */
  predicate CopyLength(before: map<int, nat>, mem: int, bytes: nat, copied: nat) {
    mem - 8 in before && copied == Lesser(Usable(before, mem - 8), bytes)
  }

  /** The bytes a client may use of a block. */
  function Usable(live: map<int, nat>, p: int): int
    requires p in live
  {
    var size: int := live[p];
    size - 4
  }

  function Lesser(a: int, b: int): int {
    if a < b then a else b
  }

  function AtLeastOne(size: nat): nat {
    if size == 0 then 1 else size
  }

  lemma {:induction false} SmallPowers(mem: int, alignment: nat)
    requires (mem - 8) % 8 == 0 && (alignment == 1 || alignment == 2 || alignment == 4 || alignment == 8)
    ensures mem % alignment == 0
  {
  }

  /** The block at p is now at q, with room for the bytes; all others are as before. */
  ghost predicate Rehoused(before: map<int, nat>, after: map<int, nat>, p: int, q: int, bytes: nat) {
    && p in before && q in after && (q == p || q !in before) && q > 0
    && after == (before - {p})[q := after[q]] && RequestSize(bytes) <= after[q] <= RequestSize(bytes) + MIN_CHUNK
  }

  /** A block of its own at an address that is a multiple of a, with room for the bytes. */
  ghost predicate Aligned(before: map<int, nat>, after: map<int, nat>, p: int, bytes: nat, a: nat)
    requires a > 0
  {
    && p > 0 && (p + 8) % a == 0 && p !in before && p in after && after == before[p := after[p]]
    && RequestSize(bytes) <= after[p] <= RequestSize(bytes) + MIN_CHUNK
  }

  lemma {:induction false} StaysHoused(before: map<int, nat>, after: map<int, nat>, p: int, bytes: nat)
    requires p > 0 && p in before && Resized(before, after, p, RequestSize(bytes), p)
    ensures Rehoused(before, after, p, p, bytes)
  {
  }

  /** The block at p is now at q, with room for nb bytes; all others are as before. */
  ghost predicate Moved(before: map<int, nat>, after: map<int, nat>, p: int, q: int, nb: nat) {
    && p in before && q in after && (q == p || q !in before) && q > 0 && q % 8 == 0
    && after == (before - {p})[q := after[q]] && nb <= after[q] < nb + MIN_CHUNK
  }

  /** Where an aligned block goes: behind a leader of legal size, no further than al + 8 bytes in. */
  lemma {:induction false} LeaderFits(p: int, al: nat)
    requires p > 0 && p % 8 == 0 && al >= MIN_CHUNK && al % 8 == 0 && (p + 8) % al != 0
    ensures var br := AlignUp(p + 8, al) - 8;
            var pos := if br - p >= MIN_CHUNK then br else br + al;
            (pos + 8) % al == 0 && MIN_CHUNK <= pos - p <= al + 8 && (pos - p) % 8 == 0
  {
    AlignUpIs(p + 8, al);
    var up := AlignUp(p + 8, al);
    EightDivides(up, al);
    hide AlignUp;
    LeaderSize(p, al, up);
    if up - 8 - p >= MIN_CHUNK {
      assert (up - 8 + 8) % al == 0;
    } else {
      assert up - 8 + al + 8 == up + al;
    }
  }

  lemma {:induction false} LeaderSize(p: int, al: nat, up: nat)
    requires p % 8 == 0 && al % 8 == 0 && up % 8 == 0 && p + 8 < up < p + 8 + al && al >= MIN_CHUNK
    ensures var br := up - 8;
            var pos := if br - p >= MIN_CHUNK then br else br + al;
            MIN_CHUNK <= pos - p <= al + 8 && (pos - p) % 8 == 0
  {
  }

  /** A place for an aligned block: at the chunk itself, or far enough in to leave a chunk before it. */
  predicate SpotFor(p: int, al: nat, q: int)
    requires al > 0
  {
    p <= q && (q + 8) % al == 0 && (q == p || q - p >= MIN_CHUNK)
  }

  ghost predicate FirstSpotFor(p: int, al: nat, q: int)
    requires al > 0
  {
    SpotFor(p, al, q) && forall o :: SpotFor(p, al, o) ==> q <= o
  }

  /** The place taken is the first there is. */
  lemma {:induction false} FirstSpot(p: int, al: nat, q: int)
    requires p > 0 && p % 8 == 0 && al >= MIN_CHUNK && al % 8 == 0 && (p + 8) % al != 0 && SpotFor(p, al, q)
    ensures var br := AlignUp(p + 8, al) - 8;
            (if br - p >= MIN_CHUNK then br else br + al) <= q
  {
    AlignUpIs(p + 8, al);
    AlignUpLeast(p + 8, al, q + 8);
    MultiplesApart(AlignUp(p + 8, al), q + 8, al);
    hide AlignUp;
  }

  /** The bytes of the chunks in use (or free) in a list of chunks. */
  ghost function BytesIf(h: Heap, w: seq<int>, used: bool): int
    requires forall i :: 0 <= i < |w| ==> w[i] in h.head
  {
    if w == [] then 0 else (if h.head[w[0]].cinuse == used then h.head[w[0]].size else 0) + BytesIf(h, w[1..], used)
  }

  lemma {:induction false} BytesSplit(h: Heap, w: seq<int>)
    requires forall i :: 0 <= i < |w| ==> w[i] in h.head
    ensures BytesIf(h, w, true) + BytesIf(h, w, false) == Bytes(h, w)
  {
    if w != [] { BytesSplit(h, w[1..]); }
  }

  /** A block resized in place keeps its bytes, as far as both sizes go. */
  lemma {:induction false} StaysCarried(before: map<int, nat>, after: map<int, nat>, d: int -> nat, d': int -> nat, p: int, bytes: nat)
    requires p in before && before[p] >= 4 && bytes + 4 <= RequestSize(bytes) && Resized(before, after, p, RequestSize(bytes), p)
    requires BytesKept(before, after, d, d')
    ensures Carried(d, d', p + 8, p + 8, Lesser(Usable(before, p), bytes))
  {
    forall x | p + 8 <= x < p + 8 + Lesser(Usable(before, p), bytes)
      ensures d'(x) == d(x)
    {
      assert Common(before, after, p, x);
    }
  }

  /** Bytes that were as before are carried as from before. */
  lemma {:induction false} CarriedAfter(live: map<int, nat>, d: int -> nat, d1: int -> nat, d2: int -> nat, mem: int, r: int, n: int)
    requires mem - 8 in live && n + 4 <= live[mem - 8] && BytesKept(live, live, d, d1) && Carried(d1, d2, mem, r, n)
    ensures Carried(d, d2, mem, r, n)
  {
    forall x | r <= x < r + n
      ensures d2(x) == d(mem + (x - r))
    {
      assert Common(live, live, mem - 8, mem + (x - r));
    }
  }

  lemma {:induction false} NoneKept(before: map<int, nat>, d: int -> nat, d': int -> nat)
    ensures BytesKept(before, map[], d, d')
  {
  }

  lemma {:induction false} TopsizeWord(h: Heap)
    ensures Tiled(h) ==> h.topsize < W
  {
  }

  class Allocator {
    const gm: MallocState
    const memory: Memory
    // the one segment of malloc_state, and the flag set by disable_contiguous
    var segBase: int
    var segSize: nat
    var noncontiguous: bool
    /** Memory, byte by byte. */
    ghost var data: int -> nat

    /** The heap is sound; its only segment ends at the break, with top_foot behind top. */
    ghost predicate Valid()
      reads this, gm, gm.bins, gm.bins.small, gm.bins.large, memory
    {
      && memory.Valid() && gm.Ready() && memory.Break() % 8 == 0
      && (gm.top != 0 ==>
            && segBase + segSize == memory.Break() && memory.Backed() && memory.heapBase <= segBase == gm.first
            && gm.top + gm.topsize + TOP_FOOT == segBase + segSize)
    }

    /** Before the first request; wasm-ld aligns __heap_base (see MisalignedBase for why that matters). */
    constructor (heads: map<int, Head>, feet: map<int, nat>, heapBase: nat, pages: nat, ghost bytes: int -> nat)
      requires AllWords(heads, feet) && 0 < heapBase < W && heapBase % 8 == 0 && pages <= WASM_PAGE
      ensures Valid() && gm.Live() == map[]
      ensures fresh(gm) && fresh(gm.bins) && fresh(gm.bins.small) && fresh(gm.bins.large) && fresh(memory) && data == bytes
    {
      gm := new MallocState(heads, feet);
      memory := new Memory(heapBase, pages);
      segBase, segSize, noncontiguous := 0, 0, false;
      data := bytes;
    }

    /** No chunk at hand has room for the bytes. */
    ghost predicate NoneAtHand(bytes: nat)
      reads gm, gm.bins, gm.bins.small, gm.bins.large
    {
      bytes >= MAX_REQUEST || gm.NoFit(RequestSize(bytes))
    }

    /** The block can be resized where it is. */
    ghost predicate CanGrow(mem: int, bytes: nat)
      reads gm
    {
      mem != 0 && bytes < MAX_REQUEST && Growable(gm.H(), mem - 8, RequestSize(bytes))
    }

    /** The system could not give what was asked for, or did not, since the break and the count of denials were these. */
    ghost predicate Denied(bytes: nat, brk: nat, denied: nat)
      reads memory
    {
      OutOfReach(bytes, brk) || memory.denials > denied
    }

    /** Memory was obtained at the old break, and enough of it: behind an existing top, or on its own. */
    ghost predicate Enough(nb: nat, tbase: nat, tsize: nat)
      reads this, gm, memory
    {
      && tsize % 8 == 0 && memory.Break() == tbase + tsize && memory.Backed()
      && nb + SYS_ALLOC_PADDING <= gm.topsize + tsize
    }

    /** How much the contiguous attempt asks for: what top lacks, or up to a page boundary for a first segment. */
    ghost function FirstAsk(nb: nat, asize: nat, brk: nat): nat
      reads gm
    {
      if gm.top != 0 then GranularityAlign((nb - gm.topsize + SYS_ALLOC_PADDING) % W)
      else if brk < W then FirstSize(brk, asize) else 0
    }

    /** The contiguous attempt cannot succeed: it asks for half of memory, for too little, or past the end. */
    ghost predicate AskFails(nb: nat, asize: nat)
      reads gm, memory
    {
      var ask := FirstAsk(nb, asize, memory.Break());
      ask >= HALF_MAX || (gm.top == 0 && ask <= nb) || memory.Break() + ask >= W - 1
    }

    /** The contiguous attempt of `sys_alloc`; its recovery from a partial failure cannot be reached. */
    method Contiguous(nb: nat, asize: nat) returns (tbase: nat, tsize: nat)
      requires memory.Valid() && memory.Break() % 8 == 0 && gm.topsize <= nb && asize < W
      requires nb + SYS_ALLOC_PADDING <= asize && asize % GRANULARITY == 0 && nb + SYS_ALLOC_PADDING + GRANULARITY - 1 < W
      requires gm.top == 0 ==> gm.topsize == 0
      requires gm.top != 0 ==> segBase + segSize == memory.Break() && memory.Backed()
      modifies this`noncontiguous, memory
      ensures memory.Valid() && (tbase == FAIL || tbase == old(memory.Break()))
      ensures tbase != FAIL ==> Enough(nb, tbase, tsize)
      ensures tbase == FAIL ==> memory.Break() == old(memory.Break()) && (old(memory.Backed()) ==> memory.Backed())
      ensures memory.Since(old(memory.Break()), old(memory.denials))
      ensures tbase != FAIL ==> tsize == FirstAsk(nb, asize, old(memory.Break()))
      ensures noncontiguous == (old(noncontiguous) || tbase == FAIL)
      ensures tbase == FAIL ==> old(AskFails(nb, asize)) || memory.denials > old(memory.denials)
    {
      hide GranularityAlign, FirstSize, Memory.Backed;
      var br: nat := FAIL;
      var ssize: nat := asize;
      tbase, tsize := FAIL, 0;
      if gm.top == 0 {
        var base := memory.Morecore(0);
        if base != FAIL {
          FirstSizeFits(base, asize);
          ssize := FirstSize(base, asize);
          if ssize > nb && ssize < HALF_MAX {
            br := memory.Morecore(ssize);
            if br == base {
              tbase, tsize := base, ssize;
            }
          }
        }
      } else {
        ssize := GranularityAlign((nb - gm.topsize + SYS_ALLOC_PADDING) % W);
        RoundedTop(nb, gm.topsize);
        if ssize < HALF_MAX {
          br := memory.Morecore(ssize);
          if br == segBase + segSize {
            tbase, tsize := br, ssize;
          }
        }
      }
      if tbase == FAIL {
        if br != FAIL {
          assert false;
        } else {
          noncontiguous := true;
        }
      }
    }

    /** The non-contiguous attempt of `sys_alloc`, which on wasm is contiguous all the same. */
    method Noncontiguous(nb: nat, asize: nat) returns (tbase: nat, tsize: nat)
      requires memory.Valid() && memory.Break() % 8 == 0
      requires nb + SYS_ALLOC_PADDING <= asize && asize % 8 == 0
      modifies memory
      ensures memory.Valid() && (tbase == FAIL || tbase == old(memory.Break()))
      ensures tbase != FAIL ==> Enough(nb, tbase, tsize)
      ensures tbase == FAIL ==> memory.Break() == old(memory.Break()) && (old(memory.Backed()) ==> memory.Backed())
      ensures memory.Since(old(memory.Break()), old(memory.denials))
      ensures tbase == FAIL ==> asize >= HALF_MAX || old(memory.Break()) + asize >= W - 1 || memory.denials > old(memory.denials)
      ensures tbase != FAIL ==> tsize == asize
    {
      hide Memory.Backed;
      tbase, tsize := FAIL, 0;
      if asize < HALF_MAX {
        var br := memory.Morecore(asize);
        var end := memory.Morecore(0);
        if br != FAIL && end != FAIL && br < end {
          var ssize := end - br;
          if ssize > nb + TOP_FOOT {
            tbase, tsize := br, ssize;
          }
        }
      }
    }

    /** `sys_alloc`; prepending to a segment and adding another cannot be reached. */
    method SysAlloc(nb: nat) returns (p: int)
      requires Valid() && gm.topsize <= nb < W && (nb % 8 == 0 || nb == W - 1) && MIN_CHUNK <= nb
      modifies this, gm, memory
      ensures Valid()
      ensures p == 0 ==> gm.Live() == old(gm.Live()) && memory.Break() == old(memory.Break())
      ensures p != 0 ==> nb % 8 == 0 && Got(old(gm.Live()), gm.Live(), p, nb)
      ensures Untouched(old(gm.H()), gm.H()) && data == old(data)
      ensures memory.Since(old(memory.Break()), old(memory.denials))
      ensures p == 0 ==>
                || PageNeed(nb) <= nb || PageNeed(nb) >= HALF_MAX || old(memory.Break()) + PageNeed(nb) >= W - 1
                || memory.denials > old(memory.denials)
      ensures p == 0 ==> gm.Free() == old(gm.Free())
      ensures p != 0 ==> p == (if old(gm.top) != 0 then old(gm.top) else old(memory.Break())) && gm.Live()[p] == nb
      ensures p != 0 ==> gm.Free() == old(gm.Free()).(top := p + nb, topsize := gm.topsize)
      ensures p != 0 ==> memory.Break() - old(memory.Break()) == PageNeed(nb) || memory.Break() - old(memory.Break()) == old(FirstAsk(nb, PageNeed(nb), memory.Break()))
      ensures p != 0 && !noncontiguous ==> memory.Break() - old(memory.Break()) == old(FirstAsk(nb, PageNeed(nb), memory.Break()))
      ensures noncontiguous && !old(noncontiguous) ==> old(AskFails(nb, PageNeed(nb))) || memory.denials > old(memory.denials)
    {
      hide Untouched, Tiled, Placed, LiveMap, SB.ValidBins, TB.ValidBins, AllWords;
      UntouchedRefl(gm.H());
      p := 0;
      var asize := PageNeed(nb);
      if asize <= nb {
        return;
      }
      RoundedUp(nb);
      var tbase, tsize := FAIL, 0;
      if !noncontiguous {
        tbase, tsize := Contiguous(nb, asize);
      }
      if tbase == FAIL {
        tbase, tsize := Noncontiguous(nb, asize);
      }
      if tbase != FAIL {
        p := Serve(nb, tbase, tsize);
      }
    }

    /** Memory obtained becomes part of the one segment, and the request is served from top. */
    method Serve(nb: nat, tbase: nat, tsize: nat) returns (p: int)
      requires memory.Valid() && gm.Ready() && nb % 8 == 0 && MIN_CHUNK <= nb && memory.heapBase <= tbase && tbase % 8 == 0
      requires Enough(nb, tbase, tsize)
      requires gm.top != 0 ==> segBase + segSize == tbase && memory.heapBase <= segBase == gm.first && gm.top + gm.topsize + TOP_FOOT == tbase
      modifies this`segBase, this`segSize, gm
      ensures Valid() && Got(old(gm.Live()), gm.Live(), p, nb) && Untouched(old(gm.H()), gm.H())
      ensures p == (if old(gm.top) != 0 then old(gm.top) else tbase) && gm.Live()[p] == nb
      ensures gm.Free() == old(gm.Free()).(top := p + nb, topsize := gm.topsize)
    {
      hide Untouched, Tiled, Placed, LiveMap, SB.ValidBins, TB.ValidBins, AllWords, Memory.Backed;
      if gm.top != 0 {
        TopAddress(gm.H());
      }
      if gm.top == 0 {
        segBase, segSize := tbase, tsize;
        gm.FirstSegment(tbase, tsize);
      } else if tbase == segBase + segSize && segBase <= gm.top < segBase + segSize {
        segSize := segSize + tsize;
        gm.Append(tsize);
      } else {
        assert false;
      }
      ghost var h1 := gm.H();
      if nb < gm.topsize {
        p := gm.FromTop(nb);
        HasWords(gm.H());
        SameLiveTrans(old(gm.H()), h1, gm.H());
      } else {
        assert false;
      }
    }

    /** Every byte of the segment is in a live chunk, in a free chunk, in top, or in the foot behind top. */
    lemma {:induction false} Conserved()
      requires Valid() && gm.top != 0
      ensures var h := gm.H();
              && h.first in h.starts && Tiled(h)
              && var w := Walk(h, h.first);
              && (forall i :: 0 <= i < |w| ==> w[i] in h.head)
              && (forall a :: a in w <==> IsLive(h, a) || IsFree(h, a))
              && BytesIf(h, w, true) + BytesIf(h, w, false) + gm.topsize + TOP_FOOT == segSize
    {
      hide Placed, SB.ValidBins, TB.ValidBins, Memory.Backed;
      var h := gm.H();
      HasGrid(h);
      hide Tiled, Walk, Bytes, BytesIf;
      WalkTiles(h, h.first);
      var w := Walk(h, h.first);
      BytesSplit(h, w);
      forall a
        ensures a in w <==> IsLive(h, a) || IsFree(h, a)
      {
        assert a in h.starts ==> h.first <= a <= h.top && a in h.head;
      }
    }

    // ---------- entry points; pointers are chunk addresses + 8, and 0 is null ----------

    /** A pointer handed out, and not yet given back. */
    ghost predicate Holds(mem: int)
      reads gm
    {
      mem - 8 in gm.Live()
    }

    /** An operation from h on wrote where it writes: those bytes may be anything. */
    ghost method Disturb(h: Heap)
      modifies this`data
      ensures forall x :: !Clobbered(h, gm.H(), x) ==> data(x) == old(data)(x)
    {
      var noise: int -> nat := *;
      data := Disturbed(h, gm.H(), data, noise);
    }

    /** Before and after an operation, as far as memory is concerned. */
    lemma {:induction false} DisturbKept(h: Heap, d: int -> nat)
      requires gm.Ready() && Untouched(h, gm.H()) && (LiveMap(h) == map[] || Tiled(h))
      requires forall x :: !Clobbered(h, gm.H(), x) ==> data(x) == d(x)
      ensures BytesKept(LiveMap(h), gm.Live(), d, data)
    {
      hide Untouched, Clobbered, Tiled, Placed, BytesKept, SB.ValidBins, TB.ValidBins;
      if gm.top == 0 {
        NoChunks(gm.H());
        NoneKept(LiveMap(h), d, data);
      } else {
        KeptBytes(h, gm.H(), d, data);
      }
    }

    lemma {:induction false} HeapOrNone()
      requires gm.Ready()
      ensures gm.Live() == map[] || Tiled(gm.H())
    {
    }

    /** memcpy into a block held, from anywhere else. */
    method Copy(dst: int, src: int, n: nat)
      requires Valid() && Holds(dst) && n + 4 <= gm.Live()[dst - 8] && (src + n <= dst || dst + n <= src)
      modifies this`data, gm
      ensures Valid() && gm.Live() == old(gm.Live()) && memory.Break() == old(memory.Break())
      ensures Carried(old(data), data, src, dst, n) && BytesKept(old(gm.Live()) - {dst - 8}, gm.Live(), old(data), data)
    {
      hide Tiled, Placed, LiveMap, SB.ValidBins, TB.ValidBins, AllWords, BytesKept, Carried, Copied;
      gm.Initialised(dst - 8);
      LiveFacts(gm.H(), dst - 8);
      WroteOne(gm.H(), dst - 8, data, Copied(data, dst, src, n), dst, dst + n);
      data := Copied(data, dst, src, n);
      gm.Scribble(dst - 8);
    }

    /** The end of a realloc that moves: memcpy, and the old block goes back. */
    method Relocate(mem: int, r: int, n: nat)
      requires Valid() && Holds(mem) && Holds(r) && r != mem && n + 4 <= gm.Live()[mem - 8] && n + 4 <= gm.Live()[r - 8]
      modifies this, gm, gm.bins.small, gm.bins.large
      ensures Valid() && gm.Live() == old(gm.Live()) - {mem - 8}
      ensures Carried(old(data), data, mem, r, n) && BytesKept(old(gm.Live()) - {r - 8}, gm.Live(), old(data), data)
    {
      hide Valid, MallocState.Ready, LiveMap, BytesKept, Carried, AfterFree;
      BlocksApart(mem, r);
      Copy(r, mem, n);
      ghost var d := data;
      var size := ChunkSize(mem);
      Free(mem);
      CopiedThenFreed(old(gm.Live()), gm.Live(), mem - 8, r - 8, n, old(data), d, data);
    }

    lemma {:induction false} BlocksApart(mem: int, r: int)
      requires Valid() && Holds(mem) && Holds(r) && r != mem
      ensures mem + gm.Live()[mem - 8] - 4 <= r || r + gm.Live()[r - 8] - 4 <= mem
    {
      hide Placed, SB.ValidBins, TB.ValidBins;
      gm.Initialised(mem - 8);
      if mem < r {
        PayloadsDisjoint(gm.H(), mem - 8, r - 8);
      } else {
        PayloadsDisjoint(gm.H(), r - 8, mem - 8);
      }
    }

    /** memset to zero, of a block held. */
    method Clear(mem: int, n: nat)
      requires Valid() && Holds(mem) && n + 4 <= gm.Live()[mem - 8]
      modifies this`data, gm
      ensures Valid() && gm.Live() == old(gm.Live()) && Zeroed(data, mem, n)
      ensures BytesKept(old(gm.Live()) - {mem - 8}, gm.Live(), old(data), data)
    {
      hide Tiled, Placed, LiveMap, SB.ValidBins, TB.ValidBins, AllWords, BytesKept, Zeroed, Cleared;
      gm.Initialised(mem - 8);
      LiveFacts(gm.H(), mem - 8);
      WroteOne(gm.H(), mem - 8, data, Cleared(data, mem, n), mem, mem + n);
      data := Cleared(data, mem, n);
      gm.Scribble(mem - 8);
    }

    /** `dlcalloc`: a block for n * size bytes, all of them zero; a product that does not fit a word fails. */
    method Calloc(n: nat, size: nat) returns (mem: int)
      requires Valid() && n < W && size < W
      modifies this, gm, gm.bins.small, gm.bins.large, memory
      ensures Valid()
      ensures mem == 0 ==> gm.Live() == old(gm.Live())
      ensures mem != 0 ==> n * size < MAX_REQUEST && Got(old(gm.Live()), gm.Live(), mem - 8, RequestSize(n * size))
      ensures mem != 0 ==> Zeroed(data, mem, n * size)
      ensures BytesKept(old(gm.Live()), gm.Live(), old(data), data)
      ensures mem == 0 ==> old(NoneAtHand(n * size)) && Denied(n * size, old(memory.Break()), old(memory.denials))
      ensures memory.Since(old(memory.Break()), old(memory.denials))
    {
      hide BytesKept, Valid, MallocState.Ready, LiveMap, RequestSize, Zeroed, ServedFrom, NoneAtHand, Denied, AfterServe, ServedSize;
      var req := 0;
      ProductTest(n, size);
      if n * size >= MAX_REQUEST { TooMuch(n * size); }
      if n != 0 {
        req := n * size % W;
        if (n >= 0x10000 || size >= 0x10000) && req / n != size {
          req := W - 1;
        }
      }
      mem := Malloc(req);
      if mem != 0 {
        RequestHolds(req);
        ghost var m, d := gm.Live(), data;
        Clear(mem, req);
        BytesAdded(old(gm.Live()), m, mem - 8, old(data), d, data);
      } else if n * size >= MAX_REQUEST {
        TooMuch(n * size);
      }
    }

    lemma {:induction false} TooMuch(bytes: nat)
      requires bytes >= MAX_REQUEST
      ensures NoneAtHand(bytes) && forall brk: nat, denied: nat :: Denied(bytes, brk, denied)
    {
    }

    /** A client writes one byte of its block. */
    method Store(mem: int, offset: nat, value: nat)
      requires Valid() && Holds(mem) && offset + 4 < gm.Live()[mem - 8]
      modifies this`data, gm
      ensures Valid() && gm.Live() == old(gm.Live()) && data(mem + offset) == value
      ensures forall x :: x != mem + offset ==> data(x) == old(data)(x)
    {
      hide Tiled, Placed, LiveMap, SB.ValidBins, TB.ValidBins, AllWords;
      ghost var d := data;
      data := x => if x == mem + offset then value else d(x);
      gm.Scribble(mem - 8);
    }

    /** A chunk of nb bytes from what is at hand, or else from the system. */
    method Obtain(nb: nat) returns (p: int)
      requires Valid() && nb % 8 == 0 && MIN_CHUNK <= nb < W
      modifies this, gm, gm.bins.small, gm.bins.large, memory
      ensures Valid() && data == old(data)
      ensures p == 0 ==> gm.Live() == old(gm.Live()) && gm.Free() == old(gm.Free()) && memory.Break() == old(memory.Break())
      ensures p != 0 ==> Got(old(gm.Live()), gm.Live(), p, nb)
      ensures p == 0 || memory.Break() != old(memory.Break()) ==> old(gm.NoFit(nb))
      ensures p != 0 && !old(gm.NoFit(nb)) ==> ServedFrom(old(gm.Free()), gm.Free(), gm.Live(), nb, p)
      ensures p != 0 && old(gm.NoFit(nb)) ==>
                && p == (if old(gm.top) != 0 then old(gm.top) else old(memory.Break())) && gm.Live()[p] == nb
                && gm.Free() == old(gm.Free()).(top := p + nb, topsize := gm.topsize)
      ensures p == 0 ==>
                || PageNeed(nb) <= nb || PageNeed(nb) >= HALF_MAX || old(memory.Break()) + PageNeed(nb) >= W - 1
                || memory.denials > old(memory.denials)
      ensures memory.Since(old(memory.Break()), old(memory.denials))
      ensures Untouched(old(gm.H()), gm.H())
    {
      hide Tiled, Placed, LiveMap, SB.ValidBins, TB.ValidBins, AllWords, Memory.Backed, Untouched;
      hide AfterServe, ServedSize, Chosen, GranularityAlign, PageNeed;
      ghost var h := gm.H();
      p := gm.Find(nb);
      if p == 0 {
        TopsizeWord(gm.H());
        ghost var h1 := gm.H();
        p := SysAlloc(nb);
        SameLiveTrans(h, h1, gm.H());
      }
    }

    /** `dlmalloc` */
    method Malloc(bytes: nat) returns (mem: int)
      requires Valid() && bytes < W
      modifies this, gm, gm.bins.small, gm.bins.large, memory
      ensures Valid()
      ensures mem == 0 ==> gm.Live() == old(gm.Live()) && gm.Free() == old(gm.Free()) && memory.Break() == old(memory.Break())
      ensures mem != 0 ==> bytes < MAX_REQUEST && Got(old(gm.Live()), gm.Live(), mem - 8, RequestSize(bytes))
      ensures mem == 0 || memory.Break() != old(memory.Break()) ==> old(NoneAtHand(bytes))
      ensures mem == 0 ==> Denied(bytes, old(memory.Break()), old(memory.denials))
      ensures memory.Since(old(memory.Break()), old(memory.denials))
      ensures mem != 0 && !old(NoneAtHand(bytes)) ==> ServedFrom(old(gm.Free()), gm.Free(), gm.Live(), RequestSize(bytes), mem - 8)
      ensures mem != 0 && old(NoneAtHand(bytes)) ==> gm.top == mem - 8 + RequestSize(bytes) && gm.Live()[mem - 8] == RequestSize(bytes)
      ensures BytesKept(old(gm.Live()), gm.Live(), old(data), data)
    {
      hide BytesKept, MallocState.Ready, LiveMap, RequestSize, Memory.Backed, PageNeed, MallocState.NoFit, ServedFrom, Untouched, Clobbered;
      ghost var h := gm.H();
      HeapOrNone();
      var p;
      if bytes < MAX_REQUEST {
        RequestFits(bytes);
        p := Obtain(RequestSize(bytes));
      } else {
        TopsizeReady();
        p := SysAlloc(W - 1);
      }
      Disturb(h);
      DisturbKept(h, old(data));
      mem := if p == 0 then 0 else p + 8;
    }

    lemma {:induction false} TopsizeReady()
      requires gm.Ready()
      ensures gm.topsize < W
    {
      hide SB.ValidBins, TB.ValidBins, Placed;
      if gm.top != 0 { TopsizeWord(gm.H()); }
    }

    /** `dlfree` */
    method Free(mem: int)
      requires Valid() && (mem == 0 || Holds(mem))
      modifies this, gm, gm.bins.small, gm.bins.large
      ensures Valid() && gm.Live() == (if mem == 0 then old(gm.Live()) else old(gm.Live()) - {mem - 8})
      ensures BytesKept(old(gm.Live()), gm.Live(), old(data), data)
      ensures gm.Free() == if mem == 0 then old(gm.Free()) else AfterFree(old(gm.Free()), mem - 8, old(gm.Live()[mem - 8]))
    {
      hide BytesKept, Tiled, Placed, SB.ValidBins, TB.ValidBins, AllWords;
      hide Untouched, Clobbered;
      if mem != 0 {
        ghost var h := gm.H();
        HeapOrNone();
        gm.Dispose(mem - 8);
        HasWords(gm.H());
        Disturb(h);
        DisturbKept(h, old(data));
      } else {
        BytesRefl(gm.Live(), gm.Live(), data);
      }
    }

    /** The size of a block held. */
    method ChunkSize(mem: int) returns (s: nat)
      requires Valid() && Holds(mem)
      ensures s == gm.Live()[mem - 8] && s >= MIN_CHUNK && mem > 8 && mem % 8 == 0
    {
      hide Tiled, Placed, SB.ValidBins, TB.ValidBins, AllWords, Memory.Backed;
      gm.Initialised(mem - 8);
      LiveFacts(gm.H(), mem - 8);
      s := gm.head[mem - 8].size;
    }

    /** `dlrealloc_in_place` */
    method ReallocInPlace(mem: int, bytes: nat) returns (r: int)
      requires Valid() && bytes < W && (mem == 0 || Holds(mem))
      modifies this, gm, gm.bins.small, gm.bins.large
      ensures Valid() && (r == 0 || r == mem)
      ensures r == 0 ==> gm.Live() == old(gm.Live())
      ensures r != 0 ==> bytes < MAX_REQUEST && Resized(old(gm.Live()), gm.Live(), mem - 8, RequestSize(bytes), mem - 8)
      ensures BytesKept(old(gm.Live()), gm.Live(), old(data), data)
      ensures r != 0 <==> old(CanGrow(mem, bytes))
      ensures r == 0 ==> unchanged(gm) && unchanged(gm.bins.small) && unchanged(gm.bins.large)
      ensures r != 0 ==> gm.Free() == AfterGrow(old(gm.Free()), mem - 8, old(gm.Live()[mem - 8]), RequestSize(bytes))
      ensures r != 0 ==> gm.Live()[mem - 8] == GrownSize(old(gm.Free()), mem - 8, old(gm.Live()[mem - 8]), RequestSize(bytes))
    {
      hide BytesKept, Tiled, Placed, SB.ValidBins, TB.ValidBins, AllWords, RequestSize;
      hide Untouched, Clobbered;
      r := 0;
      BytesRefl(gm.Live(), gm.Live(), data);
      if mem != 0 && bytes < MAX_REQUEST {
        RequestFits(bytes);
        ghost var h := gm.H();
        HeapOrNone();
        LiveFacts(h, mem - 8);
        var q := gm.TryRealloc(mem - 8, RequestSize(bytes));
        HasWords(gm.H());
        Disturb(h);
        DisturbKept(h, old(data));
        if q == mem - 8 {
          r := mem;
        }
      }
    }

    /**
     * `dlrealloc`: in place, or into a new block with the old one given back; `copied` is the length
     * of the memcpy between the two.
     */
    method Realloc(mem: int, bytes: nat) returns (r: int, copied: nat)
      requires Valid() && bytes < W && (mem == 0 || Holds(mem))
      modifies this, gm, gm.bins.small, gm.bins.large, memory
      ensures Valid()
      ensures r == 0 ==> gm.Live() == old(gm.Live())
      ensures r != 0 ==> bytes < MAX_REQUEST
      ensures r != 0 && mem == 0 ==> Got(old(gm.Live()), gm.Live(), r - 8, RequestSize(bytes))
      ensures r != 0 && mem != 0 ==> Moved(old(gm.Live()), gm.Live(), mem - 8, r - 8, RequestSize(bytes))
      ensures BytesKept(old(gm.Live()), gm.Live(), old(data), data)
      ensures r != 0 && mem != 0 ==> Survives(old(gm.Live()), old(data), data, mem, r, bytes)
      ensures r != 0 && mem != 0 && r != mem ==> CopyLength(old(gm.Live()), mem, bytes, copied)
      ensures r == 0 ==> !old(CanGrow(mem, bytes))
      ensures r == 0 ==> old(NoneAtHand(bytes)) && Denied(bytes, old(memory.Break()), old(memory.denials))
      ensures memory.Since(old(memory.Break()), old(memory.denials))
      ensures old(CanGrow(mem, bytes)) ==> r == mem && gm.Live()[mem - 8] == GrownSize(old(gm.Free()), mem - 8, old(gm.Live()[mem - 8]), RequestSize(bytes))
    {
      hide BytesKept, Carried, Valid, MallocState.Ready, LiveMap, RequestSize, ServedFrom, GrownSize, AfterGrow, NoneAtHand, Denied, Growable;
      r, copied := 0, 0;
      if bytes >= MAX_REQUEST { TooMuch(bytes); }
      BytesRefl(gm.Live(), gm.Live(), data);
      if mem == 0 {
        r := Malloc(bytes);
      } else if bytes < MAX_REQUEST {
        RequestFits(bytes);
        var size := ChunkSize(mem);
        r := ReallocInPlace(mem, bytes);
        if r != 0 {
          StaysCarried(old(gm.Live()), gm.Live(), old(data), data, mem - 8, bytes);
        } else {
          ghost var d1 := data;
          r, copied := ReallocMoving(mem, bytes);
          BytesTrans(old(gm.Live()), old(gm.Live()), gm.Live(), old(data), d1, data);
          if r != 0 {
            CarriedAfter(old(gm.Live()), old(data), d1, data, mem, r, copied);
          }
        }
      }
    }

    /** The second half of `dlrealloc`: a new block, memcpy, and the old block goes back. */
    method ReallocMoving(mem: int, bytes: nat) returns (r: int, copied: nat)
      requires Valid() && bytes < MAX_REQUEST && Holds(mem)
      modifies this, gm, gm.bins.small, gm.bins.large, memory
      ensures Valid()
      ensures r == 0 ==> gm.Live() == old(gm.Live())
      ensures r != 0 ==> r != mem && Moved(old(gm.Live()), gm.Live(), mem - 8, r - 8, RequestSize(bytes))
      ensures r != 0 ==> CopyLength(old(gm.Live()), mem, bytes, copied) && Carried(old(data), data, mem, r, copied)
      ensures BytesKept(old(gm.Live()), gm.Live(), old(data), data)
      ensures r == 0 ==> old(NoneAtHand(bytes)) && Denied(bytes, old(memory.Break()), old(memory.denials))
      ensures memory.Since(old(memory.Break()), old(memory.denials))
    {
      hide BytesKept, Carried, Valid, MallocState.Ready, LiveMap, RequestSize, ServedFrom;
      copied := 0;
      r := Malloc(bytes);
      if r != 0 {
        RequestHolds(bytes);
        ghost var m, d := gm.Live(), data;
        var size := ChunkSize(mem);
        var oc := size - 4;
        copied := if oc < bytes then oc else bytes;
        Relocate(mem, r, copied);
        BytesMoved(old(gm.Live()), m, gm.Live(), mem - 8, r - 8, copied, old(data), d, data);
      }
    }

    /** `internal_memalign`: over-allocate, then give back the front and the spare end. */
    method InternalMemalign(alignment: nat, bytes: nat) returns (mem: int, ghost a: nat)
      requires Valid() && bytes < W && 0 < alignment <= 0x8000_0000
      modifies this, gm, gm.bins.small, gm.bins.large, memory
      ensures Valid() && PowerOfTwo(a) && alignment <= a && (PowerOfTwo(alignment) && alignment >= MIN_CHUNK ==> a == alignment)
      ensures mem == 0 ==> gm.Live() == old(gm.Live())
      ensures mem != 0 ==> Aligned(old(gm.Live()), gm.Live(), mem - 8, bytes, a)
      ensures BytesKept(old(gm.Live()), gm.Live(), old(data), data)
      ensures mem == 0 ==> old(NoneAtHand(Demand(bytes, a))) && Denied(Demand(bytes, a), old(memory.Break()), old(memory.denials))
      ensures memory.Since(old(memory.Break()), old(memory.denials))
    {
      hide BytesKept;
      var al := if alignment < MIN_CHUNK then MIN_CHUNK else alignment;
      PowerTest(al);
      if And(al, al - 1) != 0 {
        al := RoundToPower(al);
      }
      a := al;
      if al == MIN_CHUNK { assert alignment <= a; }
      mem := 0;
      BytesRefl(gm.Live(), gm.Live(), data);
      if bytes < MAX_REQUEST - al {
        mem := AlignedBlock(al, bytes);
      }
    }

    method AlignedBlock(al: nat, bytes: nat) returns (mem: int)
      requires Valid() && PowerOfTwo(al) && MIN_CHUNK <= al <= 0x8000_0000 && bytes < MAX_REQUEST - al
      modifies this, gm, gm.bins.small, gm.bins.large, memory
      ensures Valid()
      ensures mem == 0 ==> gm.Live() == old(gm.Live())
      ensures mem != 0 ==> Aligned(old(gm.Live()), gm.Live(), mem - 8, bytes, al)
      ensures BytesKept(old(gm.Live()), gm.Live(), old(data), data)
      ensures mem == 0 ==> old(NoneAtHand(Demand(bytes, al))) && Denied(Demand(bytes, al), old(memory.Break()), old(memory.denials))
      ensures memory.Since(old(memory.Break()), old(memory.denials))
    {
      hide BytesKept, Valid, MallocState.Ready, LiveMap, RequestSize, PowerOfTwo, ServedFrom, NoneAtHand, Denied;
      RequestFits(bytes);
      var nb := RequestSize(bytes);
      var req := nb + al + MIN_CHUNK - 4;
      mem := Malloc(req);
      if mem != 0 {
        RequestFits(req);
        PowerFacts(al);
        ghost var m, d := gm.Live(), data;
        mem := GiveBack(mem, al, nb);
        BytesTrans(old(gm.Live()), m, gm.Live(), old(data), d, data);
      }
    }

    /** Move to an aligned spot inside an over-sized block, and give back what is before and after. */
    method GiveBack(mem: int, al: nat, nb: nat) returns (r: int)
      requires Valid() && Holds(mem) && al >= MIN_CHUNK && al % 8 == 0
      requires nb % 8 == 0 && MIN_CHUNK <= nb && nb + al + MIN_CHUNK <= gm.Live()[mem - 8]
      modifies this, gm, gm.bins.small, gm.bins.large
      ensures Valid() && r > 8 && r % al == 0 && (r == mem || r - 8 !in old(gm.Live())) && Holds(r)
      ensures gm.Live() == (old(gm.Live()) - {mem - 8})[r - 8 := gm.Live()[r - 8]]
      ensures nb <= gm.Live()[r - 8] <= nb + MIN_CHUNK
      ensures BytesKept(old(gm.Live()), gm.Live(), old(data), data)
      ensures FirstSpotFor(mem - 8, al, r - 8)
      ensures gm.Live()[r - 8] == var rest := old(gm.Live()[mem - 8]) - (r - mem); if rest > nb + MIN_CHUNK then nb else rest
    {
      hide BytesKept, Valid, MallocState.Ready, LiveMap;
      var p := GiveFront(mem, al, nb);
      ghost var m, d := gm.Live(), data;
      var size := ChunkSize(p + 8);
      if size > nb + MIN_CHUNK {
        GiveEnd(p, nb);
        BytesTrans(old(gm.Live()), m, gm.Live(), old(data), d, data);
      }
      r := p + 8;
    }

    method GiveEnd(p: int, nb: nat)
      requires Valid() && p in gm.Live() && nb % 8 == 0 && MIN_CHUNK <= nb && nb + MIN_CHUNK <= gm.Live()[p]
      modifies this, gm, gm.bins.small, gm.bins.large
      ensures Valid() && gm.Live() == old(gm.Live())[p := nb]
      ensures BytesKept(old(gm.Live()), gm.Live(), old(data), data)
    {
      hide BytesKept, Tiled, Placed, LiveMap, SB.ValidBins, TB.ValidBins, AllWords, Memory.Backed, Untouched, Clobbered;
      gm.Initialised(p);
      ghost var h := gm.H();
      HeapOrNone();
      gm.Trim(p, nb);
      HasWords(gm.H());
      Disturb(h);
      DisturbKept(h, old(data));
    }

    method GiveFront(mem: int, al: nat, nb: nat) returns (p: int)
      requires Valid() && Holds(mem) && al >= MIN_CHUNK && al % 8 == 0
      requires nb + al + MIN_CHUNK <= gm.Live()[mem - 8] && MIN_CHUNK <= nb
      modifies this, gm, gm.bins.small, gm.bins.large
      ensures Valid() && p > 0 && (p + 8) % al == 0 && (p == mem - 8 || p !in old(gm.Live())) && p in gm.Live()
      ensures gm.Live() == (old(gm.Live()) - {mem - 8})[p := gm.Live()[p]] && nb <= gm.Live()[p]
      ensures BytesKept(old(gm.Live()), gm.Live(), old(data), data)
      ensures FirstSpotFor(mem - 8, al, p)
      ensures gm.Live()[p] == old(gm.Live()[mem - 8]) - (p - (mem - 8))
    {
      hide BytesKept, Valid, MallocState.Ready, LiveMap, AlignUp;
      var size := ChunkSize(mem);
      p := mem - 8;
      BytesRefl(gm.Live(), gm.Live(), data);
      if mem % al != 0 {
        var br := AlignUp(mem, al) - 8;
        var pos := if br - p >= MIN_CHUNK then br else br + al;
        LeaderFits(p, al);
        forall q | SpotFor(p, al, q)
          ensures pos <= q
        {
          FirstSpot(p, al, q);
        }
        CutFront(p, pos - p);
        p := pos;
      }
    }

    method CutFront(p: int, lead: nat)
      requires Valid() && p in gm.Live() && lead % 8 == 0 && MIN_CHUNK <= lead && lead + MIN_CHUNK <= gm.Live()[p]
      modifies this, gm, gm.bins.small, gm.bins.large
      ensures Valid() && p + lead !in old(gm.Live())
      ensures gm.Live() == (old(gm.Live()) - {p})[p + lead := old(gm.Live())[p] - lead]
      ensures BytesKept(old(gm.Live()), gm.Live(), old(data), data)
    {
      hide BytesKept, Tiled, Placed, LiveMap, SB.ValidBins, TB.ValidBins, AllWords, Memory.Backed, Untouched, Clobbered;
      gm.Initialised(p);
      ghost var h := gm.H();
      HeapOrNone();
      gm.GiveLeader(p, lead);
      HasWords(gm.H());
      Disturb(h);
      DisturbKept(h, old(data));
    }

    /** `dlmemalign` */
    method Memalign(alignment: nat, bytes: nat) returns (mem: int)
      requires Valid() && bytes < W && PowerOfTwo(alignment) && alignment < W
      modifies this, gm, gm.bins.small, gm.bins.large, memory
      ensures Valid()
      ensures mem == 0 ==> gm.Live() == old(gm.Live())
      ensures mem != 0 ==> alignment > 0 && Aligned(old(gm.Live()), gm.Live(), mem - 8, bytes, alignment)
      ensures BytesKept(old(gm.Live()), gm.Live(), old(data), data)
      ensures mem == 0 ==> old(NoneAtHand(Demand(bytes, alignment))) && Denied(Demand(bytes, alignment), old(memory.Break()), old(memory.denials))
      ensures memory.Since(old(memory.Break()), old(memory.denials))
    {
      hide BytesKept, Tiled, Placed, LiveMap, SB.ValidBins, TB.ValidBins, AllWords, RequestSize, PowerOfTwo, Memory.Backed, ServedFrom;
      PowerFacts(alignment);
      if alignment <= 8 {
        mem := Malloc(bytes);
        if mem != 0 { SmallPowers(mem, alignment); }
      } else {
        ghost var a;
        mem, a := InternalMemalign(alignment, bytes);
      }
    }

    // ---------- the runtime's exports ----------

    /** `__rstd_alloc` */
    method RstdAlloc(size: nat, align: nat) returns (mem: int)
      requires Valid() && size < W && align < W
      modifies this, gm, gm.bins.small, gm.bins.large, memory
      ensures Valid()
      ensures mem == 0 ==> gm.Live() == old(gm.Live())
      ensures mem != 0 ==> PowerOfTwo(align) && align > 0 && Aligned(old(gm.Live()), gm.Live(), mem - 8, AtLeastOne(size), align)
      ensures BytesKept(old(gm.Live()), gm.Live(), old(data), data)
      ensures mem == 0 && align > 0 && PowerOfTwo(align) ==> old(NoneAtHand(Demand(AtLeastOne(size), align))) && Denied(Demand(AtLeastOne(size), align), old(memory.Break()), old(memory.denials))
      ensures memory.Since(old(memory.Break()), old(memory.denials))
    {
      hide BytesKept;
      mem := 0;
      BytesRefl(gm.Live(), gm.Live(), data);
      if align > 0 {
        PowerTest(align);
        if And(align, align - 1) == 0 {
          mem := Memalign(align, AtLeastOne(size));
        }
      }
    }

    /** `__rstd_alloc_zeroed` */
    method RstdAllocZeroed(size: nat, align: nat) returns (mem: int)
      requires Valid() && size < W && align < W
      modifies this, gm, gm.bins.small, gm.bins.large, memory
      ensures Valid()
      ensures mem == 0 ==> gm.Live() == old(gm.Live())
      ensures mem != 0 ==> PowerOfTwo(align) && align > 0 && Aligned(old(gm.Live()), gm.Live(), mem - 8, AtLeastOne(size), align)
      ensures mem != 0 ==> Zeroed(data, mem, AtLeastOne(size))
      ensures BytesKept(old(gm.Live()), gm.Live(), old(data), data)
      ensures mem == 0 && align > 0 && PowerOfTwo(align) ==> old(NoneAtHand(Demand(AtLeastOne(size), align))) && Denied(Demand(AtLeastOne(size), align), old(memory.Break()), old(memory.denials))
      ensures memory.Since(old(memory.Break()), old(memory.denials))
    {
      hide BytesKept, Valid, MallocState.Ready, LiveMap, RequestSize, PowerOfTwo, Zeroed;
      mem := 0;
      BytesRefl(gm.Live(), gm.Live(), data);
      if align > 0 {
        PowerTest(align);
        if And(align, align - 1) == 0 {
          PowerFacts(align);
          var bytes := AtLeastOne(size);
          if align <= 8 {
            mem := Calloc(1, bytes);
            if mem != 0 { SmallPowers(mem, align); }
          } else {
            mem := Memalign(align, bytes);
            if mem != 0 {
              RequestHolds(bytes);
              ghost var m, d := gm.Live(), data;
              Clear(mem, bytes);
              BytesAdded(old(gm.Live()), m, mem - 8, old(data), d, data);
            }
          }
        }
      }
    }

    /**
     * `__rstd_realloc`; `copied` is the length of the memcpy, if the block moved. For a block handed
     * out with the given alignment it keeps that alignment, moved or not.
     */
    method RstdRealloc(mem: int, oldSize: nat, align: nat, newSize: nat) returns (r: int, copied: nat)
      requires Valid() && newSize < W && align < W && (mem == 0 || Holds(mem))
      requires mem != 0 && align > 0 ==> mem % align == 0 && oldSize + 4 <= gm.Live()[mem - 8]
      modifies this, gm, gm.bins.small, gm.bins.large, memory
      ensures Valid()
      ensures r == 0 ==> gm.Live() == old(gm.Live())
      ensures r != 0 ==> PowerOfTwo(align) && align > 0 && r % align == 0
      ensures r != 0 && mem == 0 ==> Aligned(old(gm.Live()), gm.Live(), r - 8, AtLeastOne(newSize), align)
      ensures r != 0 && mem != 0 ==> Rehoused(old(gm.Live()), gm.Live(), mem - 8, r - 8, AtLeastOne(newSize))
      ensures r != 0 && mem != 0 && r != mem ==>
                && copied <= AtLeastOne(newSize) && copied + 4 <= old(gm.Live())[mem - 8]
                && (oldSize <= copied || copied == AtLeastOne(newSize))
      ensures BytesKept(old(gm.Live()), gm.Live(), old(data), data)
      ensures r != 0 && mem != 0 ==>
                Carried(old(data), data, mem, r, if oldSize < AtLeastOne(newSize) then oldSize else AtLeastOne(newSize))
      ensures r == 0 && align > 0 && PowerOfTwo(align) ==> !old(CanGrow(mem, AtLeastOne(newSize)))
      ensures r == 0 && align > 0 && PowerOfTwo(align) ==> old(NoneAtHand(Demand(AtLeastOne(newSize), align))) && Denied(Demand(AtLeastOne(newSize), align), old(memory.Break()), old(memory.denials))
      ensures memory.Since(old(memory.Break()), old(memory.denials))
      ensures old(CanGrow(mem, AtLeastOne(newSize))) && align > 0 && PowerOfTwo(align) ==> r == mem
    {
      hide BytesKept, Carried, Valid, MallocState.Ready, LiveMap, RequestSize, PowerOfTwo;
      r, copied := 0, 0;
      BytesRefl(gm.Live(), gm.Live(), data);
      if align > 0 {
        PowerTest(align);
        if And(align, align - 1) == 0 {
          PowerFacts(align);
          var bytes := AtLeastOne(newSize);
          ghost var n := if oldSize < bytes then oldSize else bytes;
          if mem == 0 {
            r := RstdAlloc(bytes, align);
          } else if align <= 8 {
            r, copied := Realloc(mem, bytes);
            if r != 0 {
              SmallPowers(r, align);
              CarriedLess(old(data), data, mem, r, Lesser(Usable(old(gm.Live()), mem - 8), bytes), n);
            }
          } else {
            r, copied := ReallocAligned(mem, oldSize, align, bytes);
          }
        }
      }
    }

    /** `__rstd_realloc` for alignments that moving with `dlrealloc` would not keep. */
    method ReallocAligned(mem: int, oldSize: nat, align: nat, bytes: nat) returns (r: int, copied: nat)
      requires Valid() && 0 < bytes < W && PowerOfTwo(align) && 8 < align < W && Holds(mem)
      requires mem % align == 0 && oldSize + 4 <= gm.Live()[mem - 8]
      modifies this, gm, gm.bins.small, gm.bins.large, memory
      ensures Valid()
      ensures r == 0 ==> gm.Live() == old(gm.Live())
      ensures r != 0 ==> r % align == 0 && Rehoused(old(gm.Live()), gm.Live(), mem - 8, r - 8, bytes)
      ensures r != 0 && r != mem ==> copied == if oldSize < bytes then oldSize else bytes
      ensures BytesKept(old(gm.Live()), gm.Live(), old(data), data)
      ensures r != 0 ==> Carried(old(data), data, mem, r, if oldSize < bytes then oldSize else bytes)
      ensures r == 0 ==> !old(CanGrow(mem, bytes))
      ensures r == 0 ==> old(NoneAtHand(Demand(bytes, align))) && Denied(Demand(bytes, align), old(memory.Break()), old(memory.denials))
      ensures memory.Since(old(memory.Break()), old(memory.denials))
      ensures old(CanGrow(mem, bytes)) ==> r == mem
    {
      hide BytesKept, Carried, Valid, MallocState.Ready, LiveMap, RequestSize, PowerOfTwo;
      copied := 0;
      ghost var n := if oldSize < bytes then oldSize else bytes;
      var size := ChunkSize(mem);
      r := ReallocInPlace(mem, bytes);
      if r != 0 {
        RequestFits(bytes);
        StaysHoused(old(gm.Live()), gm.Live(), mem - 8, bytes);
        StaysCarried(old(gm.Live()), gm.Live(), old(data), data, mem - 8, bytes);
        CarriedLess(old(data), data, mem, r, Lesser(Usable(old(gm.Live()), mem - 8), bytes), n);
      } else {
        ghost var d1 := data;
        r, copied := MoveAligned(mem, oldSize, align, bytes);
        BytesTrans(old(gm.Live()), old(gm.Live()), gm.Live(), old(data), d1, data);
        if r != 0 { CarriedAfter(old(gm.Live()), old(data), d1, data, mem, r, n); }
      }
    }

    method MoveAligned(mem: int, oldSize: nat, align: nat, bytes: nat) returns (r: int, copied: nat)
      requires Valid() && bytes < W && PowerOfTwo(align) && align < W && Holds(mem) && oldSize + 4 <= gm.Live()[mem - 8]
      modifies this, gm, gm.bins.small, gm.bins.large, memory
      ensures Valid()
      ensures r == 0 ==> gm.Live() == old(gm.Live())
      ensures r != 0 ==> align > 0 && r % align == 0 && Rehoused(old(gm.Live()), gm.Live(), mem - 8, r - 8, bytes)
      ensures BytesKept(old(gm.Live()), gm.Live(), old(data), data)
      ensures r != 0 ==> copied == Lesser(oldSize, bytes) && Carried(old(data), data, mem, r, copied)
      ensures r == 0 ==> old(NoneAtHand(Demand(bytes, align))) && Denied(Demand(bytes, align), old(memory.Break()), old(memory.denials))
      ensures memory.Since(old(memory.Break()), old(memory.denials))
    {
      hide BytesKept, Carried, Valid, MallocState.Ready, LiveMap, RequestSize, PowerOfTwo, ServedFrom;
      copied := 0;
      r := Memalign(align, bytes);
      if r != 0 {
        RequestHolds(bytes);
        ghost var m, d := gm.Live(), data;
        copied := if oldSize < bytes then oldSize else bytes;
        Relocate(mem, r, copied);
        BytesMoved(old(gm.Live()), m, gm.Live(), mem - 8, r - 8, copied, old(data), d, data);
      }
    }
  }
}
