// Clients of the runtime's exports: every run of allocations, reallocations, releases and writes.

module Sessions {
  import opened Powers
  import opened Replays
  import opened BinMaps
  import opened HeapTiling
  import opened HeapPlacement
  import opened HeapFrame
  import opened WasmMemory
  import opened Malloc
  import opened Alignment
  import opened Allocator
  import SB = SmallBins
  import TB = TreeBins

  /** Live blocks are exactly those held by the client, each as large and aligned as asked for. */
  ghost predicate Tracks(live: map<int, nat>, held: map<int, Grant>) {
    && (forall m :: m in held ==> GrantOk(live, m, held[m]))
    && (forall p :: p in live ==> p + 8 in held)
  }

  ghost predicate GrantOk(live: map<int, nat>, m: int, g: Grant) {
    m - 8 in live && g.size + 4 <= live[m - 8] && 0 < g.align < W && PowerOfTwo(g.align) && m % g.align == 0 && g.size < W
  }

  /** Byte i of the block at m reads as it was last written. */
  predicate ByteOk(d: int -> nat, m: int, g: Grant, i: nat)
    requires i in g.bytes
  {
    i < g.size && d(m + i) == g.bytes[i]
  }

  /** Everything written to blocks held reads back. */
  ghost predicate ReadsBack(held: map<int, Grant>, d: int -> nat) {
    forall m, i: nat :: m in held && i in held[m].bytes ==> ByteOk(d, m, held[m], i)
  }

  /** No two blocks held overlap. */
  ghost predicate Separate(held: map<int, Grant>) {
    forall m, n :: m in held && n in held && m < n ==> m + held[m].size <= n
  }

  // ---------- which blocks are held ----------

  lemma {:induction false} HeldGrant(live: map<int, nat>, held: map<int, Grant>, m: int)
    requires Tracks(live, held) && m in held
    ensures var g := held[m]; m - 8 in live && g.size + 4 <= live[m - 8] && 0 < g.align < W && m % g.align == 0 && g.size < W
    ensures PowerOfTwo(held[m].align)
  {
  }

  lemma {:induction false} TracksAlloc(before: map<int, nat>, after: map<int, nat>, held: map<int, Grant>, mem: int, g: Grant)
    requires Tracks(before, held) && g.align > 0 && Aligned(before, after, mem - 8, AtLeastOne(g.size), g.align)
    requires g.size < W && g.align < W && PowerOfTwo(g.align)
    ensures mem !in held && Tracks(after, held[mem := g])
  {
    assert g.size + 4 <= RequestSize(AtLeastOne(g.size));
    assert GrantOk(after, mem, g);
    assert forall m :: m in held ==> GrantOk(before, m, held[m]);
  }

  lemma {:induction false} TracksRelease(live: map<int, nat>, held: map<int, Grant>, mem: int)
    requires Tracks(live, held) && mem in held
    ensures Tracks(live - {mem - 8}, held - {mem})
  {
  }

  lemma {:induction false} TracksResize(before: map<int, nat>, after: map<int, nat>, held: map<int, Grant>, mem: int, r: int, g: Grant)
    requires Tracks(before, held) && mem in held && Rehoused(before, after, mem - 8, r - 8, AtLeastOne(g.size))
    requires 0 < g.align < W && PowerOfTwo(g.align) && r % g.align == 0 && g.size < W
    ensures (r == mem || r !in held) && Tracks(after, (held - {mem})[r := g])
  {
    assert g.size + 4 <= RequestSize(AtLeastOne(g.size));
    assert GrantOk(after, r, g);
    assert forall m :: m in held ==> GrantOk(before, m, held[m]);
  }

  lemma {:induction false} TracksSame(live: map<int, nat>, held: map<int, Grant>, mem: int, g: Grant)
    requires Tracks(live, held) && mem in held && g.size == held[mem].size && g.align == held[mem].align
    ensures Tracks(live, held[mem := g])
  {
  }

  // ---------- what they hold ----------

  /** Blocks that stay keep their bytes. */
  lemma {:induction false} ReadsKept(before: map<int, nat>, after: map<int, nat>, held: map<int, Grant>, held': map<int, Grant>,
                                     d: int -> nat, d': int -> nat)
    requires Tracks(before, held) && Tracks(after, held') && ReadsBack(held, d) && BytesKept(before, after, d, d')
    requires forall m :: m in held' ==> m in held && held'[m] == held[m]
    ensures ReadsBack(held', d')
  {
    forall m, i: nat | m in held' && i in held'[m].bytes
      ensures ByteOk(d', m, held'[m], i)
    {
      assert GrantOk(before, m, held[m]) && GrantOk(after, m, held'[m]) && ByteOk(d, m, held[m], i);
      assert Common(before, after, m - 8, m + i);
    }
  }

  lemma {:induction false} ReadsAlloc(before: map<int, nat>, after: map<int, nat>, held: map<int, Grant>,
                                      d: int -> nat, d': int -> nat, mem: int, g: Grant)
    requires Tracks(before, held) && mem !in held && Tracks(after, held[mem := g])
    requires g.bytes == map[] || (g.bytes == Zeros(g.size) && Zeroed(d', mem, AtLeastOne(g.size)))
    requires ReadsBack(held, d) && BytesKept(before, after, d, d')
    ensures ReadsBack(held[mem := g], d')
  {
    var held' := held[mem := g];
    forall m, i: nat | m in held' && i in held'[m].bytes
      ensures ByteOk(d', m, held'[m], i)
    {
      if m != mem {
        assert GrantOk(before, m, held[m]) && GrantOk(after, m, held'[m]) && ByteOk(d, m, held[m], i);
        assert Common(before, after, m - 8, m + i);
      }
    }
  }

  lemma {:induction false} ReadsResize(before: map<int, nat>, after: map<int, nat>, held: map<int, Grant>,
                                       d: int -> nat, d': int -> nat, mem: int, r: int, g: Grant)
    requires Tracks(before, held) && mem in held && (r == mem || r !in held) && Tracks(after, (held - {mem})[r := g])
    requires g.bytes == Prefix(held[mem].bytes, g.size) && ReadsBack(held, d) && BytesKept(before, after, d, d')
    requires Carried(d, d', mem, r, if held[mem].size < AtLeastOne(g.size) then held[mem].size else AtLeastOne(g.size))
    ensures ReadsBack((held - {mem})[r := g], d')
  {
    var held' := (held - {mem})[r := g];
    forall m, i: nat | m in held' && i in held'[m].bytes
      ensures ByteOk(d', m, held'[m], i)
    {
      if m == r {
        assert ByteOk(d, mem, held[mem], i);
        assert d'(r + i) == d(mem + (r + i - r));
      } else {
        assert GrantOk(before, m, held[m]) && GrantOk(after, m, held'[m]) && ByteOk(d, m, held[m], i);
        assert Common(before, after, m - 8, m + i);
      }
    }
  }

  lemma {:induction false} ReadsWrite(held: map<int, Grant>, d: int -> nat, d': int -> nat, mem: int, offset: nat, value: nat)
    requires mem in held && offset < held[mem].size && ReadsBack(held, d) && Separate(held)
    requires d'(mem + offset) == value && forall x :: x != mem + offset ==> d'(x) == d(x)
    ensures ReadsBack(held[mem := held[mem].(bytes := held[mem].bytes[offset := value])], d')
  {
    var held' := held[mem := held[mem].(bytes := held[mem].bytes[offset := value])];
    forall m, i: nat | m in held' && i in held'[m].bytes
      ensures ByteOk(d', m, held'[m], i)
    {
      if m != mem || i != offset {
        assert ByteOk(d, m, held[m], i);
      }
    }
  }

  class Session {
    const heap: Allocator
    var held: map<int, Grant>

    ghost predicate Safe()
      reads this, heap, heap.gm, heap.gm.bins, heap.gm.bins.small, heap.gm.bins.large, heap.memory
    {
      heap.Valid() && Tracks(heap.gm.Live(), held) && ReadsBack(held, heap.data)
    }

    constructor (heads: map<int, Head>, feet: map<int, nat>, heapBase: nat, pages: nat, ghost bytes: int -> nat)
      requires AllWords(heads, feet) && 0 < heapBase < W && heapBase % 8 == 0 && pages <= WASM_PAGE
      ensures Safe() && held == map[]
    {
      heap := new Allocator(heads, feet, heapBase, pages, bytes);
      held := map[];
    }

    method Alloc(size: nat, align: nat) returns (mem: int)
      requires Safe() && size < W && align < W
      modifies this, heap, heap.gm, heap.gm.bins.small, heap.gm.bins.large, heap.memory
      ensures Safe() && held == (if mem == 0 then old(held) else old(held)[mem := Grant(size, align, map[])])
      ensures mem != 0 ==> mem !in old(held)
      ensures mem == 0 && align > 0 && PowerOfTwo(align) ==> old(heap.NoneAtHand(Demand(AtLeastOne(size), align)))
      ensures mem == 0 && align > 0 && PowerOfTwo(align) ==>
                heap.Denied(Demand(AtLeastOne(size), align), old(heap.memory.Break()), old(heap.memory.denials))
      ensures heap.memory.Since(old(heap.memory.Break()), old(heap.memory.denials))
    {
      hide LiveMap, Allocator.Valid, Tracks, Aligned, ReadsBack, BytesKept;
      ghost var before, d := heap.gm.Live(), heap.data;
      mem := heap.RstdAlloc(size, align);
      if mem != 0 {
        TracksAlloc(before, heap.gm.Live(), held, mem, Grant(size, align, map[]));
        ReadsAlloc(before, heap.gm.Live(), held, d, heap.data, mem, Grant(size, align, map[]));
        held := held[mem := Grant(size, align, map[])];
      } else {
        ReadsKept(before, heap.gm.Live(), held, held, d, heap.data);
      }
    }

    method AllocZeroed(size: nat, align: nat) returns (mem: int)
      requires Safe() && size < W && align < W
      modifies this, heap, heap.gm, heap.gm.bins.small, heap.gm.bins.large, heap.memory
      ensures Safe() && held == (if mem == 0 then old(held) else old(held)[mem := Grant(size, align, Zeros(size))])
      ensures mem != 0 ==> mem !in old(held)
      ensures mem == 0 && align > 0 && PowerOfTwo(align) ==> old(heap.NoneAtHand(Demand(AtLeastOne(size), align)))
      ensures mem == 0 && align > 0 && PowerOfTwo(align) ==>
                heap.Denied(Demand(AtLeastOne(size), align), old(heap.memory.Break()), old(heap.memory.denials))
      ensures heap.memory.Since(old(heap.memory.Break()), old(heap.memory.denials))
    {
      hide LiveMap, Allocator.Valid, Tracks, Aligned, ReadsBack, BytesKept, Zeroed;
      ghost var before, d := heap.gm.Live(), heap.data;
      mem := heap.RstdAllocZeroed(size, align);
      if mem != 0 {
        TracksAlloc(before, heap.gm.Live(), held, mem, Grant(size, align, Zeros(size)));
        ReadsAlloc(before, heap.gm.Live(), held, d, heap.data, mem, Grant(size, align, Zeros(size)));
        held := held[mem := Grant(size, align, Zeros(size))];
      } else {
        ReadsKept(before, heap.gm.Live(), held, held, d, heap.data);
      }
    }

    method Release(mem: int)
      requires Safe() && mem in held
      modifies this, heap, heap.gm, heap.gm.bins.small, heap.gm.bins.large
      ensures Safe() && held == old(held) - {mem}
    {
      hide LiveMap, Allocator.Valid, Tracks, ReadsBack, BytesKept;
      HeldNonzero(mem);
      ghost var before, d := heap.gm.Live(), heap.data;
      heap.Free(mem);
      TracksRelease(before, held, mem);
      ReadsKept(before, heap.gm.Live(), held, held - {mem}, d, heap.data);
      held := held - {mem};
    }

    method Resize(mem: int, size: nat) returns (r: int)
      requires Safe() && mem in held && size < W
      modifies this, heap, heap.gm, heap.gm.bins.small, heap.gm.bins.large, heap.memory
      ensures Safe()
      ensures held == if r == 0 then old(held)
                      else (old(held) - {mem})[r := Grant(size, old(held)[mem].align, Prefix(old(held)[mem].bytes, size))]
      ensures r != 0 ==> r == mem || r !in old(held)
      ensures r == 0 ==> old(!heap.CanGrow(mem, AtLeastOne(size)) && heap.NoneAtHand(Demand(AtLeastOne(size), held[mem].align)))
      ensures r == 0 ==>
                heap.Denied(Demand(AtLeastOne(size), old(held)[mem].align), old(heap.memory.Break()), old(heap.memory.denials))
      ensures heap.memory.Since(old(heap.memory.Break()), old(heap.memory.denials))
    {
      hide LiveMap, Allocator.Valid, Tracks, Rehoused, GrantOk, ReadsBack, BytesKept, Carried;
      HeldNonzero(mem);
      ghost var before, d := heap.gm.Live(), heap.data;
      HeldGrant(before, held, mem);
      var g := held[mem];
      var copied;
      r, copied := heap.RstdRealloc(mem, g.size, g.align, size);
      if r != 0 {
        var g' := Grant(size, g.align, Prefix(g.bytes, size));
        TracksResize(before, heap.gm.Live(), held, mem, r, g');
        ReadsResize(before, heap.gm.Live(), held, d, heap.data, mem, r, g');
        held := (held - {mem})[r := g'];
      } else {
        ReadsKept(before, heap.gm.Live(), held, held, d, heap.data);
      }
    }

    /** The client writes a byte of a block it holds. */
    method Write(mem: int, offset: nat, value: nat)
      requires Safe() && mem in held && offset < held[mem].size
      modifies this, heap, heap.gm
      ensures Safe() && held == old(held)[mem := old(held)[mem].(bytes := old(held)[mem].bytes[offset := value])]
    {
      hide LiveMap, Allocator.Valid, Tracks, ReadsBack;
      HeldNonzero(mem);
      SafeSeparate();
      ghost var d := heap.data;
      HeldGrant(heap.gm.Live(), held, mem);
      heap.Store(mem, offset, value);
      var g := held[mem].(bytes := held[mem].bytes[offset := value]);
      TracksSame(heap.gm.Live(), held, mem, g);
      ReadsWrite(held, d, heap.data, mem, offset, value);
      held := held[mem := g];
    }

    lemma {:induction false} HeldNonzero(mem: int)
      requires Safe() && mem in held
      ensures mem != 0 && heap.Holds(mem)
    {
      hide SB.ValidBins, TB.ValidBins, ReadsBack;
      heap.gm.Initialised(mem - 8);
      LiveFacts(heap.gm.H(), mem - 8);
    }

    /** One request; those on pointers not held, or that are no words, are dropped. */
    method Handle(request: Request) returns (answer: int)
      requires Safe()
      modifies this, heap, heap.gm, heap.gm.bins.small, heap.gm.bins.large, heap.memory
      ensures Safe() && held == Step(old(held), request, answer) && AnswerOk(old(held), request, answer)
      ensures heap.memory.Since(old(heap.memory.Break()), old(heap.memory.denials))
      ensures Proper(old(held), request) && answer == 0 ==>
                heap.Denied(DemandOf(old(held), request), old(heap.memory.Break()), old(heap.memory.denials))
    {
      hide Allocator.Valid, Tracks, ReadsBack, Zeros, Prefix, OutOfReach, Demand, PowerOfTwo;
      answer := 0;
      match request {
        case Alloc(size, align) =>
          if size < W && align < W {
            answer := Alloc(size, align);
          }
        case AllocZeroed(size, align) =>
          if size < W && align < W {
            answer := AllocZeroed(size, align);
          }
        case Release(mem) =>
          if mem in held {
            Release(mem);
          }
        case Resize(mem, size) =>
          if mem in held && size < W {
            answer := Resize(mem, size);
          }
        case Write(mem, offset, value) =>
          if mem in held && offset < held[mem].size {
            Write(mem, offset, value);
          }
      }
    }

    /**
     * Any run of requests. What is held at the end is what the requests and the addresses returned make it,
     * all of it is safe, and unless the host turned down a request for pages only those requests were refused
     * that the system could not have met.
     */
    method Run(requests: seq<Request>) returns (answers: seq<int>)
      requires Safe()
      modifies this, heap, heap.gm, heap.gm.bins.small, heap.gm.bins.large, heap.memory
      ensures Safe() && |answers| == |requests| && held == Replay(old(held), requests, answers)
      ensures Answered(old(held), requests, answers) && Separate(held)
      ensures forall m :: m in held ==> heap.memory.heapBase < m && m + held[m].size <= heap.memory.pages * WASM_PAGE
      ensures heap.memory.denials == old(heap.memory.denials) ==>
                FairlyRefused(old(held), requests, answers, heap.memory.Break())
    {
      hide Allocator.Valid, Tracks, ReadsBack, Step, AnswerOk, Proper, OutOfReach, Answered, FairlyRefused, Replay;
      answers := [];
      NoRequests(held, heap.memory.Break());
      for i := 0 to |requests|
        invariant Safe() && |answers| == i && held == Replay(old(held), requests[..i], answers)
        invariant Answered(old(held), requests[..i], answers)
        invariant heap.memory.denials >= old(heap.memory.denials)
        invariant heap.memory.denials == old(heap.memory.denials) ==>
                    FairlyRefused(old(held), requests[..i], answers, heap.memory.Break())
      {
        ghost var brk, denied := heap.memory.Break(), heap.memory.denials;
        var answer := Handle(requests[i]);
        AnsweredFurther(old(held), requests[..i], answers, requests[i], answer);
        if heap.memory.denials == old(heap.memory.denials) {
          LaterReach(DemandOf(Replay(old(held), requests[..i], answers), requests[i]), brk, heap.memory.Break());
          RefusedFurther(old(held), requests[..i], answers, requests[i], answer, brk, heap.memory.Break());
        }
        assert requests[..i + 1] == requests[..i] + [requests[i]];
        answers := answers + [answer];
      }
      assert requests[..|requests|] == requests;
      SafeSeparate();
    }

    /** After a run, memory holds what was last written, wherever resizing has taken it. */
    lemma {:induction false} ReadsLastWritten(start: map<int, Grant>, requests: seq<Request>, answers: seq<int>, k: nat)
      requires Safe() && k < |requests| == |answers| && held == Replay(start, requests, answers) && Answered(start, requests, answers)
      requires requests[k].Write?
      requires var h := Replay(start, requests[..k], answers[..k]); requests[k].mem in h && requests[k].offset < h[requests[k].mem].size
      ensures var now := Traced(requests, answers, k + 1, requests[k].mem, requests[k].offset);
              now.Some? ==> now.value in held && heap.data(now.value + requests[k].offset) == requests[k].value
    {
      hide Allocator.Valid, Tracks, Replay, Answered, Traced;
      LastWritten(start, requests, answers, k);
      var now := Traced(requests, answers, k + 1, requests[k].mem, requests[k].offset);
      if now.Some? {
        assert ByteOk(heap.data, now.value, held[now.value], requests[k].offset);
      }
    }

    /** And zero where a block came zeroed and was not written. */
    lemma {:induction false} ReadsZeroed(start: map<int, Grant>, requests: seq<Request>, answers: seq<int>, k: nat, offset: nat)
      requires Safe() && k < |requests| == |answers| && held == Replay(start, requests, answers) && Answered(start, requests, answers)
      requires requests[k].AllocZeroed? && answers[k] != 0 && offset < requests[k].size
      ensures var now := Traced(requests, answers, k + 1, answers[k], offset);
              now.Some? ==> now.value in held && heap.data(now.value + offset) == 0
    {
      hide Allocator.Valid, Tracks, Replay, Answered, Traced;
      LastZeroed(start, requests, answers, k, offset);
      var now := Traced(requests, answers, k + 1, answers[k], offset);
      if now.Some? {
        assert ByteOk(heap.data, now.value, held[now.value], offset);
      }
    }

    lemma {:induction false} SafeSeparate()
      requires Safe()
      ensures Separate(held)
      ensures forall m :: m in held ==> heap.memory.heapBase < m && m + held[m].size <= heap.memory.pages * WASM_PAGE
    {
      hide SB.ValidBins, TB.ValidBins, Placed, ReadsBack;
      ghost var h := heap.gm.H();
      forall m, n | m in held && n in held && m < n
        ensures m + held[m].size <= n
      {
        heap.gm.Initialised(m - 8);
        PayloadsDisjoint(h, m - 8, n - 8);
      }
      forall m | m in held
        ensures heap.memory.heapBase < m && m + held[m].size <= heap.memory.pages * WASM_PAGE
      {
        heap.gm.Initialised(m - 8);
        LiveFacts(h, m - 8);
      }
    }
  }
}
