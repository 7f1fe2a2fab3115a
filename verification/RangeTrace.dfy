// The trace loop over the first-fit model (benches/range.cpp:115-134), refining first fit on bare addresses:
// no list of free spans, only the live ones.

module RangeTrace {
  import opened Options
  import opened FirstFit

  datatype TraceEvent = TraceEvent(slot: nat, size: nat, alignment: nat)

  const SLOTS: nat := 128

  // ---------- first fit without a free list ----------

  /** Addresses no live span holds. */
  ghost function Vacant(live: map<nat, Span>, capacity: nat): set<int> {
    set a: int | 0 <= a < capacity && !Used(live, a)
  }

  /** An aligned place where nothing is live. */
  ghost predicate Open(live: map<nat, Span>, capacity: nat, e: TraceEvent, o: nat) {
    && ValidLayout(e.size, e.alignment) && o % e.alignment == 0
    && forall a: int :: o <= a < o + e.size ==> a in Vacant(live, capacity)
  }

  ghost predicate Lowest(live: map<nat, Span>, capacity: nat, e: TraceEvent, o: nat) {
    Open(live, capacity, e, o) && forall p: nat :: Open(live, capacity, e, p) ==> o <= p
  }

  /** A stretch of vacant addresses begins at a. */
  ghost predicate Begins(live: map<nat, Span>, capacity: nat, a: int) {
    a in Vacant(live, capacity) && a - 1 !in Vacant(live, capacity)
  }

  ghost function Beginnings(live: map<nat, Span>, capacity: nat, last: nat): set<int> {
    set a: int | 0 <= a < capacity && a <= last && Begins(live, capacity, a)
  }

  /** What is live, requests refused so far, and stretches looked at so far. */
  datatype Ledger = Ledger(live: map<nat, Span>, failures: nat, searches: nat)

  ghost function Turn(l: Ledger, e: TraceEvent, capacity: nat): Ledger {
    var rest := l.live - {e.slot};
    if o: nat :| Lowest(rest, capacity, e, o) then
      Ledger(rest[e.slot := Span(o, e.size)], l.failures, l.searches + |Beginnings(rest, capacity, o)|)
    else
      Ledger(rest, l.failures + 1, l.searches + |Beginnings(rest, capacity, capacity)|)
  }

  ghost function After(events: seq<TraceEvent>, capacity: nat): Ledger {
    if events == [] then Ledger(map[], 0, 0)
    else Turn(After(events[..|events| - 1], capacity), events[|events| - 1], capacity)
  }

  /** n vacant addresses in a row from o. */
  ghost predicate Stretch(live: map<nat, Span>, capacity: nat, o: nat, n: nat) {
    forall a: int :: o <= a < o + n ==> a in Vacant(live, capacity)
  }

  /** The longest stretch there is has n addresses. */
  ghost predicate Longest(live: map<nat, Span>, capacity: nat, n: nat) {
    (exists o: nat :: Stretch(live, capacity, o, n)) && forall o: nat, m: nat :: Stretch(live, capacity, o, m) ==> m <= n
  }

  // ---------- what the free list knows of the vacant addresses ----------

  lemma {:induction false} VacantIs(s: seq<Span>, live: map<nat, Span>, capacity: nat)
    requires Partition(s, live, capacity)
    ensures forall a: int :: a in Vacant(live, capacity) <==> Has(s, a)
  {
    hide Has, Used;
  }

  lemma {:induction false} OpenIs(s: seq<Span>, live: map<nat, Span>, capacity: nat, e: TraceEvent)
    requires Partition(s, live, capacity) && ValidLayout(e.size, e.alignment)
    ensures forall o: nat :: Open(live, capacity, e, o) <==> CanPlace(s, e.size, e.alignment, o)
  {
    VacantIs(s, live, capacity);
    hide Has, Partition, Vacant;
  }

  lemma {:induction false} BeginsIs(s: seq<Span>, live: map<nat, Span>, capacity: nat, a: int)
    requires Partition(s, live, capacity) && Ordered(s) && Coalesced(s)
    ensures Begins(live, capacity, a) <==> exists i :: 0 <= i < |s| && s[i].offset == a
  {
    VacantIs(s, live, capacity);
    hide Partition, Vacant;
    if i :| 0 <= i < |s| && s[i].offset == a {
      Gaps(s, i);
      assert Inside(s[i], a) && Has(s, a);
    }
    if Begins(live, capacity, a) {
      var i :| 0 <= i < |s| && Inside(s[i], a);
      assert !Inside(s[i], a - 1);
    }
  }

  /** Offsets of spans up to an address. */
  ghost function Offsets(s: seq<Span>, last: nat): set<int> {
    set i | 0 <= i < |s| && s[i].offset <= last :: s[i].offset
  }

  lemma {:induction false} OffsetsCount(s: seq<Span>, last: nat)
    requires Ordered(s)
    ensures |Offsets(s, last)| == Upto(s, last)
    decreases |s|
  {
    if s != [] {
      var t, x := s[..|s| - 1], s[|s| - 1];
      OffsetsCount(t, last);
      assert x.offset !in Offsets(t, last);
      OffsetsPush(t, x, last);
      assert s == t + [x];
    }
  }

  lemma {:induction false} OffsetsPush(t: seq<Span>, x: Span, last: nat)
    ensures Offsets(t + [x], last) == if x.offset <= last then Offsets(t, last) + {x.offset} else Offsets(t, last)
  {
    var s := t + [x];
    forall a: int
      ensures a in Offsets(s, last) <==> a in Offsets(t, last) || (a == x.offset && a <= last)
    {
      if a in Offsets(t, last) {
        var i :| 0 <= i < |t| && t[i].offset <= last && t[i].offset == a;
        assert s[i] == t[i];
      }
      if a == x.offset && a <= last { assert s[|t|] == x; }
    }
  }

  /** The spans up to an address are as many as the stretches that begin there. */
  lemma {:induction false} BeginningsCount(s: seq<Span>, live: map<nat, Span>, capacity: nat, last: nat)
    requires Partition(s, live, capacity) && Ordered(s) && Coalesced(s)
    ensures |Beginnings(live, capacity, last)| == Upto(s, last)
  {
    forall a: int
      ensures a in Beginnings(live, capacity, last) <==> a in Offsets(s, last)
    {
      hide Ordered, Coalesced, Partition, Begins;
      BeginsIs(s, live, capacity, a);
      BeginsVacant(live, capacity, a);
    }
    assert Beginnings(live, capacity, last) == Offsets(s, last);
    OffsetsCount(s, last);
  }

  lemma {:induction false} BeginsVacant(live: map<nat, Span>, capacity: nat, a: int)
    ensures Begins(live, capacity, a) ==> 0 <= a < capacity
  {
  }

  function Total(s: seq<Span>): nat {
    if s == [] then 0 else Total(s[..|s| - 1]) + s[|s| - 1].size
  }

  ghost function Cells(s: seq<Span>): set<int> {
    if s == [] then {} else Cells(s[..|s| - 1]) + CellsOf(s[|s| - 1])
  }

  ghost function CellsOf(x: Span): set<int> {
    set a: int | x.offset <= a < End(x) && Inside(x, a)
  }

  lemma {:induction false} CellsOfGrow(y: Span)
    ensures End(y) !in CellsOf(y) && CellsOf(Span(y.offset, y.size + 1)) == CellsOf(y) + {End(y)}
  {
    var x := Span(y.offset, y.size + 1);
    forall a: int
      ensures a in CellsOf(x) <==> a in CellsOf(y) + {End(y)}
    {
      assert Inside(x, a) <==> Inside(y, a) || a == End(y);
    }
  }

  lemma {:induction false} CellsOfCount(x: Span)
    ensures |CellsOf(x)| == x.size
    decreases x.size
  {
    if x.size == 0 {
      assert CellsOf(x) == {};
    } else {
      var y := Span(x.offset, x.size - 1);
      CellsOfCount(y);
      CellsOfGrow(y);
      hide CellsOf;
      assert |CellsOf(y) + {End(y)}| == |CellsOf(y)| + 1;
    }
  }

  lemma {:induction false} CellsIs(s: seq<Span>, a: int)
    ensures a in Cells(s) <==> Has(s, a)
    decreases |s|
  {
    if s != [] {
      var n := |s| - 1;
      CellsIs(s[..n], a);
      HasRemove(s, n, a);
      assert Remove(s, n) == s[..n];
    }
  }

  lemma {:induction false} CellsCount(s: seq<Span>)
    requires Ordered(s)
    ensures |Cells(s)| == Total(s)
    decreases |s|
  {
    if s != [] {
      var n := |s| - 1;
      CellsCount(s[..n]);
      CellsOfCount(s[n]);
      forall a: int
        ensures !(a in Cells(s[..n]) && a in CellsOf(s[n]))
      {
        CellsIs(s[..n], a);
        OrderedRemove(s, n);
        assert Remove(s, n) == s[..n];
      }
      assert Cells(s[..n]) !! CellsOf(s[n]);
    }
  }

  /** The sizes in the free list add up to the vacant addresses. */
  lemma {:induction false} TotalIsVacant(s: seq<Span>, live: map<nat, Span>, capacity: nat)
    requires Partition(s, live, capacity) && Ordered(s)
    ensures Total(s) == |Vacant(live, capacity)|
  {
    VacantIs(s, live, capacity);
    CellsCount(s);
    hide Partition, Ordered, Has, Vacant, Cells;
    forall a: int
      ensures a in Cells(s) <==> a in Vacant(live, capacity)
    {
      CellsIs(s, a);
    }
    assert Cells(s) == Vacant(live, capacity);
  }

  /** The largest free span is the longest stretch. */
  lemma {:induction false} LargestIsLongest(s: seq<Span>, live: map<nat, Span>, capacity: nat, n: nat)
    requires Partition(s, live, capacity) && Ordered(s) && Coalesced(s)
    requires forall i :: 0 <= i < |s| ==> s[i].size <= n
    requires n == 0 || exists i :: 0 <= i < |s| && s[i].size == n
    ensures Longest(live, capacity, n)
  {
    VacantIs(s, live, capacity);
    hide Partition, Vacant;
    if n == 0 {
      assert Stretch(live, capacity, 0, n);
    } else {
      var i :| 0 <= i < |s| && s[i].size == n;
      assert forall a: int :: s[i].offset <= a < s[i].offset + n ==> Inside(s[i], a);
      assert Stretch(live, capacity, s[i].offset, n);
    }
    forall o: nat, m: nat | Stretch(live, capacity, o, m)
      ensures m <= n
    {
      if m > 0 {
        assert forall a: int :: Inside(Span(o, m), a) ==> Has(s, a);
        IntervalInOne(s, Span(o, m));
      }
    }
  }

  // ---------- the trace ----------

  lemma {:induction false} TurnPlaced(l: Ledger, e: TraceEvent, capacity: nat, o: nat)
    requires Lowest(l.live - {e.slot}, capacity, e, o)
    ensures var rest := l.live - {e.slot};
            Turn(l, e, capacity) == Ledger(rest[e.slot := Span(o, e.size)], l.failures, l.searches + |Beginnings(rest, capacity, o)|)
  {
    hide Open, Beginnings;
    assert forall p: nat :: Lowest(l.live - {e.slot}, capacity, e, p) ==> p == o;
  }

  /** One request: what `Allocate` does is the turn of the ledger. */
  lemma {:induction false} TurnIs(s: seq<Span>, l: Ledger, e: TraceEvent, capacity: nat, r: Option<Span>)
    requires Partition(s, l.live - {e.slot}, capacity) && Ordered(s) && Coalesced(s)
    requires r.None? <==> !ValidLayout(e.size, e.alignment) || forall o: nat :: !CanPlace(s, e.size, e.alignment, o)
    requires r.Some? ==> r.value.size == e.size && CanPlace(s, e.size, e.alignment, r.value.offset)
    requires r.Some? ==> forall o: nat :: CanPlace(s, e.size, e.alignment, o) ==> r.value.offset <= o
    ensures Turn(l, e, capacity).searches == l.searches + Tried(s, r)
    ensures Turn(l, e, capacity).live == if r.Some? then (l.live - {e.slot})[e.slot := r.value] else l.live - {e.slot}
    ensures Turn(l, e, capacity).failures == l.failures + if r.Some? then 0 else 1
  {
    hide Partition, Ordered, Coalesced, CanPlace, Beginnings;
    var rest := l.live - {e.slot};
    if ValidLayout(e.size, e.alignment) { OpenIs(s, rest, capacity, e); }
    match r
    case Some(x) =>
      TurnPlaced(l, e, capacity, x.offset);
      BeginningsCount(s, rest, capacity, x.offset);
      assert x == Span(x.offset, e.size);
    case None =>
      assert forall o: nat :: !Lowest(rest, capacity, e, o);
      BeginningsCount(s, rest, capacity, capacity);
      AllUpto(s, rest, capacity);
  }

  lemma {:induction false} AllUpto(s: seq<Span>, live: map<nat, Span>, capacity: nat)
    requires Partition(s, live, capacity) && Ordered(s)
    ensures Upto(s, capacity) == |s|
  {
    forall j | 0 <= j < |s|
      ensures s[j].offset <= capacity
    {
      assert Inside(s[j], s[j].offset) && Has(s, s[j].offset);
    }
    UptoPrefix(s, |s|, capacity);
  }

  /** The array of spans suffices, and the list is a word list, as long as only SLOTS spans are live. */
  lemma {:induction false} Room(s: seq<Span>, live: map<nat, Span>, capacity: nat)
    requires Ordered(s) && Coalesced(s) && Partition(s, live, capacity) && capacity <= RANGE_MAX
    requires forall k :: k in live ==> k < SLOTS
    ensures |s| <= SLOTS + 1 < SPANS && Words(s)
  {
    FreeCount(s, live, capacity);
    AtMost(live.Keys, SLOTS);
    assert |live.Keys| == |live|;
    PartitionWords(s, live, capacity);
  }

  /** `free` and `largest`, over the list as it stands. */
  method Measure(ranges: TraceFirstFit) returns (free: nat, largest: nat)
    requires ranges.Valid()
    ensures free == Total(ranges.List())
    ensures forall i :: 0 <= i < ranges.count ==> ranges.free[i].size <= largest
    ensures largest == 0 || exists i :: 0 <= i < ranges.count && ranges.free[i].size == largest
  {
    free, largest := 0, 0;
    ghost var s := ranges.List();
    for i := 0 to ranges.count
      invariant free == Total(s[..i]) && forall j :: 0 <= j < i ==> ranges.free[j].size <= largest
      invariant largest == 0 || exists j :: 0 <= j < i && ranges.free[j].size == largest
    {
      assert s[..i + 1][..i] == s[..i];
      free := free + ranges.free[i].size;
      if ranges.free[i].size > largest {
        largest := ranges.free[i].size;
      }
    }
    assert s[..ranges.count] == s;
  }

  /**
    * The first-fit branch of `RangeTraceSession::operation`: over every trace its own check never fails, and
    * its figures are those of first fit on bare addresses.
    */
  method Operation(capacity: nat, events: seq<TraceEvent>)
    returns (failures: nat, searches: nat, free: nat, largest: nat, invalid: bool)
    requires 0 < capacity <= RANGE_MAX
    requires forall i :: 0 <= i < |events| ==> events[i].slot < SLOTS && events[i].alignment <= RANGE_MAX
    ensures !invalid
    ensures failures == After(events, capacity).failures && searches == After(events, capacity).searches
    ensures free == |Vacant(After(events, capacity).live, capacity)| && Longest(After(events, capacity).live, capacity, largest)
  {
    hide Has, Partition, Ordered, Coalesced, Words, CanPlace, Turn, Vacant, Longest;
    var ranges := new TraceFirstFit(capacity);
    var live: map<nat, Span> := map[];
    failures := 0;
    StartPartition(capacity);
    for n := 0 to |events|
      invariant ranges.Valid() && fresh(ranges) && fresh(ranges.free)
      invariant Partition(ranges.List(), live, capacity) && forall k :: k in live ==> k < SLOTS
      invariant Ledger(live, failures, ranges.searches) == After(events[..n], capacity)
    {
      var r;
      r, live := Serve(ranges, live, After(events[..n], capacity), events[n], capacity);
      failures := failures + if r.None? then 1 else 0;
      assert events[..n + 1][..n] == events[..n];
    }
    assert events[..|events|] == events;
    searches := ranges.searches;
    free, largest := Measure(ranges);
    TotalIsVacant(ranges.List(), live, capacity);
    LargestIsLongest(ranges.List(), live, capacity, largest);
    invalid := Cleanup(ranges, live, capacity);
  }

  /** The event's slot is given up, and the request served or refused. */
  method Serve(ranges: TraceFirstFit, live: map<nat, Span>, ghost l: Ledger, e: TraceEvent, ghost capacity: nat)
    returns (r: Option<Span>, now: map<nat, Span>)
    requires ranges.Valid() && Partition(ranges.List(), live, capacity) && capacity <= RANGE_MAX
    requires (forall k :: k in live ==> k < SLOTS) && e.slot < SLOTS && e.alignment <= RANGE_MAX
    requires l.live == live && l.searches == ranges.searches
    modifies ranges, ranges.free
    ensures ranges.Valid() && Partition(ranges.List(), now, capacity) && forall k :: k in now ==> k < SLOTS
    ensures Turn(l, e, capacity) == Ledger(now, l.failures + if r.None? then 1 else 0, ranges.searches)
  {
    hide Has, Partition, Ordered, Coalesced, Words, CanPlace, Turn, Tried;
    now := live - {e.slot};
    if e.slot in live {
      now := Return(ranges, live, e.slot, capacity);
    } else {
      assert now == live;
    }
    Room(ranges.List(), now, capacity);
    ghost var s := ranges.List();
    r := ranges.Allocate(e.size, e.alignment);
    TurnIs(s, l, e, capacity, r);
    match r {
      case Some(x) =>
        PlaceFree(s, e.alignment, x);
        PartitionTake(s, ranges.List(), now, e.slot, x, capacity);
        now := now[e.slot := x];
      case None =>
    }
  }

  /** Everything goes back, and the list must be as it began. */
  method Cleanup(ranges: TraceFirstFit, live: map<nat, Span>, capacity: nat) returns (invalid: bool)
    requires ranges.Valid() && Partition(ranges.List(), live, capacity) && 0 < capacity <= RANGE_MAX
    requires forall k :: k in live ==> k < SLOTS
    modifies ranges, ranges.free
    ensures !invalid && ranges.Valid() && ranges.List() == [Span(0, capacity)]
  {
    hide Has, Partition, Ordered, Coalesced;
    var rest := live;
    for k := 0 to SLOTS
      invariant ranges.Valid()
      invariant Partition(ranges.List(), rest, capacity) && forall j :: j in rest ==> k <= j < SLOTS
    {
      if k in rest {
        rest := Return(ranges, rest, k, capacity);
      }
    }
    assert rest == map[];
    AllFree(ranges.List(), capacity);
    assert ranges.free[0] == ranges.List()[0];
    invalid := ranges.count != 1 || ranges.free[0].size != capacity;
  }

  lemma {:induction false} PlaceFree(s: seq<Span>, alignment: nat, x: Span)
    requires CanPlace(s, x.size, alignment, x.offset)
    ensures forall a: int :: Inside(x, a) ==> Has(s, a)
  {
  }

  lemma {:induction false} StartPartition(capacity: nat)
    requires capacity > 0
    ensures Partition([Span(0, capacity)], map[], capacity)
  {
    var s := [Span(0, capacity)];
    assert forall a: int :: 0 <= a < capacity ==> Inside(s[0], a);
  }

  /** The span of a slot goes back. */
  method Return(ranges: TraceFirstFit, live: map<nat, Span>, k: nat, ghost capacity: nat) returns (rest: map<nat, Span>)
    requires ranges.Valid() && k in live && Partition(ranges.List(), live, capacity) && capacity <= RANGE_MAX
    requires forall j :: j in live ==> j < SLOTS
    modifies ranges`count, ranges.free
    ensures ranges.Valid() && rest == live - {k} && Partition(ranges.List(), rest, capacity)
  {
    Room(ranges.List(), live, capacity);
    ghost var s := ranges.List();
    assert forall a: int :: Inside(live[k], a) ==> Used(live, a);
    ranges.Deallocate(live[k]);
    PartitionFree(s, ranges.List(), live, k, capacity);
    rest := live - {k};
  }
}
