// The first-fit reference model of free ranges (benches/range.cpp:14-57), with the aligned-offset rule of
// src/alloc/src/range.cppm:70-83.

module FirstFit {
  import opened Options
  import opened Powers
  import opened BinMaps
  import opened Alignment

  const RANGE_MAX: nat := 0xFFFF_FFFF_FFFF_FFFF

  datatype Span = Span(offset: nat, size: nat)

  function End(x: Span): nat {
    x.offset + x.size
  }

  predicate Inside(x: Span, a: int) {
    x.offset <= a < End(x)
  }

  // ---------- ordered lists of spans ----------

  /** In address order, disjoint, none empty. */
  predicate Ordered(s: seq<Span>) {
    && (forall i :: 0 <= i < |s| ==> s[i].size > 0)
    && (forall i, j :: 0 <= i < j < |s| ==> End(s[i]) <= s[j].offset)
  }

  /** No two touch. */
  predicate Coalesced(s: seq<Span>) {
    forall i, j :: 0 <= i < j < |s| ==> End(s[i]) < s[j].offset
  }

  ghost predicate Has(s: seq<Span>, a: int) {
    exists i :: 0 <= i < |s| && Inside(s[i], a)
  }

  /** The same addresses. */
  ghost predicate Same(s: seq<Span>, t: seq<Span>) {
    forall a: int :: Has(s, a) <==> Has(t, a)
  }

  function Insert(s: seq<Span>, i: nat, x: Span): seq<Span>
    requires i <= |s|
  {
    s[..i] + [x] + s[i..]
  }

  function Remove(s: seq<Span>, i: nat): seq<Span>
    requires i < |s|
  {
    s[..i] + s[i + 1..]
  }

  /** Spans i and i + 1 become one. */
  function Join(s: seq<Span>, i: nat): seq<Span>
    requires i + 1 < |s|
  {
    Remove(s[i := Span(s[i].offset, s[i].size + s[i + 1].size)], i + 1)
  }

  lemma {:induction false} InsertIs(s: seq<Span>, i: nat, x: Span, t: seq<Span>)
    requires i <= |s| && |t| == |s| + 1 && t[i] == x
    requires (forall k :: 0 <= k < i ==> t[k] == s[k]) && (forall k :: i < k < |t| ==> t[k] == s[k - 1])
    ensures t == Insert(s, i, x)
  {
  }

  lemma {:induction false} HasInsert(s: seq<Span>, i: nat, x: Span, a: int)
    requires i <= |s|
    ensures Has(Insert(s, i, x), a) <==> Has(s, a) || Inside(x, a)
  {
    var t := Insert(s, i, x);
    if Has(s, a) {
      var j :| 0 <= j < |s| && Inside(s[j], a);
      assert t[if j < i then j else j + 1] == s[j];
    }
    if Inside(x, a) { assert t[i] == x; }
    if Has(t, a) {
      var j :| 0 <= j < |t| && Inside(t[j], a);
      assert j == i || t[j] == s[if j < i then j else j - 1];
    }
  }

  lemma {:induction false} HasRemove(s: seq<Span>, i: nat, a: int)
    requires i < |s|
    ensures Has(s, a) <==> Has(Remove(s, i), a) || Inside(s[i], a)
  {
    assert Insert(Remove(s, i), i, s[i]) == s;
    HasInsert(Remove(s, i), i, s[i], a);
  }

  lemma {:induction false} HasJoin(s: seq<Span>, i: nat, a: int)
    requires i + 1 < |s| && End(s[i]) == s[i + 1].offset
    ensures Has(Join(s, i), a) <==> Has(s, a)
  {
    var t := s[i := Span(s[i].offset, s[i].size + s[i + 1].size)];
    assert Inside(t[i], a) <==> Inside(s[i], a) || Inside(s[i + 1], a);
    var rest := Remove(Remove(s, i + 1), i);
    assert rest == Remove(Remove(t, i + 1), i);
    HasRemove(s, i + 1, a);
    HasRemove(Remove(s, i + 1), i, a);
    HasRemove(Remove(t, i + 1), i, a);
  }

  lemma {:induction false} OrderedRemove(s: seq<Span>, i: nat)
    requires Ordered(s) && i < |s|
    ensures Ordered(Remove(s, i)) && (Coalesced(s) ==> Coalesced(Remove(s, i)))
    ensures forall a: int :: Has(Remove(s, i), a) ==> !Inside(s[i], a)
  {
    var t := Remove(s, i);
    assert forall j :: 0 <= j < |t| ==> t[j] == s[if j < i then j else j + 1];
  }

  /** Everything before i is below x, everything from i on above it. */
  predicate Between(s: seq<Span>, i: nat, x: Span) {
    && i <= |s|
    && (forall j :: 0 <= j < i ==> End(s[j]) <= x.offset)
    && (forall j :: i <= j < |s| ==> End(x) <= s[j].offset)
  }

  lemma {:induction false} OrderedInsert(s: seq<Span>, i: nat, x: Span)
    requires Ordered(s) && Between(s, i, x) && x.size > 0
    ensures Ordered(Insert(s, i, x))
  {
    var t := Insert(s, i, x);
    assert forall j :: 0 <= j < |t| ==> t[j] == if j < i then s[j] else if j == i then x else s[j - 1];
  }

  lemma {:induction false} OrderedJoin(s: seq<Span>, i: nat)
    requires Ordered(s) && i + 1 < |s| && End(s[i]) == s[i + 1].offset
    ensures Ordered(Join(s, i))
  {
    var t := Join(s, i);
    assert forall j :: 0 <= j < |t| ==>
                         t[j] == if j < i then s[j] else if j == i then Span(s[i].offset, s[i].size + s[i + 1].size) else s[j + 1];
  }

  /** No neighbours touch, except perhaps at the listed places. */
  predicate ApartBut(s: seq<Span>, except: set<int>) {
    forall j :: 0 <= j && j + 1 < |s| && j !in except ==> End(s[j]) < s[j + 1].offset
  }

  lemma {:induction false} CoalescedByNeighbours(s: seq<Span>)
    requires Ordered(s) && ApartBut(s, {})
    ensures Coalesced(s)
  {
    forall i, j | 0 <= i < j < |s|
      ensures End(s[i]) < s[j].offset
    {
      assert End(s[i]) < s[i + 1].offset;
      if i + 1 < j { assert s[i + 1].offset <= End(s[i + 1]) <= s[j].offset; }
    }
  }

  // ---------- what the lists mean ----------

  /** A coalesced list is determined by the addresses in it. */
  lemma {:induction false} Canonical(s: seq<Span>, t: seq<Span>)
    requires Ordered(s) && Coalesced(s) && Ordered(t) && Coalesced(t) && Same(s, t)
    ensures s == t
    decreases |s| + |t|
  {
    if s == [] || t == [] {
      if s != [] { FirstHas(s); }
      if t != [] { FirstHas(t); }
    } else {
      var m, n := |s| - 1, |t| - 1;
      LastEnd(s, t);
      LastEnd(t, s);
      LastStart(s, t);
      LastStart(t, s);
      assert s[m] == t[n];
      FrontSame(s, t);
      OrderedRemove(s, m);
      OrderedRemove(t, n);
      assert Remove(s, m) == s[..m] && Remove(t, n) == t[..n];
      hide Ordered, Coalesced, Same;
      Canonical(s[..m], t[..n]);
      assert s == s[..m] + [s[m]] && t == t[..n] + [t[n]];
    }
  }

  lemma {:induction false} FirstHas(s: seq<Span>)
    requires Ordered(s) && s != []
    ensures Has(s, s[0].offset)
  {
    assert Inside(s[0], s[0].offset);
  }

  lemma {:induction false} FrontSame(s: seq<Span>, t: seq<Span>)
    requires Ordered(s) && Ordered(t) && Same(s, t) && s != [] && t != [] && s[|s| - 1] == t[|t| - 1]
    ensures Same(s[..|s| - 1], t[..|t| - 1])
  {
    var m, n := |s| - 1, |t| - 1;
    OrderedRemove(s, m);
    OrderedRemove(t, n);
    assert Remove(s, m) == s[..m] && Remove(t, n) == t[..n];
    hide Has, Ordered;
    forall a: int
      ensures Has(s[..m], a) <==> Has(t[..n], a)
    {
      HasRemove(s, m, a);
      HasRemove(t, n, a);
    }
  }

  lemma {:induction false} LastEnd(s: seq<Span>, t: seq<Span>)
    requires Ordered(s) && Ordered(t) && Same(s, t) && s != [] && t != []
    ensures End(s[|s| - 1]) <= End(t[|t| - 1])
  {
    var a := End(s[|s| - 1]) - 1;
    assert Inside(s[|s| - 1], a);
    assert Has(s, a) && Has(t, a);
    var i :| 0 <= i < |t| && Inside(t[i], a);
  }

  lemma {:induction false} LastStart(s: seq<Span>, t: seq<Span>)
    requires Ordered(s) && Coalesced(s) && Ordered(t) && Coalesced(t) && Same(s, t) && s != [] && t != []
    requires End(s[|s| - 1]) == End(t[|t| - 1])
    ensures s[|s| - 1].offset <= t[|t| - 1].offset
  {
    var x, y := s[|s| - 1], t[|t| - 1];
    Gaps(s, |s| - 1);
    assert Inside(y, x.offset - 1) ==> Has(t, x.offset - 1);
  }

  /** The addresses just before and just after a span are not in the list. */
  lemma {:induction false} Gaps(s: seq<Span>, i: nat)
    requires Ordered(s) && Coalesced(s) && i < |s|
    ensures !Has(s, s[i].offset - 1) && !Has(s, End(s[i]))
  {
  }

  /** An interval of free addresses lies in one span. */
  lemma {:induction false} IntervalInOne(s: seq<Span>, x: Span)
    requires Ordered(s) && Coalesced(s) && x.size > 0 && forall a: int :: Inside(x, a) ==> Has(s, a)
    ensures exists i :: 0 <= i < |s| && s[i].offset <= x.offset && End(x) <= End(s[i])
  {
    assert Inside(x, x.offset);
    var i :| 0 <= i < |s| && Inside(s[i], x.offset);
    Gaps(s, i);
    assert !Inside(x, End(s[i]));
  }

  // ---------- aligned offsets ----------

  /** `ValidRangeLayout` */
  predicate ValidLayout(size: nat, alignment: nat) {
    size != 0 && alignment != 0 && And(alignment, alignment - 1) == 0
  }

  /** `AlignedRangeOffset` in 64-bit words. */
  function AlignedOffset(start: nat, size: nat, alignment: nat, end: nat): Option<nat> {
    if !ValidLayout(size, alignment) || start > end then None
    else if start > RANGE_MAX - (alignment - 1) then None
    else
      var offset := AlignUp(start, alignment);
      if offset > end || size > end - offset then None else Some(offset)
  }

  /** A place for the request in [start, end). */
  predicate Fits(o: nat, start: nat, size: nat, alignment: nat, end: nat) {
    alignment > 0 && start <= o && o % alignment == 0 && o + size <= end
  }

  /** The lowest place, if there is one. */
  lemma {:induction false} AlignedOffsetIs(start: nat, size: nat, alignment: nat, end: nat)
    requires ValidLayout(size, alignment) && end <= RANGE_MAX && alignment <= RANGE_MAX
    ensures var r := AlignedOffset(start, size, alignment, end);
            && (r.Some? ==> Fits(r.value, start, size, alignment, end))
            && (forall o: nat :: Fits(o, start, size, alignment, end) ==> r.Some? && r.value <= o)
  {
    AlignUpIs(start, alignment);
    forall o: nat | Fits(o, start, size, alignment, end)
      ensures AlignedOffset(start, size, alignment, end).Some? && AlignedOffset(start, size, alignment, end).value <= o
    {
      AlignUpLeast(start, alignment, o);
      PowerTest(alignment);
      TopMultiple(alignment, o);
    }
  }

  /** No multiple of the alignment lies among the last addresses: 2^64 itself is the next one. */
  lemma {:induction false} TopMultiple(alignment: nat, o: nat)
    requires PowerOfTwo(alignment) && alignment <= RANGE_MAX && o % alignment == 0 && o <= RANGE_MAX
    ensures o <= RANGE_MAX - (alignment - 1)
  {
    hide Pow2;
    var k: nat :| alignment == Pow2(k);
    Pow64();
    if k > 64 { Pow2Monotone(64, k); }
    Pow64Multiple(k);
    MultiplesApart(o, RANGE_MAX + 1, alignment);
  }

  lemma {:induction false} Pow64Multiple(k: nat)
    requires k <= 64
    ensures Pow2(k) > 0 && (RANGE_MAX + 1) % Pow2(k) == 0
  {
    hide Pow2;
    Pow64();
    Pow2Add(k, 64 - k);
    var p, q := Pow2(k), Pow2(64 - k);
    MulMod(q, p);
    assert q * p == p * q == RANGE_MAX + 1;
  }

  lemma {:induction false} Pow64()
    ensures Pow2(64) == RANGE_MAX + 1
  {
    hide Pow2;
    WordPow();
    Pow2Add(32, 32);
  }

  // ---------- releasing a span ----------

  function JoinedLeft(s: seq<Span>, i: nat): (seq<Span>, nat)
    requires i < |s|
  {
    if i > 0 && End(s[i - 1]) == s[i].offset then (Join(s, i - 1), i - 1) else (s, i)
  }

  function JoinedRight(s: seq<Span>, i: nat): seq<Span> {
    if i + 1 < |s| && End(s[i]) == s[i + 1].offset then Join(s, i) else s
  }

  /** The list after x is put in at i and joined with its neighbours. */
  function Released(s: seq<Span>, i: nat, x: Span): seq<Span>
    requires i <= |s|
  {
    var (t, k) := JoinedLeft(Insert(s, i, x), i);
    JoinedRight(t, k)
  }

  lemma {:induction false} InsertApart(s: seq<Span>, i: nat, x: Span)
    requires Coalesced(s) && i <= |s|
    ensures ApartBut(Insert(s, i, x), {i - 1, i})
  {
    var t := Insert(s, i, x);
    assert forall j :: 0 <= j < |t| ==> t[j] == if j < i then s[j] else if j == i then x else s[j - 1];
  }

  lemma {:induction false} JoinApart(s: seq<Span>, i: nat, except: set<int>)
    requires i + 1 < |s| && ApartBut(s, except + {i}) && End(s[i]) == s[i + 1].offset && i + 1 !in except
    requires forall j :: j in except ==> j < i
    ensures ApartBut(Join(s, i), except)
  {
    var t := Join(s, i);
    assert forall j :: 0 <= j < |t| ==>
                         t[j] == if j < i then s[j] else if j == i then Span(s[i].offset, s[i].size + s[i + 1].size) else s[j + 1];
  }

  lemma {:induction false} JoinLeftApart(s: seq<Span>, i: nat)
    requires 0 < i < |s| && ApartBut(s, {i - 1, i})
    ensures ApartBut(Join(s, i - 1), {i - 1})
  {
    var t := Join(s, i - 1);
    assert forall j :: 0 <= j < |t| ==>
                         t[j] == if j < i - 1 then s[j] else if j == i - 1 then Span(s[i - 1].offset, s[i - 1].size + s[i].size) else s[j + 1];
  }

  lemma {:induction false} LeftOk(s: seq<Span>, i: nat)
    requires Ordered(s) && ApartBut(s, {i - 1, i}) && i < |s|
    ensures var (t, k) := JoinedLeft(s, i); Ordered(t) && ApartBut(t, {k}) && k < |t| <= |s| && forall a: int :: Has(t, a) <==> Has(s, a)
  {
    if i > 0 && End(s[i - 1]) == s[i].offset {
      OrderedJoin(s, i - 1);
      JoinLeftApart(s, i);
      forall a: int
        ensures Has(Join(s, i - 1), a) <==> Has(s, a)
      {
        HasJoin(s, i - 1, a);
      }
    } else {
      assert i > 0 ==> End(s[i - 1]) < s[i].offset;
    }
  }

  lemma {:induction false} RightOk(s: seq<Span>, i: nat)
    requires Ordered(s) && ApartBut(s, {i}) && i < |s|
    ensures var t := JoinedRight(s, i); Ordered(t) && Coalesced(t) && |t| <= |s| && forall a: int :: Has(t, a) <==> Has(s, a)
  {
    if i + 1 < |s| && End(s[i]) == s[i + 1].offset {
      OrderedJoin(s, i);
      assert {} + {i} == {i};
      JoinApart(s, i, {});
      CoalescedByNeighbours(Join(s, i));
      forall a: int
        ensures Has(Join(s, i), a) <==> Has(s, a)
      {
        HasJoin(s, i, a);
      }
    } else {
      CoalescedByNeighbours(s);
    }
  }

  /** Releasing adds exactly the addresses of x, and leaves the list in order and coalesced. */
  lemma {:induction false} ReleasedOk(s: seq<Span>, i: nat, x: Span)
    requires Ordered(s) && Coalesced(s) && Between(s, i, x) && x.size > 0
    ensures var t := Released(s, i, x);
            Ordered(t) && Coalesced(t) && |t| <= |s| + 1 && forall a: int :: Has(t, a) <==> Has(s, a) || Inside(x, a)
  {
    OrderedInsert(s, i, x);
    InsertApart(s, i, x);
    var u := Insert(s, i, x);
    assert |u| == |s| + 1;
    forall a: int
      ensures Has(u, a) <==> Has(s, a) || Inside(x, a)
    {
      HasInsert(s, i, x, a);
    }
    hide Ordered, Coalesced, ApartBut, Has, Insert, JoinedLeft, JoinedRight;
    LeftOk(u, i);
    var (t, k) := JoinedLeft(u, i);
    RightOk(t, k);
  }

  /** Where x belongs, it overlaps nothing. */
  lemma {:induction false} BetweenIs(s: seq<Span>, i: nat, x: Span)
    requires Ordered(s) && i <= |s| && x.size > 0 && (forall a: int :: Inside(x, a) ==> !Has(s, a))
    requires (forall j :: 0 <= j < i ==> s[j].offset < x.offset) && (i < |s| ==> x.offset <= s[i].offset)
    ensures Between(s, i, x)
  {
    forall j | 0 <= j < i
      ensures End(s[j]) <= x.offset
    {
      assert Inside(x, x.offset) && (Inside(s[j], x.offset) ==> Has(s, x.offset));
    }
    forall j | i <= j < |s|
      ensures End(x) <= s[j].offset
    {
      assert Inside(s[j], s[j].offset) && (Inside(x, s[j].offset) ==> Has(s, s[j].offset));
    }
  }

  // ---------- the allocator ----------

  /** [o, o + size) is free, and o is aligned. */
  ghost predicate CanPlace(s: seq<Span>, size: nat, alignment: nat, o: nat) {
    alignment > 0 && o % alignment == 0 && forall a: int :: o <= a < o + size ==> Has(s, a)
  }

  function Candidate(x: Span, size: nat, alignment: nat): Option<nat> {
    AlignedOffset(x.offset, size, alignment, End(x))
  }

  /** The end of the list is a word. */
  ghost predicate Words(s: seq<Span>) {
    forall i :: 0 <= i < |s| ==> End(s[i]) <= RANGE_MAX
  }

  /** A place anywhere in the free space is a place in one span. */
  lemma {:induction false} PlaceInOne(s: seq<Span>, size: nat, alignment: nat, o: nat)
    requires Ordered(s) && Coalesced(s) && Words(s) && ValidLayout(size, alignment) && alignment <= RANGE_MAX && CanPlace(s, size, alignment, o)
    ensures exists k :: 0 <= k < |s| && Candidate(s[k], size, alignment).Some? && Candidate(s[k], size, alignment).value <= o
                        && s[k].offset <= o
  {
    IntervalInOne(s, Span(o, size));
    var k :| 0 <= k < |s| && s[k].offset <= o && o + size <= End(s[k]);
    AlignedOffsetIs(s[k].offset, size, alignment, End(s[k]));
    hide AlignedOffset, ValidLayout;
    assert Fits(o, s[k].offset, size, alignment, End(s[k]));
  }

  /** Nothing fits anywhere, if it fits in no span. */
  lemma {:induction false} NoPlace(s: seq<Span>, size: nat, alignment: nat)
    requires Ordered(s) && Coalesced(s) && Words(s) && ValidLayout(size, alignment) && alignment <= RANGE_MAX
    requires forall j :: 0 <= j < |s| ==> Candidate(s[j], size, alignment).None?
    ensures forall o: nat :: !CanPlace(s, size, alignment, o)
  {
    forall o: nat
      ensures !CanPlace(s, size, alignment, o)
    {
      if CanPlace(s, size, alignment, o) { PlaceInOne(s, size, alignment, o); }
    }
  }

  /** The first span that has room holds the lowest place of all. */
  lemma {:induction false} FirstIsLowest(s: seq<Span>, i: nat, size: nat, alignment: nat)
    requires Ordered(s) && Coalesced(s) && Words(s) && i < |s| && alignment <= RANGE_MAX
    requires forall j :: 0 <= j < i ==> Candidate(s[j], size, alignment).None?
    requires Candidate(s[i], size, alignment).Some?
    ensures ValidLayout(size, alignment)
    ensures var off := Candidate(s[i], size, alignment).value;
            && s[i].offset <= off && off + size <= End(s[i]) && CanPlace(s, size, alignment, off)
            && forall o: nat :: CanPlace(s, size, alignment, o) ==> off <= o
  {
    AlignedOffsetIs(s[i].offset, size, alignment, End(s[i]));
    var off := Candidate(s[i], size, alignment).value;
    assert forall a: int :: off <= a < off + size ==> Inside(s[i], a);
    forall o: nat | CanPlace(s, size, alignment, o)
      ensures off <= o
    {
      PlaceInOne(s, size, alignment, o);
      hide AlignedOffset;
      var k :| 0 <= k < |s| && Candidate(s[k], size, alignment).Some? && Candidate(s[k], size, alignment).value <= o && s[k].offset <= o;
      if k > i { assert End(s[i]) <= s[k].offset; }
    }
  }

  /** Spans that begin no later than an address. */
  function Upto(s: seq<Span>, o: nat): nat {
    if s == [] then 0 else Upto(s[..|s| - 1], o) + if s[|s| - 1].offset <= o then 1 else 0
  }

  /** Spans looked at: those up to the place found, or all. */
  function Tried(s: seq<Span>, r: Option<Span>): nat {
    match r
    case Some(x) => Upto(s, x.offset)
    case None => |s|
  }

  lemma {:induction false} UptoPrefix(s: seq<Span>, n: nat, o: nat)
    requires n <= |s| && (forall j :: 0 <= j < n ==> s[j].offset <= o) && (forall j :: n <= j < |s| ==> o < s[j].offset)
    ensures Upto(s, o) == n
    decreases |s|
  {
    if s != [] {
      UptoPrefix(s[..|s| - 1], if n < |s| then n else n - 1, o);
    }
  }

  lemma {:induction false} TriedUpTo(s: seq<Span>, i: nat, o: nat)
    requires Ordered(s) && i < |s| && Inside(s[i], o)
    ensures Upto(s, o) == i + 1
  {
    UptoPrefix(s, i + 1, o);
  }

  const SPANS: nat := 1025

  class TraceFirstFit {
    const free: array<Span>
    var count: nat
    var searches: nat

    ghost function List(): seq<Span>
      reads this, free
      requires count <= free.Length
    {
      free[..count]
    }

    ghost predicate Valid()
      reads this, free
    {
      free.Length == SPANS && count <= SPANS && Ordered(List()) && Coalesced(List())
    }

    constructor (capacity: nat)
      requires capacity > 0
      ensures Valid() && List() == [Span(0, capacity)] && fresh(free) && searches == 0
    {
      free := new Span[SPANS](_ => Span(0, 0));
      new;
      free[0] := Span(0, capacity);
      count, searches := 1, 0;
    }

    method CloseGap(i: nat)
      requires free.Length == SPANS && i < count <= SPANS
      modifies this`count, free
      ensures count == old(count) - 1 && List() == Remove(old(List()), i)
    {
      var j := i;
      while j + 1 < count
        invariant i <= j < count == old(count)
        invariant forall k :: 0 <= k < i ==> free[k] == old(free[k])
        invariant forall k :: i <= k < j ==> free[k] == old(free[k + 1])
        invariant forall k :: j <= k < count ==> free[k] == old(free[k])
      {
        free[j] := free[j + 1];
        j := j + 1;
      }
      count := count - 1;
    }

    method OpenGap(i: nat, x: Span)
      requires free.Length == SPANS && i <= count < SPANS
      modifies this`count, free
      ensures count == old(count) + 1 && List() == Insert(old(List()), i, x)
    {
      var j := count;
      while j > i
        invariant i <= j <= count == old(count)
        invariant forall k :: 0 <= k < j ==> free[k] == old(free[k])
        invariant forall k :: j < k <= count ==> free[k] == old(free[k - 1])
      {
        free[j] := free[j - 1];
        j := j - 1;
      }
      free[i] := x;
      count := count + 1;
      InsertIs(old(List()), i, x, free[..count]);
    }

    method JoinNext(i: nat)
      requires free.Length == SPANS && i + 1 < count <= SPANS
      modifies this`count, free
      ensures count == old(count) - 1 && List() == Join(old(List()), i)
    {
      free[i] := Span(free[i].offset, free[i].size + free[i + 1].size);
      assert List() == old(List())[i := Span(old(free[i].offset), old(free[i].size + free[i + 1].size))];
      CloseGap(i + 1);
    }

    /** The first span not below x. */
    method Position(x: Span) returns (i: nat)
      requires Valid() && x.size > 0 && (forall a: int :: Inside(x, a) ==> !Has(List(), a))
      ensures Between(List(), i, x)
    {
      i := 0;
      while i < count && free[i].offset < x.offset
        invariant 0 <= i <= count
        invariant forall j :: 0 <= j < i ==> free[j].offset < x.offset
      {
        i := i + 1;
      }
      BetweenIs(List(), i, x);
    }

    method Deallocate(x: Span)
      requires Valid() && count < SPANS && x.size > 0 && (forall a: int :: Inside(x, a) ==> !Has(List(), a))
      modifies this`count, free
      ensures Valid() && count <= old(count) + 1
      ensures forall a: int :: Has(List(), a) <==> Has(old(List()), a) || Inside(x, a)
    {
      ghost var s := List();
      var i := Position(x);
      ReleasedOk(s, i, x);
      hide Ordered, Coalesced, Has, Inside, Between, JoinedLeft, JoinedRight, Insert;
      OpenGap(i, x);
      var k := JoinLeft(i);
      JoinRight(k);
    }

    method JoinLeft(i: nat) returns (k: nat)
      requires free.Length == SPANS && i < count <= SPANS
      modifies this`count, free
      ensures count <= SPANS && (List(), k) == JoinedLeft(old(List()), i)
    {
      hide Join;
      k := i;
      if i > 0 && free[i - 1].offset + free[i - 1].size == free[i].offset {
        JoinNext(i - 1);
        k := i - 1;
      }
    }

    method JoinRight(i: nat)
      requires free.Length == SPANS && count <= SPANS
      modifies this`count, free
      ensures count <= SPANS && List() == JoinedRight(old(List()), i)
    {
      hide Join;
      if i + 1 < count && free[i].offset + free[i].size == free[i + 1].offset {
        JoinNext(i);
      }
    }

    /** The lowest aligned place for size bytes, if there is one at all. */
    method Allocate(size: nat, alignment: nat) returns (r: Option<Span>)
      requires Valid() && count < SPANS && Words(List()) && alignment <= RANGE_MAX
      modifies this, free
      ensures Valid() && count <= old(count) + 1
      ensures r.None? <==> !ValidLayout(size, alignment) || forall o: nat :: !CanPlace(old(List()), size, alignment, o)
      ensures r.None? ==> List() == old(List())
      ensures r.Some? ==> r.value.size == size && CanPlace(old(List()), size, alignment, r.value.offset)
      ensures r.Some? ==> forall o: nat :: CanPlace(old(List()), size, alignment, o) ==> r.value.offset <= o
      ensures r.Some? ==> forall a: int :: Has(List(), a) <==> Has(old(List()), a) && !Inside(r.value, a)
      ensures searches == old(searches) + Tried(old(List()), r)
    {
      ghost var s := List();
      var i := 0;
      while i < count
        invariant 0 <= i <= count == old(count) && List() == s && searches == old(searches) + i
        invariant forall j :: 0 <= j < i ==> Candidate(s[j], size, alignment).None?
      {
        searches := searches + 1;
        var x := free[i];
        var offset := AlignedOffset(x.offset, size, alignment, x.offset + x.size);
        if offset.Some? {
          FirstIsLowest(s, i, size, alignment);
          TriedUpTo(s, i, offset.value);
          Carve(i, offset.value, size);
          return Some(Span(offset.value, size));
        }
        i := i + 1;
      }
      if ValidLayout(size, alignment) { NoPlace(s, size, alignment); }
      r := None;
    }

    /** Take [offset, offset + size) out of span i. */
    method Carve(i: nat, offset: nat, size: nat)
      requires Valid() && i < count < SPANS && size > 0
      requires free[i].offset <= offset && offset + size <= End(free[i])
      modifies this`count, free
      ensures Valid() && count <= old(count) + 1
      ensures forall a: int :: Has(List(), a) <==> Has(old(List()), a) && !Inside(Span(offset, size), a)
    {
      ghost var s := List();
      var x := free[i];
      OrderedRemove(s, i);
      forall a: int
        ensures Has(s, a) <==> Has(Remove(s, i), a) || Inside(x, a)
      {
        HasRemove(s, i, a);
      }
      hide Has, Ordered, Coalesced;
      CloseGap(i);
      if offset > x.offset {
        Deallocate(Span(x.offset, offset - x.offset));
      }
      if offset + size < x.offset + x.size {
        Deallocate(Span(offset + size, x.offset + x.size - offset - size));
      }
    }
  }

  // ---------- free and live spans ----------

  /** Free and live spans together are exactly [0, capacity), and no two overlap. */
  ghost predicate Partition(s: seq<Span>, live: map<nat, Span>, capacity: nat) {
    && (forall a: int :: Has(s, a) ==> 0 <= a < capacity && !Used(live, a))
    && (forall a: int :: Used(live, a) ==> 0 <= a < capacity)
    && (forall a: int :: 0 <= a < capacity ==> Has(s, a) || Used(live, a))
    && (forall k :: k in live ==> live[k].size > 0)
    && (forall k, m, a: int :: k in live && m in live && Inside(live[k], a) && Inside(live[m], a) ==> k == m)
  }

  ghost predicate Used(live: map<nat, Span>, a: int) {
    exists k :: k in live && Inside(live[k], a)
  }

  /** Between two free spans there is a live one, and no live one is between two pairs of them. */
  lemma {:induction false} GapOwners(s: seq<Span>, live: map<nat, Span>, capacity: nat, n: nat) returns (owners: set<nat>)
    requires Ordered(s) && Coalesced(s) && Partition(s, live, capacity) && n < |s|
    ensures owners <= live.Keys && |owners| == n
    ensures forall k :: k in owners ==> End(live[k]) <= s[n].offset
    decreases n
  {
    if n == 0 {
      owners := {};
    } else {
      var before := GapOwners(s, live, capacity, n - 1);
      var g := End(s[n - 1]);
      assert g < s[n].offset && Inside(s[n], s[n].offset) && Has(s, s[n].offset);
      Gaps(s, n - 1);
      assert Used(live, g);
      var k :| k in live && Inside(live[k], g);
      assert k !in before;
      assert !Inside(live[k], s[n].offset);
      forall m | m in before
        ensures End(live[m]) <= s[n].offset
      {
        assert End(live[m]) <= s[n - 1].offset;
      }
      owners := before + {k};
    }
  }

  /** There are at most as many free spans as live ones, plus one. */
  lemma {:induction false} FreeCount(s: seq<Span>, live: map<nat, Span>, capacity: nat)
    requires Ordered(s) && Coalesced(s) && Partition(s, live, capacity)
    ensures |s| <= |live| + 1
  {
    if s != [] {
      var owners := GapOwners(s, live, capacity, |s| - 1);
      SubsetSize(owners, live.Keys);
      assert |live.Keys| == |live|;
    }
  }

  lemma {:induction false} SubsetSize(a: set<nat>, b: set<nat>)
    requires a <= b
    ensures |a| <= |b|
  {
    assert b == a + (b - a);
  }

  lemma {:induction false} AtMost(keys: set<nat>, n: nat)
    requires forall k :: k in keys ==> k < n
    ensures |keys| <= n
    decreases n
  {
    if n > 0 {
      AtMost(keys - {n - 1}, n - 1);
      assert keys <= (keys - {n - 1}) + {n - 1};
      SubsetSize(keys, (keys - {n - 1}) + {n - 1});
    } else {
      assert keys == {};
    }
  }

  lemma {:induction false} PartitionWords(s: seq<Span>, live: map<nat, Span>, capacity: nat)
    requires Ordered(s) && Partition(s, live, capacity) && capacity <= RANGE_MAX
    ensures Words(s)
  {
    forall i | 0 <= i < |s|
      ensures End(s[i]) <= RANGE_MAX
    {
      assert Inside(s[i], End(s[i]) - 1);
      assert Has(s, End(s[i]) - 1);
    }
  }

  /** With nothing live, the free list is the single span it began as. */
  lemma {:induction false} AllFree(s: seq<Span>, capacity: nat)
    requires Ordered(s) && Coalesced(s) && Partition(s, map[], capacity) && capacity > 0
    ensures s == [Span(0, capacity)]
  {
    var t := [Span(0, capacity)];
    forall a: int
      ensures Has(s, a) <==> Has(t, a)
    {
      assert !Used(map[], a);
      if 0 <= a < capacity { assert Inside(t[0], a); }
    }
    Canonical(s, t);
  }

  lemma {:induction false} PartitionFree(s: seq<Span>, t: seq<Span>, live: map<nat, Span>, k: nat, capacity: nat)
    requires Partition(s, live, capacity) && k in live
    requires forall a: int :: Has(t, a) <==> Has(s, a) || Inside(live[k], a)
    ensures Partition(t, live - {k}, capacity)
  {
    var rest := live - {k};
    forall a: int
      ensures Used(live, a) <==> Used(rest, a) || Inside(live[k], a)
      ensures Inside(live[k], a) ==> !Used(rest, a)
    {
      if Used(live, a) && !Inside(live[k], a) {
        var m :| m in live && Inside(live[m], a);
        assert m in rest && Inside(rest[m], a);
      }
    }
  }

  lemma {:induction false} PartitionTake(s: seq<Span>, t: seq<Span>, live: map<nat, Span>, k: nat, x: Span, capacity: nat)
    requires Partition(s, live, capacity) && k !in live && x.size > 0 && (forall a: int :: Inside(x, a) ==> Has(s, a))
    requires forall a: int :: Has(t, a) <==> Has(s, a) && !Inside(x, a)
    ensures Partition(t, live[k := x], capacity)
  {
    var more := live[k := x];
    forall a: int
      ensures Used(more, a) <==> Used(live, a) || Inside(x, a)
    {
      if Used(live, a) {
        var m :| m in live && Inside(live[m], a);
        assert m in more && Inside(more[m], a);
      }
      if Inside(x, a) { assert k in more && Inside(more[k], a); }
    }
    forall m, n, a: int | m in more && n in more && Inside(more[m], a) && Inside(more[n], a)
      ensures m == n
    {
      if m != n {
        assert m != k ==> Used(live, a);
        assert n != k ==> Used(live, a);
      }
    }
  }
}
