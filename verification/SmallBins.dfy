// The small bins of malloc_state: 32 circular lists of equal-sized chunks behind the smallmap
// (src/runtime/dlmalloc/malloc.c:3575-3636, 4584-4622).
//
// Unlinking the last chunk only clears the map bit: the header keeps stale pointers. A list is
// therefore meaningful only while its bit is set, and insertion must not read the stale links.

module SmallBins {
  import opened Powers
  import opened BinMaps

  const SMALLBINS: nat := 32

  datatype Link = Link(fd: int, bk: int)

  type Links = map<int, Link>

  /** `smallbin_at`: the header of bin i, at an address no chunk has. */
  function Header(i: nat): int {
    -1 - i
  }

  function After(i: nat, n: nat): nat
    requires i < n
  {
    if i + 1 == n then 0 else i + 1
  }

  function Before(i: nat, n: nat): nat
    requires i < n
  {
    if i == 0 then n - 1 else i - 1
  }

  ghost predicate LinkedAt(links: Links, nodes: seq<int>, i: int)
    requires 0 <= i < |nodes|
  {
    && nodes[i] in links
    && links[nodes[i]] == Link(nodes[After(i, |nodes|)], nodes[Before(i, |nodes|)])
  }

  /** The circular list through the given nodes. */
  ghost predicate Ring(links: Links, nodes: seq<int>) {
    forall i :: 0 <= i < |nodes| ==> LinkedAt(links, nodes, i)
  }

  ghost predicate NoDup(s: seq<int>) {
    forall i, j :: 0 <= i < j < |s| ==> s[i] != s[j]
  }

  // ---------- one list ----------

  function LinkFirst(links: Links, b: int, f: int, p: int): Links
    requires b in links && f in links
  {
    var l1 := links[b := links[b].(fd := p)];
    var l2 := l1[f := l1[f].(bk := p)];
    l2[p := Link(f, b)]
  }

  lemma {:induction false} LinkFirstRing(links: Links, b: int, list: seq<int>, p: int)
    requires b in links && p != b && p !in list && b !in list && NoDup(list)
    requires list != [] ==> Ring(links, [b] + list)
    ensures list != [] ==> links[b].fd == list[0] && links[b].fd in links
    ensures Ring(LinkFirst(links, b, if list == [] then b else list[0], p), [b, p] + list)
  {
    var oldNodes, nodes := [b] + list, [b, p] + list;
    if list != [] {
      assert LinkedAt(links, oldNodes, 0);
      assert LinkedAt(links, oldNodes, 1);
    }
    var links' := LinkFirst(links, b, if list == [] then b else list[0], p);
    forall i | 0 <= i < |nodes|
      ensures LinkedAt(links', nodes, i)
    {
      if i >= 2 {
        assert nodes[i] == oldNodes[i - 1];
        assert LinkedAt(links, oldNodes, i - 1);
      }
    }
  }

  function Cut(links: Links, p: int): Links
    requires p in links && links[p].fd in links && links[p].bk in links
  {
    var f, b := links[p].fd, links[p].bk;
    var l1 := links[f := links[f].(bk := b)];
    l1[b := l1[b].(fd := f)]
  }

  function Dropped(list: seq<int>, j: nat): seq<int>
    requires j < |list|
  {
    list[..j] + list[j + 1..]
  }

  /** Neighbours of list element j, and when they coincide. */
  lemma {:induction false} Neighbours(links: Links, b: int, list: seq<int>, j: nat)
    requires Ring(links, [b] + list) && j < |list| && NoDup(list) && b !in list
    ensures var p := list[j];
            && p in links && links[p].fd in links && links[p].bk in links
            && links[p].fd == (if j + 1 == |list| then b else list[j + 1])
            && links[p].bk == (if j == 0 then b else list[j - 1])
            && (links[p].fd == links[p].bk <==> |list| == 1)
  {
    var nodes := [b] + list;
    var k := j + 1;
    assert LinkedAt(links, nodes, k);
    assert LinkedAt(links, nodes, After(k, |nodes|));
    assert LinkedAt(links, nodes, Before(k, |nodes|));
  }

  lemma {:induction false} CutRing(links: Links, b: int, list: seq<int>, j: nat)
    requires Ring(links, [b] + list) && j < |list| && |list| > 1 && NoDup(list) && b !in list
    ensures list[j] in links && links[list[j]].fd in links && links[list[j]].bk in links
    ensures Ring(Cut(links, list[j]), [b] + Dropped(list, j))
  {
    Neighbours(links, b, list, j);
    var oldNodes, nodes := [b] + list, [b] + Dropped(list, j);
    var links' := Cut(links, list[j]);
    forall i | 0 <= i < |nodes|
      ensures LinkedAt(links', nodes, i)
    {
      var k := if i <= j then i else i + 1;
      assert nodes[i] == oldNodes[k];
      assert LinkedAt(links, oldNodes, k);
    }
  }

  lemma {:induction false} DroppedMembers(list: seq<int>, j: nat)
    requires j < |list| && NoDup(list)
    ensures NoDup(Dropped(list, j))
    ensures forall a :: a in Dropped(list, j) <==> a in list && a != list[j]
  {
    forall a | a in list && a != list[j]
      ensures a in Dropped(list, j)
    {
      var i :| 0 <= i < |list| && list[i] == a;
      if i < j { assert Dropped(list, j)[i] == a; } else { assert Dropped(list, j)[i - 1] == a; }
    }
  }

  lemma {:induction false} RingFrame(links: Links, links': Links, nodes: seq<int>)
    requires Ring(links, nodes)
    requires forall i :: 0 <= i < |nodes| ==> nodes[i] in links' && nodes[i] in links && links'[nodes[i]] == links[nodes[i]]
    ensures Ring(links', nodes)
  {
    forall i | 0 <= i < |nodes|
      ensures LinkedAt(links', nodes, i)
    {
      assert LinkedAt(links, nodes, i);
    }
  }

  // ---------- all bins ----------

  datatype Bins = Bins(links: Links, smallmap: nat, lists: seq<seq<int>>, contents: map<int, nat>)

  /** What do_check_smallbin asserts of bin i. */
  ghost predicate BinOk(b: Bins, i: nat)
    requires i < SMALLBINS && |b.lists| == SMALLBINS
  {
    && Header(i) in b.links
    && (Bit(b.smallmap, i) <==> b.lists[i] != [])
    && (Bit(b.smallmap, i) ==> Ring(b.links, [Header(i)] + b.lists[i]))
    && NoDup(b.lists[i])
    && forall a :: a in b.lists[i] ==> a > 0 && a in b.contents && b.contents[a] == 8 * i
  }

  ghost predicate ValidBins(b: Bins) {
    && |b.lists| == SMALLBINS && b.smallmap < W
    && (forall i :: 0 <= i < SMALLBINS ==> BinOk(b, i))
    && (forall a :: a in b.contents ==> 16 <= b.contents[a] < 256 && b.contents[a] % 8 == 0
                                        && a in b.lists[b.contents[a] / 8])
  }

  lemma {:induction false} BinOf(b: Bins, i: nat)
    requires ValidBins(b) && i < SMALLBINS
    ensures BinOk(b, i)
  {
  }

  /** links1 differs from links0 only at bin i's header, its chunks, and x. */
  ghost predicate OtherLinks(b: Bins, links1: Links, i: nat, x: int)
    requires i < |b.lists|
  {
    forall a :: a in b.links ==> a in links1 && (a != Header(i) && a !in b.lists[i] && a != x ==> links1[a] == b.links[a])
  }

  lemma {:induction false} OtherBinKept(b: Bins, b1: Bins, i: nat, x: int, j: nat)
    requires ValidBins(b) && |b1.lists| == SMALLBINS && i < SMALLBINS && j < SMALLBINS && i != j && x > 0
    requires b1.lists[j] == b.lists[j] && (x in b.contents ==> x in b.lists[i])
    requires OtherMarks(b.smallmap, b1.smallmap, i) && OtherLinks(b, b1.links, i, x)
    requires forall a :: a in b.contents && a != x ==> a in b1.contents && b1.contents[a] == b.contents[a]
    ensures BinOk(b1, j)
  {
    hide Ring, Bit;
    BinOf(b, j);
    BinOf(b, i);
    if Bit(b.smallmap, j) {
      var nodes := [Header(j)] + b.lists[j];
      RingIn(b.links, nodes);
      forall k | 0 <= k < |nodes|
        ensures nodes[k] in b1.links && b1.links[nodes[k]] == b.links[nodes[k]]
      {
        if k > 0 { assert nodes[k] in b.lists[j]; }
      }
      RingFrame(b.links, b1.links, nodes);
    }
  }

  lemma {:induction false} RingIn(links: Links, nodes: seq<int>)
    requires Ring(links, nodes)
    ensures forall i :: 0 <= i < |nodes| ==> nodes[i] in links
  {
    forall i | 0 <= i < |nodes|
      ensures nodes[i] in links
    {
      assert LinkedAt(links, nodes, i);
    }
  }

  /** A correct edit of one bin keeps all of them. */
  lemma {:induction false} EditBin(b: Bins, b1: Bins, i: nat, x: int)
    requires ValidBins(b) && i < SMALLBINS && x > 0 && (x in b.contents ==> x in b.lists[i])
    requires |b1.lists| == SMALLBINS && b1.lists == b.lists[i := b1.lists[i]]
    requires OtherMarks(b.smallmap, b1.smallmap, i) && OtherLinks(b, b1.links, i, x)
    requires forall a :: a in b.contents && a != x ==> a in b1.contents && b1.contents[a] == b.contents[a]
    requires BinOk(b1, i)
    requires forall a :: a in b1.contents ==> (a in b.contents && a != x && b1.contents[a] == b.contents[a]) || a in b1.lists[i]
    requires forall a :: a in b.lists[i] && a != x ==> a in b1.lists[i]
    requires 2 <= i
    ensures ValidBins(b1)
  {
    hide Ring, Bit, OtherLinks, OtherMarks;
    assert b1.smallmap < W by { MarksWord(b.smallmap, b1.smallmap, i); }
    forall j | 0 <= j < SMALLBINS
      ensures BinOk(b1, j)
    {
      if j != i { OtherBinKept(b, b1, i, x, j); }
    }
  }

  lemma {:induction false} MarksWord(map0: nat, map1: nat, i: nat)
    requires OtherMarks(map0, map1, i)
    ensures map1 < W
  {
  }

  lemma {:induction false} LowBitParity(x: nat)
    ensures Bit(x, 0) <==> x % 2 == 1
  {
  }

  lemma {:induction false} HighMarks(b: Bins, idx: nat)
    requires ValidBins(b) && idx < SMALLBINS
    ensures Bit(b.smallmap, idx + 1) ==> idx + 1 < SMALLBINS
  {
    WordPow();
    if idx + 1 == SMALLBINS { NoHighBit(b.smallmap, 32, idx + 1); }
  }

  lemma {:induction false} NextUnmarked(b: Bins, idx: nat, a: int)
    requires ValidBins(b) && idx < SMALLBINS && !Bit(b.smallmap, idx + 1) && a in b.contents
    ensures b.contents[a] != 8 * idx + 8
  {
    if idx + 1 < SMALLBINS { UnmarkedEmpty(b, idx + 1, a); }
  }

  /** With no marks from idx up, every chunk is smaller. */
  lemma {:induction false} SmallbitsZero(b: Bins, idx: nat)
    requires ValidBins(b) && idx < SMALLBINS && b.smallmap / Pow2(idx) == 0
    ensures forall a :: a in b.contents ==> b.contents[a] < 8 * idx
  {
    hide Bit, Pow2;
    forall a | a in b.contents && b.contents[a] >= 8 * idx
      ensures false
    {
      var k := b.contents[a] / 8;
      ShiftedBit(b.smallmap, idx, k - idx);
      ZeroBit(k - idx);
      UnmarkedEmpty(b, k, a);
    }
  }

  /** `(smallbits << idx) & left_bits(idx2bit(idx))` keeps exactly the marks above idx. */
  lemma {:induction false} MarksAfter(m: nat, idx: nat, j: nat)
    requires m < W && idx < 32 && j < 32
    ensures m / Pow2(idx) >= 0 && IdxBit(idx) < W
    ensures Bit(And(((m / Pow2(idx)) * Pow2(idx)) % W, LeftBits(IdxBit(idx))), j) <==> j > idx && Bit(m, j)
  {
    hide Bit, And, LeftBits, Pow2;
    QuotientNat(m, Pow2(idx));
    var x: nat := m / Pow2(idx);
    assert x * Pow2(idx) <= m by { assert m == x * Pow2(idx) + m % Pow2(idx); }
    LeftBitsBit(idx, j);
    AndBit(x * Pow2(idx), LeftBits(IdxBit(idx)), j);
    RaisedBit(x, idx, j);
    if j >= idx { ShiftedBit(m, idx, j - idx); }
  }

  /** The least mark above idx names the next larger size present. */
  lemma {:induction false} NextMark(b: Bins, idx: nat)
    requires ValidBins(b) && idx < SMALLBINS && !Bit(b.smallmap, idx) && b.smallmap / Pow2(idx) > 0
    ensures IdxBit(idx) < W
    ensures var m := And(((b.smallmap / Pow2(idx)) * Pow2(idx)) % W, LeftBits(IdxBit(idx)));
            && 0 < m < W && LeastBit(m) > 0
            && var r := Ffs(LeastBit(m));
            && idx < r < SMALLBINS && Bit(b.smallmap, r)
            && forall a :: a in b.contents && b.contents[a] >= 8 * idx ==> 8 * r <= b.contents[a]
  {
    hide Bit, And, LeftBits, Pow2, Ffs, LeastBit;
    var x: nat := b.smallmap / Pow2(idx);
    MarksAfter(b.smallmap, idx, idx);
    var m := And((x * Pow2(idx)) % W, LeftBits(IdxBit(idx)));
    SomeMarkAfter(b.smallmap, idx);
    AndBound((x * Pow2(idx)) % W, LeftBits(IdxBit(idx)));
    LowestMark(m);
    var r := Ffs(LeastBit(m));
    MarksAfter(b.smallmap, idx, r);
    forall a | a in b.contents && b.contents[a] >= 8 * idx
      ensures 8 * r <= b.contents[a]
    {
      var k := b.contents[a] / 8;
      MarksAfter(b.smallmap, idx, k);
      if !Bit(b.smallmap, k) { UnmarkedEmpty(b, k, a); }
    }
  }

  lemma {:induction false} SomeMarkAfter(m: nat, idx: nat)
    requires m < W && idx < 32 && !Bit(m, idx) && m / Pow2(idx) > 0
    ensures IdxBit(idx) < W && And(((m / Pow2(idx)) * Pow2(idx)) % W, LeftBits(IdxBit(idx))) > 0
  {
    hide Bit, And, LeftBits, Pow2, Ffs;
    var x: nat := m / Pow2(idx);
    var f := Ffs(x);
    FfsLowest(x);
    ShiftedBit(m, idx, f);
    WordPow();
    if idx + f >= 32 { NoHighBit(m, 32, idx + f); }
    MarksAfter(m, idx, idx + f);
    ZeroHasNoBit(And((x * Pow2(idx)) % W, LeftBits(IdxBit(idx))), idx + f);
  }

  /** `(smallbits & 0x3) != 0`: one of the two lowest marks. */
  lemma {:induction false} LowTwo(x: nat)
    ensures And(x, 3) != 0 <==> Bit(x, 0) || Bit(x, 1)
  {
    assert And(x, 3) == if x == 0 then 0 else x % 2 + 2 * And(x / 2, 1);
    assert And(x / 2, 1) == if x / 2 == 0 then 0 else (x / 2) % 2 + 2 * And((x / 2) / 2, 0);
    AndZero((x / 2) / 2);
    assert Bit(x, 1) == Bit(x / 2, 0);
  }

  lemma {:induction false} AndZero(x: nat)
    ensures And(x, 0) == 0
  {
    if x > 0 { AndZero(x / 2); }
  }

  /** The first chunk of a marked bin. */
  lemma {:induction false} FirstOf(b: Bins, i: nat)
    requires ValidBins(b) && i < SMALLBINS && Bit(b.smallmap, i)
    ensures Header(i) in b.links
    ensures var p := b.links[Header(i)].fd; p in b.contents && b.contents[p] == 8 * i && p > 0
    ensures |b.lists| == SMALLBINS && b.lists[i] != [] && b.links[Header(i)].fd == b.lists[i][0]
  {
    BinOf(b, i);
    assert LinkedAt(b.links, [Header(i)] + b.lists[i], 0);
  }

  /** An unmarked bin holds no chunk. */
  lemma {:induction false} UnmarkedEmpty(b: Bins, i: nat, a: int)
    requires ValidBins(b) && i < SMALLBINS && !Bit(b.smallmap, i) && a in b.contents
    ensures b.contents[a] != 8 * i
  {
    BinOf(b, i);
  }

  /** A word has no mark at 32 or above. */
  lemma {:induction false} NoHighBit(m: nat, w: nat, j: nat)
    requires m < Pow2(w) && j >= w
    ensures !Bit(m, j)
    decreases w
  {
    if w == 0 { ZeroBit(j); } else { NoHighBit(m / 2, w - 1, j - 1); }
  }

  /** Linking p in front of its bin's list; an unmarked bin starts a new list without reading the old links. */
  lemma {:induction false} InsertState(b: Bins, p: int, s: nat)
    requires ValidBins(b) && p > 0 && p !in b.contents && 16 <= s < 256 && s % 8 == 0
    ensures var i := s / 8;
            var h := Header(i);
            && |b.lists| == SMALLBINS && h in b.links && (Bit(b.smallmap, i) ==> b.links[h].fd in b.links)
            && var f := if Bit(b.smallmap, i) then b.links[h].fd else h;
            && ValidBins(Bins(LinkFirst(b.links, h, f, p), if Bit(b.smallmap, i) then b.smallmap else Mark(b.smallmap, i),
                              b.lists[i := [p] + b.lists[i]], b.contents[p := s]))
  {
    hide Ring, Bit;
    var i := s / 8;
    var h := Header(i);
    BinOf(b, i);
    MarkOther(b.smallmap, i);
    LinkFirstRing(b.links, h, b.lists[i], p);
    var f := if Bit(b.smallmap, i) then b.links[h].fd else h;
    var b1 := Bins(LinkFirst(b.links, h, f, p), if Bit(b.smallmap, i) then b.smallmap else Mark(b.smallmap, i),
                   b.lists[i := [p] + b.lists[i]], b.contents[p := s]);
    assert [h] + b1.lists[i] == [h, p] + b.lists[i];
    assert OtherMarks(b.smallmap, b1.smallmap, i);
    EditBin(b, b1, i, p);
  }

  lemma {:induction false} UnlinkState(b: Bins, p: int) returns (j: nat)
    requires ValidBins(b) && p in b.contents
    ensures var i := b.contents[p] / 8;
            && i < SMALLBINS && |b.lists| == SMALLBINS && j < |b.lists[i]| && b.lists[i][j] == p
            && p in b.links && b.links[p].fd in b.links && b.links[p].bk in b.links
            && var last := b.links[p].fd == b.links[p].bk;
            && ValidBins(Bins(if last then b.links else Cut(b.links, p), if last then Clear(b.smallmap, i) else b.smallmap,
                              b.lists[i := Dropped(b.lists[i], j)], b.contents - {p}))
  {
    hide Ring, Bit;
    var i := b.contents[p] / 8;
    BinOf(b, i);
    MarkOther(b.smallmap, i);
    j :| 0 <= j < |b.lists[i]| && b.lists[i][j] == p;
    Neighbours(b.links, Header(i), b.lists[i], j);
    DroppedMembers(b.lists[i], j);
    var last := b.links[p].fd == b.links[p].bk;
    if !last { CutRing(b.links, Header(i), b.lists[i], j); }
    var b1 := Bins(if last then b.links else Cut(b.links, p), if last then Clear(b.smallmap, i) else b.smallmap,
                   b.lists[i := Dropped(b.lists[i], j)], b.contents - {p});
    assert OtherMarks(b.smallmap, b1.smallmap, i);
    EditBin(b, b1, i, p);
  }

  class SmallBins {
    var links: Links
    var smallmap: nat
    ghost var lists: seq<seq<int>>
    ghost var contents: map<int, nat>

    ghost function State(): Bins
      reads this
    {
      Bins(links, smallmap, lists, contents)
    }

    ghost predicate Valid()
      reads this
    {
      ValidBins(State())
    }

    /** `init_bins` */
    constructor ()
      ensures Valid() && contents == map[]
    {
      links := map a | Header(31) <= a <= Header(0) :: Link(a, a);
      smallmap := 0;
      lists := seq(SMALLBINS, i => []);
      contents := map[];
      new;
      forall i: nat | i < SMALLBINS
        ensures BinOk(State(), i)
      {
        ZeroBit(i);
        assert Header(31) <= Header(i) <= Header(0);
      }
    }

    /** `insert_small_chunk` */
    method Insert(p: int, s: nat)
      requires Valid() && p > 0 && p !in contents && 16 <= s < 256 && s % 8 == 0
      modifies this
      ensures Valid()
      ensures contents == old(contents)[p := s]
      ensures |old(lists)| == SMALLBINS && lists == old(lists)[s / 8 := [p] + old(lists)[s / 8]]
    {
      hide ValidBins, Bit;
      ghost var st := State();
      var i := s / 8;
      InsertState(st, p, s);
      var b := Header(i);
      var f := b;
      if !Bit(smallmap, i) {
        smallmap := Mark(smallmap, i);
      } else {
        f := links[b].fd;
      }
      links := links[b := links[b].(fd := p)];
      links := links[f := links[f].(bk := p)];
      links := links[p := Link(f, b)];
      lists := lists[i := [p] + lists[i]];
      contents := contents[p := s];
    }

    /** `unlink_small_chunk`, and with p the first of its bin also `unlink_first_small_chunk`. */
    method Unlink(p: int, s: nat)
      requires Valid() && p in contents && contents[p] == s
      modifies this
      ensures Valid()
      ensures contents == old(contents) - {p}
      ensures |old(lists)| == SMALLBINS && s / 8 < SMALLBINS
      ensures exists j: nat :: j < |old(lists)[s / 8]| && old(lists)[s / 8][j] == p && lists == old(lists)[s / 8 := Dropped(old(lists)[s / 8], j)]
    {
      hide ValidBins;
      ghost var st := State();
      var i := s / 8;
      ghost var j := UnlinkState(st, p);
      var f, b := links[p].fd, links[p].bk;
      if b == f {
        smallmap := Clear(smallmap, i);
      } else {
        links := links[f := links[f].(bk := b)];
        links := links[b := links[b].(fd := f)];
      }
      lists := lists[i := Dropped(lists[i], j)];
      contents := contents - {p};
    }

    /**
     * The remainderless fit of dlmalloc: the first chunk of bin idx, or of the next bin when that
     * one is empty; null when both are.
     */
    method ExactFit(idx: nat) returns (i: nat, p: int)
      requires Valid() && idx < SMALLBINS
      ensures p == 0 ==> forall a :: a in contents ==> contents[a] != 8 * idx && contents[a] != 8 * idx + 8
      ensures p != 0 ==> p in contents && contents[p] == 8 * i && (i == idx || i == idx + 1)
                         && (i == idx + 1 ==> forall a :: a in contents ==> contents[a] != 8 * idx)
      ensures p != 0 ==> i < |lists| && lists[i] != [] && p == lists[i][0]
    {
      hide ValidBins, Bit, And, Pow2;
      ghost var b := State();
      i, p := idx, 0;
      ShiftedBit(smallmap, idx, 0);
      ShiftedBit(smallmap, idx, 1);
      var smallbits: nat := smallmap / Pow2(idx);
      LowTwo(smallbits);
      LowBitParity(smallbits);
      HighMarks(b, idx);
      if And(smallbits, 3) != 0 {
        i := idx + (1 - smallbits % 2);
        FirstOf(b, i);
        p := links[Header(i)].fd;
      }
      forall a | a in contents
        ensures !Bit(smallmap, idx) ==> contents[a] != 8 * idx
        ensures p == 0 ==> contents[a] != 8 * idx + 8
      {
        if !Bit(smallmap, idx) { UnmarkedEmpty(b, idx, a); }
        if p == 0 { NextUnmarked(b, idx, a); }
      }
    }

    /** The next non-empty bin above idx: its first chunk, the smallest that exceeds 8*idx; null when there is none. */
    method NextFit(idx: nat) returns (i: nat, p: int)
      requires Valid() && idx < SMALLBINS && forall a :: a in contents ==> contents[a] != 8 * idx
      ensures p == 0 ==> forall a :: a in contents ==> contents[a] < 8 * idx
      ensures p != 0 ==> p in contents && contents[p] == 8 * i && idx < i < SMALLBINS
                         && forall a :: a in contents && contents[a] >= 8 * idx ==> contents[p] <= contents[a]
      ensures p != 0 ==> i < |lists| && lists[i] != [] && p == lists[i][0]
    {
      hide ValidBins, Bit, And, Pow2, LeftBits, LeastBit, Ffs;
      ghost var b := State();
      i, p := idx, 0;
      if Bit(smallmap, idx) { FirstOf(b, idx); }
      QuotientNat(smallmap, Pow2(idx));
      var smallbits: nat := smallmap / Pow2(idx);
      if smallbits == 0 {
        SmallbitsZero(b, idx);
      } else {
        NextMark(b, idx);
        var leftbits := And((smallbits * Pow2(idx)) % W, LeftBits(IdxBit(idx)));
        i := Ffs(LeastBit(leftbits));
        FirstOf(b, i);
        p := links[Header(i)].fd;
      }
    }
  }
}
