// insert_large_chunk, unlink_large_chunk and the best-fit searches, on the fields they update
// (src/runtime/dlmalloc/malloc.c:3654-3791, 4440-4546).

module LargeBins {
  import opened Powers
  import opened BinMaps
  import opened TreeIndex
  import opened SizeTrie
  import opened TrieMemory
  import opened TrieEdit
  import opened TreeBins
  import opened BinEdits

  lemma {:induction false} InsertContents(b: Bins, i: nat, t: Trie, x: int, s: nat)
    requires ValidBins(b) && i < TREEBINS && x !in b.contents
    requires forall a, n :: Stored(t, a, n) <==> Stored(b.trees[i], a, n) || (a == x && n == s)
    ensures ContentsEdited(b, i, t, b.contents[x := s])
  {
    hide BinsOk;
  }

  lemma {:induction false} UnlinkContents(b: Bins, i: nat, t: Trie, x: int)
    requires ValidBins(b) && i < TREEBINS && x in b.contents && Stored(b.trees[i], x, b.contents[x])
    requires forall a, n :: Stored(t, a, n) <==> Stored(b.trees[i], a, n) && a != x
    ensures ContentsEdited(b, i, t, b.contents - {x})
  {
    hide BinsOk;
  }

  /** r is what is to take the place of the node at `path`: ready in mem1, or null with nothing below. */
  ghost predicate Replacement(b: Bins, mem1: Mem, i: nat, path: Path, r: int)
    requires Shape(b) && i < TREEBINS && ValidPath(b.trees[i], path) && Sub(b.trees[i], path).Node?
    requires Sub(b.trees[i], path).chain != []
  {
    var sub := Sub(b.trees[i], path);
    && Changed(b.mem, mem1, Addrs(sub))
    && (r == 0 ==> mem1 == b.mem && |sub.chain| == 1 && LeafPath(sub) == [])
    && (r != 0 ==> Ready(mem1, sub.chain[0], i, Without(sub, 0)) && r == Root(Without(sub, 0)))
  }

  lemma {:induction false} RingReplacement(b: Bins, i: nat, path: Path)
    requires ValidBins(b) && i < TREEBINS && ValidPath(b.trees[i], path) && Sub(b.trees[i], path).Node?
    requires |Sub(b.trees[i], path).chain| > 1
    ensures var x := Sub(b.trees[i], path).chain[0];
            x in b.mem && b.mem[x].fd in b.mem && b.mem[x].bk in b.mem
            && Replacement(b, RingRemove(b.mem, x), i, path, b.mem[x].bk)
  {
    hide BinsOk, ContentsOk, Ready, Changed, RingRemove;
    AfterRing(b, i, path);
  }

  lemma {:induction false} CutReplacement(b: Bins, mem1: Mem, i: nat, path: Path, r: int)
    requires ValidBins(b) && i < TREEBINS && ValidPath(b.trees[i], path) && Sub(b.trees[i], path).Node?
    requires |Sub(b.trees[i], path).chain| == 1
    requires var sub := Sub(b.trees[i], path);
             var p := LeafPath(sub);
             && (p == [] ==> r == 0 && mem1 == b.mem)
             && (p != [] ==> var q := Root(Above(sub, p));
                   && q in b.mem && mem1 == b.mem[q := SetChild(b.mem[q], p[|p| - 1], 0)]
                   && r == Root(Sub(sub, p)) && r != 0)
    ensures Replacement(b, mem1, i, path, r)
  {
    hide BinsOk, ContentsOk, Ready;
    if r != 0 { AfterCut(b, i, path); } else { Unchanged(b.mem, Addrs(Sub(b.trees[i], path))); }
  }

  lemma {:induction false} Unchanged(mem: Mem, s: set<int>)
    ensures Changed(mem, mem, s)
  {
  }

  lemma {:induction false} SlotIs(mem: Mem, t: Trie, path: Path, q: int, r: int)
    requires ValidPath(t, path) && path != [] ==> q == Root(Above(t, path)) && q in mem
    requires ValidPath(t, path)
    ensures path == [] ==> SlotWritten(mem, t, path, r) == mem
    ensures path != [] ==> SlotWritten(mem, t, path, r) == mem[q := SetChild(mem[q], path[|path| - 1], r)]
  {
  }

  /** The walk stands on r, in the `right` slot of q, on the way to the rightmost leaf. */
  ghost predicate Walking(b: Bins, i: nat, path: Path, p: Path, q: int, right: bool, r: int) {
    && ValidBins(b) && i < TREEBINS && ValidPath(b.trees[i], path) && Sub(b.trees[i], path).Node?
    && var sub := Sub(b.trees[i], path);
    && p != [] && ValidPath(sub, p) && Sub(sub, p).Node?
    && r == Root(Sub(sub, p)) && q == Root(Above(sub, p)) && right == p[|p| - 1]
    && LeafPath(sub) == p + LeafPath(Sub(sub, p))
  }

  ghost function LeafDistance(b: Bins, i: nat, path: Path, p: Path): int {
    if |b.trees| == TREEBINS && i < TREEBINS && ValidPath(b.trees[i], path) && Sub(b.trees[i], path).Node?
    then |LeafPath(Sub(b.trees[i], path))| - |p| else 0
  }

  lemma {:induction false} WalkStart(b: Bins, i: nat, path: Path, right: bool)
    requires ValidBins(b) && i < TREEBINS && ValidPath(b.trees[i], path) && Sub(b.trees[i], path).Node?
    requires var sub := Sub(b.trees[i], path); Child(sub, right).Node? && (!right ==> sub.right.Nil?)
    ensures var sub := Sub(b.trees[i], path);
            Walking(b, i, path, [right], Root(sub), right, Root(Child(sub, right)))
            && Root(Child(sub, right)) in b.mem && Root(Child(sub, right)) != 0
  {
    hide BinsOk, ContentsOk, LeafPath;
    var sub := Sub(b.trees[i], path);
    SubSnoc(sub, [], right);
    AboveIsSub(sub, [], right);
    assert [] + [right] == [right];
    LeafPathStep(sub);
    LeafNode(b, i, path, [right]);
  }

  lemma {:induction false} WalkStep(b: Bins, i: nat, path: Path, p: Path, q: int, right: bool, r: int)
    requires Walking(b, i, path, p, q, right, r) && r in b.mem
    requires b.mem[r].right != 0 || b.mem[r].left != 0
    ensures var right' := b.mem[r].right != 0;
            var r' := if right' then b.mem[r].right else b.mem[r].left;
            && Walking(b, i, path, p + [right'], r, right', r') && r' in b.mem && r' != 0
            && 0 <= LeafDistance(b, i, path, p + [right']) < LeafDistance(b, i, path, p)
  {
    hide BinsOk, ContentsOk, LeafPath;
    var sub := Sub(b.trees[i], path);
    var n := Sub(sub, p);
    LeafNode(b, i, path, p);
    var right' := b.mem[r].right != 0;
    SubSnoc(sub, p, right');
    AboveIsSub(sub, p, right');
    LeafPathStep(n);
    var rest := LeafPath(Child(n, right'));
    assert p + ([right'] + rest) == (p + [right']) + rest;
    LeafNode(b, i, path, p + [right']);
  }

  lemma {:induction false} WalkEnd(b: Bins, i: nat, path: Path, p: Path, q: int, right: bool, r: int)
    requires Walking(b, i, path, p, q, right, r) && r in b.mem
    requires b.mem[r].right == 0 && b.mem[r].left == 0
    ensures q in b.mem && p == LeafPath(Sub(b.trees[i], path))
    ensures r == Root(Sub(Sub(b.trees[i], path), p)) && q == Root(Above(Sub(b.trees[i], path), p)) && right == p[|p| - 1]
  {
    hide BinsOk, ContentsOk, LeafPath;
    LeafNode(b, i, path, p);
    LeafPathStep(Sub(Sub(b.trees[i], path), p));
    assert p + [] == p;
    HolderIn(b, i, path, p);
  }

  /** One step of the walk to the rightmost leaf. */
  lemma {:induction false} LeafPathStep(t: Trie)
    requires t.Node?
    ensures t.right.Node? ==> LeafPath(t) == [true] + LeafPath(t.right)
    ensures t.right.Nil? && t.left.Node? ==> LeafPath(t) == [false] + LeafPath(t.left)
    ensures t.right.Nil? && t.left.Nil? ==> LeafPath(t) == []
  {
  }

  lemma {:induction false} LeafNode(b: Bins, i: nat, path: Path, p: Path)
    requires ValidBins(b) && i < TREEBINS && ValidPath(b.trees[i], path) && Sub(b.trees[i], path).Node?
    requires ValidPath(Sub(b.trees[i], path), p) && Sub(Sub(b.trees[i], path), p).Node?
    ensures var n := Sub(Sub(b.trees[i], path), p);
            && Root(n) in b.mem && Root(n) != 0
            && b.mem[Root(n)].left == Root(n.left) && b.mem[Root(n)].right == Root(n.right)
            && (Root(n.left) == 0 <==> n.left.Nil?) && (Root(n.right) == 0 <==> n.right.Nil?)
  {
    hide BinsOk, ContentsOk;
    SubConcat(b.trees[i], path, p);
    DescentNode(b, i, path + p);
    NodePositive(b, i, path + p);
  }

  lemma {:induction false} NodePositive(b: Bins, i: nat, path: Path)
    requires ValidBins(b) && i < TREEBINS && ValidPath(b.trees[i], path) && Sub(b.trees[i], path).Node?
    ensures Root(Sub(b.trees[i], path)) > 0
  {
    hide Rep, BinsOk, ContentsOk, InRange, Distinct, UniqueSizes;
    DescentNode(b, i, path);
    BinOf(b, i);
    RepAddrs(b.mem, BinAddr(i), i, b.trees[i]);
  }

  lemma {:induction false} HolderIn(b: Bins, i: nat, path: Path, p: Path)
    requires ValidBins(b) && i < TREEBINS && ValidPath(b.trees[i], path) && Sub(b.trees[i], path).Node?
    requires p != [] && ValidPath(Sub(b.trees[i], path), p)
    ensures Root(Above(Sub(b.trees[i], path), p)) in b.mem
  {
    hide Rep, BinsOk, ContentsOk, InRange, Distinct, UniqueSizes;
    BinOf(b, i);
    SubAddrs(b.trees[i], path);
    RepSub(b.mem, BinAddr(i), i, b.trees[i], path);
    AboveNode(b.mem, ParentOf(b.trees[i], path, BinAddr(i)), i, Sub(b.trees[i], path), p);
  }

  /** What the descent reads at the node it stands on. */
  lemma {:induction false} DescentNode(b: Bins, i: nat, path: Path)
    requires ValidBins(b) && i < TREEBINS && ValidPath(b.trees[i], path) && Sub(b.trees[i], path).Node?
    ensures var sub := Sub(b.trees[i], path);
            && sub.chain != [] && Root(sub) in b.mem
            && b.mem[Root(sub)].size == sub.size
            && b.mem[Root(sub)].left == Root(sub.left) && b.mem[Root(sub)].right == Root(sub.right)
            && (Root(sub.left) == 0 <==> sub.left.Nil?) && (Root(sub.right) == 0 <==> sub.right.Nil?)
            && Root(sub) in Addrs(b.trees[i])
  {
    hide Rep, BinsOk, ContentsOk, InRange, Distinct, UniqueSizes;
    var t := b.trees[i];
    BinOf(b, i);
    RepSub(b.mem, BinAddr(i), i, t, path);
    var sub := Sub(t, path);
    Unfold(b.mem, ParentOf(t, path, BinAddr(i)), i, sub);
    assert ChainCell(b.mem, sub.chain, 0, sub.size, i);
    RepAddrs(b.mem, sub.chain[0], i, sub.left);
    RepAddrs(b.mem, sub.chain[0], i, sub.right);
    SubAddrs(t, path);
    assert sub.chain[0] in Members(sub.chain);
  }

  /** Following s's bit keeps s in range, and loses no node of size s. */
  lemma {:induction false} DescentStep(t: Trie, lo: nat, k: nat, path: Path, s: nat, bits: nat)
    requires InRange(t, lo, k) && ValidPath(t, path) && Sub(t, path).Node? && |path| <= k
    requires SizeBits(bits, s, LowOf(lo, k, path), k - |path|) && Sub(t, path).size != s
    requires s in Sizes(t) ==> s in Sizes(Sub(t, path))
    ensures |path| < k
    ensures var right := TopBit(bits);
            && ValidPath(t, path + [right]) && Sub(t, path + [right]) == Child(Sub(t, path), right)
            && SizeBits((2 * bits) % W, s, LowOf(lo, k, path + [right]), k - |path| - 1)
            && (s in Sizes(t) ==> s in Sizes(Sub(t, path + [right])))
  {
    hide InRange, TopBit, SizeBits, Sizes;
    var sub, low, m := Sub(t, path), LowOf(lo, k, path), k - |path|;
    SubRange(t, lo, k, path);
    SizeBitsRange(bits, s, low, m);
    NodeBits(sub, low, m, s);
    TopBitIs(bits, s, low, m);
    SubSnoc(t, path, TopBit(bits));
    LowSnoc(lo, k, path, TopBit(bits));
    ChildSizes(sub, low, m, s);
  }

  lemma {:induction false} EmptySlot(t: Trie, lo: nat, k: nat, path: Path, s: nat, bits: nat)
    requires ValidPath(t, path) && Sub(t, path).Nil? && |path| <= k
    requires SizeBits(bits, s, LowOf(lo, k, path), k - |path|)
    requires s in Sizes(t) ==> s in Sizes(Sub(t, path))
    ensures s !in Sizes(t) && LowOf(lo, k, path) <= s < LowOf(lo, k, path) + Pow2(k - |path|)
  {
  }

  lemma {:induction false} SizeBitsRange(bits: nat, s: nat, lo: nat, k: nat)
    requires SizeBits(bits, s, lo, k)
    ensures lo <= s < lo + Pow2(k)
  {
  }

  lemma {:induction false} NodeBits(sub: Trie, lo: nat, k: nat, s: nat)
    requires sub.Node? && InRange(sub, lo, k) && lo <= s < lo + Pow2(k) && sub.size != s
    ensures k > 0
  {
  }

  lemma {:induction false} ChildSizes(sub: Trie, lo: nat, k: nat, s: nat)
    requires sub.Node? && InRange(sub, lo, k) && k > 0
    ensures s in Sizes(sub) && sub.size != s ==> s in Sizes(Child(sub, s >= lo + Pow2(k - 1)))
  {
    if s in Sizes(sub) && sub.size != s {
      if s in Sizes(sub.left) {
        SizesInRange(sub.left, lo, k - 1);
        assert s < lo + Pow2(k - 1);
      } else {
        assert s in Sizes(sub.right);
        SizesInRange(sub.right, lo + Pow2(k - 1), k - 1);
      }
    }
  }

  lemma {:induction false} BinBound(i: nat, s: nat)
    requires InBin(i, s)
    ensures i < TREEBINS
  {
  }

  lemma {:induction false} BinMarked(b: Bins, i: nat)
    requires ValidBins(b) && i < TREEBINS
    ensures Bit(b.treemap, i) <==> b.trees[i].Node?
    ensures b.roots[i] == Root(b.trees[i])
  {
    BinOf(b, i);
  }

  /** The three ways to insert, each as an edit of bin i that keeps all bins valid. */
  lemma {:induction false} InsertedRoot(b: Bins, i: nat, x: int, s: nat) returns (t: Trie)
    requires ValidBins(b) && i < TREEBINS && InBin(i, s) && x > 0 && x !in b.contents && b.trees[i].Nil?
    ensures var mem := b.mem[x := LeafCell(x, s, BinAddr(i), i)];
            Root(t) == x
            && ValidBins(Replaced(b, mem, Mark(b.treemap, i), i, t, b.contents[x := s]))
  {
    hide Rep, InRange, Distinct, UniqueSizes, BinsOk, ContentsOk, InBin;
    t := Leaf(x, s);
    var mem := b.mem[x := LeafCell(x, s, BinAddr(i), i)];
    InsertRootOk(b.mem, i, x, s);
    LeafOk(mem, x, s, BinAddr(i), i);
    MarkOther(b.treemap, i);
    InsertContents(b, i, t, x, s);
    ReplaceBin(b, mem, Mark(b.treemap, i), i, t, b.contents[x := s], x);
  }

  lemma {:induction false} InsertedChain(b: Bins, i: nat, path: Path, x: int, s: nat) returns (t: Trie)
    requires ValidBins(b) && i < TREEBINS && x > 0 && x !in b.contents
    requires ValidPath(b.trees[i], path) && Sub(b.trees[i], path).Node? && Sub(b.trees[i], path).size == s
    ensures var c := Root(Sub(b.trees[i], path));
            c in b.mem && b.mem[c].fd in b.mem && Root(t) == b.roots[i]
            && ValidBins(Replaced(b, RingAdd(b.mem, c, x, s, i), b.treemap, i, t, b.contents[x := s]))
  {
    hide Rep, InRange, Distinct, UniqueSizes, BinsOk, ContentsOk, InBin, RingAdd, Changed;
    var oldTrie := b.trees[i];
    BinOf(b, i);
    AddrsAreContents(b, i);
    SubAddrs(oldTrie, path);
    var sub := Sub(oldTrie, path);
    InsertChainRep(b.mem, BinAddr(i), i, oldTrie, path, x);
    InsertChainOk(b.mem, i, oldTrie, path, x);
    t := Put(oldTrie, path, Chained(sub, x));
    ChainedStored(oldTrie, path, x);
    InsertContents(b, i, t, x, s);
    assert OtherMarks(b.treemap, b.treemap, i);
    ReplaceBin(b, RingAdd(b.mem, Root(sub), x, s, i), b.treemap, i, t, b.contents[x := s], x);
    if path != [] { assert Root(t) == Root(oldTrie); }
  }

  lemma {:induction false} ChainedStored(t: Trie, path: Path, x: int)
    requires ValidPath(t, path) && Sub(t, path).Node? && Distinct(t) && x !in Addrs(t)
    ensures Sub(t, path).chain != []
    ensures forall a, n :: Stored(Put(t, path, Chained(Sub(t, path), x)), a, n)
                           <==> Stored(t, a, n) || (a == x && n == Sub(t, path).size)
  {
    hide Distinct;
    var sub := Sub(t, path);
    SubAddrs(t, path);
    DistinctParts(sub);
    ChainedParts(sub, x);
    forall a, n
      ensures Stored(Put(t, path, Chained(sub, x)), a, n) <==> Stored(t, a, n) || (a == x && n == sub.size)
    {
      PutStored(t, path, Chained(sub, x), a, n);
      SubStored(t, path, a, n);
    }
  }

  lemma {:induction false} InsertedLeaf(b: Bins, i: nat, path: Path, right: bool, x: int, s: nat) returns (t: Trie)
    requires ValidBins(b) && i < TREEBINS && InBin(i, s) && x > 0 && x !in b.contents
    requires ValidPath(b.trees[i], path) && Sub(b.trees[i], path).Node? && Child(Sub(b.trees[i], path), right).Nil?
    requires |path| < BinBits(i) && s !in Sizes(b.trees[i])
    requires var lo := LowOf(BinLow(i), BinBits(i), path + [right]);
             lo <= s < lo + Pow2(BinBits(i) - |path| - 1)
    ensures var q := Root(Sub(b.trees[i], path));
            q in b.mem && Root(t) == b.roots[i]
            && ValidBins(Replaced(b, WithLeaf(b.mem, q, right, x, s, i), b.treemap, i, t, b.contents[x := s]))
  {
    hide Rep, InRange, Distinct, UniqueSizes, BinsOk, ContentsOk, InBin;
    var oldTrie := b.trees[i];
    BinOf(b, i);
    AddrsAreContents(b, i);
    DescentNode(b, i, path);
    InsertLeafOk(b.mem, i, oldTrie, path, right, x, s);
    var q, p := Root(Sub(oldTrie, path)), path + [right];
    t := Put(oldTrie, p, Leaf(x, s));
    var mem := WithLeaf(b.mem, q, right, x, s, i);
    LeafOk(mem, x, s, q, i);
    SubSnoc(oldTrie, path, right);
    forall a, n
      ensures Stored(t, a, n) <==> Stored(oldTrie, a, n) || (a == x && n == s)
    {
      PutStored(oldTrie, p, Leaf(x, s), a, n);
    }
    InsertContents(b, i, t, x, s);
    assert OtherMarks(b.treemap, b.treemap, i);
    assert Changed(b.mem, mem, Addrs(oldTrie) + {x});
    ReplaceBin(b, mem, b.treemap, i, t, b.contents[x := s], x);
  }

  // ---------- unlinking ----------

  lemma {:induction false} SubConcat(t: Trie, path: Path, p: Path)
    requires ValidPath(t, path) && ValidPath(Sub(t, path), p)
    ensures ValidPath(t, path + p) && Sub(t, path + p) == Sub(Sub(t, path), p)
    decreases path
  {
    if path == [] {
      assert path + p == p;
    } else {
      assert (path + p)[1..] == path[1..] + p && (path + p)[0] == path[0];
      SubConcat(Child(t, path[0]), path[1..], p);
    }
  }

  /** Where chunk x sits, and what its links say about that. */
  lemma {:induction false} Locate(b: Bins, x: int) returns (i: nat, path: Path, j: nat)
    requires ValidBins(b) && x in b.contents
    ensures i < TREEBINS && ValidPath(b.trees[i], path)
    ensures var sub := Sub(b.trees[i], path);
            sub.Node? && j < |sub.chain| && sub.chain[j] == x && Stored(b.trees[i], x, b.contents[x])
    ensures x in b.mem && b.mem[x].index == i && x > 0 && b.mem[x].fd in b.mem && b.mem[x].bk in b.mem
    ensures var n := |Sub(b.trees[i], path).chain|;
            (b.mem[x].bk == x <==> n == 1)
            && (j > 0 ==> b.mem[x].parent == 0)
            && (j == 0 ==> b.mem[x].parent == ParentOf(b.trees[i], path, BinAddr(i)) != 0
                           && b.mem[x].bk == Sub(b.trees[i], path).chain[n - 1])
  {
    hide Rep, InRange, Distinct, UniqueSizes, BinsOk, InBin, TreeIndexOf;
    i := TreeIndexOf(b.contents[x]);
    var t := b.trees[i];
    StoredAddr(t, x, b.contents[x]);
    path := AddrStored(t, x);
    var sub := Sub(t, path);
    j :| 0 <= j < |sub.chain| && sub.chain[j] == x;
    BinOf(b, i);
    SubAddrs(t, path);
    DistinctParts(sub);
    RepSub(b.mem, BinAddr(i), i, t, path);
    Unfold(b.mem, ParentOf(t, path, BinAddr(i)), i, sub);
    assert ChainCell(b.mem, sub.chain, j, sub.size, i);
    assert ChainCell(b.mem, sub.chain, NextOf(j, |sub.chain|), sub.size, i);
    assert ChainCell(b.mem, sub.chain, PrevOf(j, |sub.chain|), sub.size, i);
    if path != [] {
      AboveNode(b.mem, BinAddr(i), i, t, path);
      RepAddrs(b.mem, BinAddr(i), i, t);
    }
  }

  /** The bin after unlinking, once memory represents the edited trie. */
  lemma {:induction false} UnlinkedBins(b: Bins, mem: Mem, treemap: nat, i: nat, path: Path, j: nat)
    requires ValidBins(b) && i < TREEBINS && ValidPath(b.trees[i], path)
    requires Sub(b.trees[i], path).Node? && j < |Sub(b.trees[i], path).chain|
    requires Sub(b.trees[i], path).chain[j] in b.contents
    requires Rep(mem, BinAddr(i), i, Unlinked(b.trees[i], path, j)) && Changed(b.mem, mem, Addrs(b.trees[i]))
    requires treemap == if Unlinked(b.trees[i], path, j).Node? then b.treemap else Clear(b.treemap, i)
    ensures ValidBins(Replaced(b, mem, treemap, i, Unlinked(b.trees[i], path, j),
                               b.contents - {Sub(b.trees[i], path).chain[j]}))
  {
    hide Rep, InRange, Distinct, UniqueSizes, BinsOk, ContentsOk, InBin, Unlinked, Changed;
    var t, x := b.trees[i], Sub(b.trees[i], path).chain[j];
    var t' := Unlinked(t, path, j);
    BinOf(b, i);
    NodeNotNil(t, path);
    UnlinkedBinOk(b.mem, mem, i, t, path, j);
    MarkOther(b.treemap, i);
    assert OtherMarks(b.treemap, b.treemap, i);
    SubAddrs(t, path);
    NodeStored(t, path, x, Sub(t, path).size);
    StoredInBin(b, i, x, Sub(t, path).size);
    StoredAddr(t, x, Sub(t, path).size);
    forall a, n
      ensures Stored(t', a, n) <==> Stored(t, a, n) && a != x
    {
      UnlinkedStored(t, path, j, a, n);
    }
    UnlinkContents(b, i, t', x);
    ChangedMore(b.mem, mem, Addrs(t), Addrs(t) + {x});
    ReplaceBin(b, mem, treemap, i, t', b.contents - {x}, x);
  }

  lemma {:induction false} NodeNotNil(t: Trie, path: Path)
    requires ValidPath(t, path) && Sub(t, path).Node?
    ensures t.Node?
  {
  }

  /** The memory after each of the four kinds of unlinking. */
  lemma {:induction false} InnerUnlinked(b: Bins, i: nat, path: Path, j: nat)
    requires ValidBins(b) && i < TREEBINS && ValidPath(b.trees[i], path)
    requires Sub(b.trees[i], path).Node? && 0 < j < |Sub(b.trees[i], path).chain|
    requires var x := Sub(b.trees[i], path).chain[j];
             x in b.contents && x in b.mem && b.mem[x].fd in b.mem && b.mem[x].bk in b.mem
    ensures var t', x := Unlinked(b.trees[i], path, j), Sub(b.trees[i], path).chain[j];
            && Root(t') == b.roots[i]
            && ValidBins(Replaced(b, RingRemove(b.mem, x), b.treemap, i, t', b.contents - {x}))
  {
    hide Rep, InRange, Distinct, UniqueSizes, BinsOk, ContentsOk, InBin, RingRemove, Changed;
    BinOf(b, i);
    UnlinkInner(b.mem, BinAddr(i), i, b.trees[i], path, j);
    RootKept(b.trees[i], path, Without(Sub(b.trees[i], path), j));
    UnlinkedBins(b, RingRemove(b.mem, Sub(b.trees[i], path).chain[j]), b.treemap, i, path, j);
  }

  lemma {:induction false} RootKept(t: Trie, path: Path, s: Trie)
    requires ValidPath(t, path) && s.Node? && Sub(t, path).Node?
    ensures Put(t, path, s).Node?
    ensures path == [] ==> Root(Put(t, path, s)) == Root(s)
    ensures path != [] || Root(s) == Root(Sub(t, path)) ==> Root(Put(t, path, s)) == Root(t)
  {
  }

  /** A replacement in mem1 that is ready: write the slot, transplant, and all bins are valid again. */
  lemma {:induction false} TakenOver(b: Bins, mem1: Mem, i: nat, path: Path)
    requires ValidBins(b) && i < TREEBINS && ValidPath(b.trees[i], path) && Sub(b.trees[i], path).Node?
    requires Sub(b.trees[i], path).chain != [] && Sub(b.trees[i], path).chain[0] in b.contents
    requires var sub := Sub(b.trees[i], path);
             Changed(b.mem, mem1, Addrs(sub)) && Ready(mem1, sub.chain[0], i, Without(sub, 0))
    ensures var sub := Sub(b.trees[i], path);
            var x, s, t' := sub.chain[0], Without(sub, 0), Unlinked(b.trees[i], path, 0);
            && s.Node? && s.chain != []
            && var r, xp := s.chain[0], ParentOf(b.trees[i], path, BinAddr(i));
            && var mem2 := SlotWritten(mem1, b.trees[i], path, r);
            && x in mem2 && r in mem2 && x != r && r != mem2[x].left && r != mem2[x].right
            && (mem2[x].left != 0 ==> mem2[x].left in mem2) && (mem2[x].right != 0 ==> mem2[x].right in mem2)
            && Root(t') == (if path == [] then r else b.roots[i])
            && ValidBins(Replaced(b, Transplant(mem2, x, r, xp), b.treemap, i, t', b.contents - {x}))
  {
    hide Rep, InRange, Distinct, UniqueSizes, BinsOk, ContentsOk, InBin, Changed, Ready, Transplant, Without;
    var t, sub := b.trees[i], Sub(b.trees[i], path);
    var s := Without(sub, 0);
    BinOf(b, i);
    SubAddrs(t, path);
    SubRange(t, BinLow(i), BinBits(i), path);
    WithoutParts(sub, 0, LowOf(BinLow(i), BinBits(i), path), BinBits(i) - |path|);
    assert sub.chain[0] in Members(sub.chain);
    TakeOver(b.mem, mem1, BinAddr(i), i, t, path, sub.chain[0], s);
    RootKept(t, path, s);
    var mem2 := SlotWritten(mem1, t, path, s.chain[0]);
    UnlinkedBins(b, Transplant(mem2, sub.chain[0], s.chain[0], ParentOf(t, path, BinAddr(i))), b.treemap, i, path, 0);
  }

  /** The last chunk of its size, with nothing below it: its slot becomes null. */
  lemma {:induction false} LeafUnlinked(b: Bins, i: nat, path: Path)
    requires ValidBins(b) && i < TREEBINS && ValidPath(b.trees[i], path) && Sub(b.trees[i], path).Node?
    requires |Sub(b.trees[i], path).chain| == 1 && LeafPath(Sub(b.trees[i], path)) == []
    requires Sub(b.trees[i], path).chain[0] in b.contents
    ensures var t', x := Unlinked(b.trees[i], path, 0), Sub(b.trees[i], path).chain[0];
            && Root(t') == (if path == [] then 0 else b.roots[i]) && (t'.Nil? <==> path == [])
            && ValidBins(Replaced(b, SlotWritten(b.mem, b.trees[i], path, 0),
                                  if path == [] then Clear(b.treemap, i) else b.treemap, i, t', b.contents - {x}))
  {
    hide Rep, InRange, Distinct, UniqueSizes, BinsOk, ContentsOk, InBin, Agree;
    var t, sub := b.trees[i], Sub(b.trees[i], path);
    assert Without(sub, 0) == Nil;
    BinOf(b, i);
    if path != [] { AboveNode(b.mem, BinAddr(i), i, t, path); }
    var mem := SlotWritten(b.mem, t, path, 0);
    SlotWrittenCells(b.mem, b.mem, t, path, 0);
    RepNil(mem, ParentOf(t, path, BinAddr(i)), i);
    assert Agree(b.mem, mem, Addrs(t) - Addrs(sub) - {ParentOf(t, path, BinAddr(i))}) by {
      if path != [] {
        AgreeBy(b.mem, mem, Addrs(t) - Addrs(sub) - {Root(Above(t, path))}, Addrs(sub) + {Root(Above(t, path))});
      } else {
        AgreeBy(b.mem, mem, Addrs(t) - Addrs(sub) - {BinAddr(i)}, {});
      }
    }
    PutRepAny(b.mem, mem, BinAddr(i), i, t, path, Nil);
    ChangedMore(b.mem, mem, Addrs(t) - Addrs(sub), Addrs(t));
    UnlinkedBins(b, mem, if path == [] then Clear(b.treemap, i) else b.treemap, i, path, 0);
  }

  /** After the ring has closed behind the tree's own node, its bk neighbour is ready to take over. */
  lemma {:induction false} AfterRing(b: Bins, i: nat, path: Path)
    requires ValidBins(b) && i < TREEBINS && ValidPath(b.trees[i], path) && Sub(b.trees[i], path).Node?
    requires |Sub(b.trees[i], path).chain| > 1
    ensures var sub := Sub(b.trees[i], path);
            var x := sub.chain[0];
            && x in b.mem && b.mem[x].fd in b.mem && b.mem[x].bk in b.mem
            && Changed(b.mem, RingRemove(b.mem, x), Addrs(sub))
            && Ready(RingRemove(b.mem, x), x, i, Without(sub, 0))
            && Without(sub, 0).chain[0] == b.mem[x].bk && b.mem[x].bk > 0
  {
    hide Rep, InRange, Distinct, UniqueSizes, BinsOk, ContentsOk, InBin, RingRemove, Changed, Ready;
    var t, sub := b.trees[i], Sub(b.trees[i], path);
    BinOf(b, i);
    SubAddrs(t, path);
    RepSub(b.mem, BinAddr(i), i, t, path);
    var par := ParentOf(t, path, BinAddr(i));
    RingNeighbours(b.mem, par, i, sub, 0);
    RingHeadReady(b.mem, par, i, sub);
    Unfold(b.mem, par, i, sub);
    assert ChainCell(b.mem, sub.chain, |sub.chain| - 1, sub.size, i);
  }

  /** After the rightmost leaf has been cut off, it is ready to take over. */
  lemma {:induction false} AfterCut(b: Bins, i: nat, path: Path)
    requires ValidBins(b) && i < TREEBINS && ValidPath(b.trees[i], path) && Sub(b.trees[i], path).Node?
    requires |Sub(b.trees[i], path).chain| == 1 && LeafPath(Sub(b.trees[i], path)) != []
    ensures var sub := Sub(b.trees[i], path);
            var p := LeafPath(sub);
            var q := Root(Above(sub, p));
            && q in b.mem
            && var mem1 := b.mem[q := SetChild(b.mem[q], p[|p| - 1], 0)];
            && Changed(b.mem, mem1, Addrs(sub))
            && Ready(mem1, sub.chain[0], i, Without(sub, 0))
            && Without(sub, 0).chain == Sub(sub, p).chain
  {
    hide Rep, InRange, Distinct, UniqueSizes, BinsOk, ContentsOk, InBin, Ready;
    var t, sub := b.trees[i], Sub(b.trees[i], path);
    BinOf(b, i);
    SubAddrs(t, path);
    RepSub(b.mem, BinAddr(i), i, t, path);
    CutLeafReady(b.mem, ParentOf(t, path, BinAddr(i)), i, sub);
  }

  /** Which slot of its parent a subtree hangs from, read off the parent's links. */
  lemma {:induction false} SlotSide(b: Bins, mem1: Mem, i: nat, path: Path)
    requires ValidBins(b) && i < TREEBINS && ValidPath(b.trees[i], path) && Sub(b.trees[i], path).Node?
    requires Changed(b.mem, mem1, Addrs(Sub(b.trees[i], path)))
    ensures var t := b.trees[i]; var x := Root(Sub(t, path));
            && (x == b.roots[i] <==> path == [])
            && (path != [] ==> var q := Root(Above(t, path));
                  q in mem1 && (mem1[q].left == x <==> !path[|path| - 1]))
  {
    hide Rep, InRange, UniqueSizes, BinsOk, ContentsOk, InBin, Distinct;
    var t := b.trees[i];
    BinOf(b, i);
    SubAddrs(t, path);
    var sub := Sub(t, path);
    DistinctParts(sub);
    assert sub.chain[0] in Members(sub.chain);
    if path != [] {
      AboveNode(b.mem, BinAddr(i), i, t, path);
      var p := Above(t, path);
      DistinctParts(p);
      RepAddrs(b.mem, BinAddr(i), i, t);
      SiblingRoots(p, path[|path| - 1]);
      RootOutside(t, path);
    }
  }

  lemma {:induction false} SiblingRoots(p: Trie, right: bool)
    requires p.Node? && Distinct(p) && Child(p, right).Node? && Root(Child(p, right)) != 0
    ensures Root(Child(p, !right)) != Root(Child(p, right))
  {
    var c, o := Child(p, right), Child(p, !right);
    assert c.chain[0] in Members(c.chain);
    if o.Node? { assert o.chain[0] in Members(o.chain); }
  }

  lemma {:induction false} RootOutside(t: Trie, path: Path)
    requires ValidPath(t, path) && path != [] && Distinct(t)
    ensures Root(t) !in Addrs(Sub(t, path))
  {
    SubAddrs(Child(t, path[0]), path[1..]);
    assert t.chain[0] in Members(t.chain);
  }

  // ---------- best fit ----------

  /** t is the address of the node at `path`, with the fields that address holds. */
  ghost predicate ReadsNode(b: Bins, i: nat, path: Path, t: int) {
    && Shape(b) && i < TREEBINS && ValidPath(b.trees[i], path) && Sub(b.trees[i], path).Node?
    && var sub := Sub(b.trees[i], path);
    && t == Root(sub) && t in b.mem && b.mem[t].size == sub.size < W
    && b.mem[t].left == Root(sub.left) && b.mem[t].right == Root(sub.right)
  }

  lemma {:induction false} ShowReads(b: Bins, i: nat, path: Path)
    requires ValidBins(b) && i < TREEBINS && ValidPath(b.trees[i], path) && Sub(b.trees[i], path).Node?
    ensures ReadsNode(b, i, path, Root(Sub(b.trees[i], path)))
  {
    hide BinsOk, ContentsOk, InRange, Distinct, UniqueSizes, Rep;
    DescentNode(b, i, path);
    BinOf(b, i);
    SubAddrs(b.trees[i], path);
    assert InBin(i, Sub(b.trees[i], path).size);
  }

  /** The best fit so far: none (with rsize the wrapped -nb), or chunk v with rsize bytes to spare. */
  ghost predicate Hit(t: Trie, nb: nat, v: int, rsize: nat) {
    && nb + rsize <= W
    && (v == 0 ==> nb + rsize == W)
    && (v != 0 ==> Stored(t, v, nb + rsize))
  }

  /** The loop invariant of the descent. */
  ghost predicate Searching(b: Bins, i: nat, nb: nat, path: Path, bits: nat, v: int, rsize: nat, rst: int, rest: Path) {
    && ValidBins(b) && InBin(i, nb)
    && var t, lo, k := b.trees[i], BinLow(i), BinBits(i);
    && ValidPath(t, path) && Sub(t, path).Node? && |path| <= k && ValidPath(t, rest)
    && SizeBits(bits, nb, LowOf(lo, k, path), k - |path|)
    && Hit(t, nb, v, rsize)
    && (rst != 0 ==> Sub(t, rest).Node? && rst == Root(Sub(t, rest)))
    && var r := if rst == 0 then Nil else Sub(t, rest);
    && Covered(Sizes(t), nb, nb + rsize, Sub(t, path), r)
    && Untaken(Sizes(t), nb, r, LowOf(lo, k, path), k - |path|)
  }

  /** What the descent leaves: every fitting size of the bin is covered by v or by the subtree at t. */
  ghost predicate Searched(b: Bins, i: nat, nb: nat, v: int, rsize: nat, t: int, rest: Path) {
    && ValidBins(b) && InBin(i, nb) && ValidPath(b.trees[i], rest)
    && Hit(b.trees[i], nb, v, rsize)
    && (t != 0 ==> Sub(b.trees[i], rest).Node? && t == Root(Sub(b.trees[i], rest)))
    && var r := if t == 0 then Nil else Sub(b.trees[i], rest);
    && Covered(Sizes(b.trees[i]), nb, nb + rsize, Nil, r)
    && (rsize != 0 ==> forall s :: s in Sizes(r) ==> nb < s)
  }

  lemma {:induction false} SearchStart(b: Bins, i: nat, nb: nat)
    requires ValidBins(b) && InBin(i, nb) && b.trees[i].Node?
    ensures i < TREEBINS && nb < W
    ensures Searching(b, i, nb, [], Shl32(nb, LeftShift(i)), 0, W - nb, 0, [])
    ensures ReadsNode(b, i, [], b.roots[i]) && b.roots[i] in b.mem
  {
    hide BinsOk, ContentsOk, Sizes;
    BinOf(b, i);
    InitialSizeBits(i, nb);
    ShowReads(b, i, []);
  }

  /** Accounting for the node itself; with nothing to spare the search is over. */
  lemma {:induction false} Improve(b: Bins, i: nat, nb: nat, path: Path, bits: nat, v: int, rsize: nat, rst: int, rest: Path)
    requires Searching(b, i, nb, path, bits, v, rsize, rst, rest)
    ensures nb < W && Sub(b.trees[i], path).size < W
    ensures var sub := Sub(b.trees[i], path);
            var trem := Sub32(sub.size, nb);
            var v', rsize' := if trem < rsize then Root(sub) else v, if trem < rsize then trem else rsize;
            && Searching(b, i, nb, path, bits, v', rsize', rst, rest)
            && (sub.size >= nb ==> nb + rsize' <= sub.size)
            && (trem < rsize && trem == 0 ==> Searched(b, i, nb, v', 0, Root(sub), path))
  {
    hide BinsOk, ContentsOk, Sizes, SizeBits, InRange, Distinct, UniqueSizes, Rep, LowOf, InBin, Untaken, BinLow, BinBits, Pow2;
    BinBound(i, nb);
    var t, sub := b.trees[i], Sub(b.trees[i], path);
    BinOf(b, i);
    WordSized(i, nb);
    ShowReads(b, i, path);
    NodePositive(b, i, path);
    SubAddrs(t, path);
    DistinctParts(sub);
    NodeStored(t, path, Root(sub), sub.size);
  }

  lemma {:induction false} WordSized(i: nat, nb: nat)
    requires InBin(i, nb)
    ensures nb < W
  {
  }

  /** What a step down keeps, in terms of the subtrees. */
  lemma {:induction false} DescendFacts(b: Bins, i: nat, nb: nat, path: Path, bits: nat, v: int, rsize: nat, rst: int, rest: Path)
    requires Searching(b, i, nb, path, bits, v, rsize, rst, rest) && rsize != 0
    requires var sub := Sub(b.trees[i], path); sub.size >= nb ==> nb + rsize <= sub.size
    ensures i < TREEBINS && |path| < BinBits(i)
    ensures var t, lo, k, right := b.trees[i], BinLow(i), BinBits(i), TopBit(bits);
            var sub := Sub(t, path);
            var r := if rst == 0 then Nil else Sub(t, rest);
            var r' := if sub.right.Node? && !right then sub.right else r;
            && ValidPath(t, path + [right]) && Sub(t, path + [right]) == Child(sub, right)
            && SizeBits((2 * bits) % W, nb, LowOf(lo, k, path + [right]), k - |path| - 1)
            && Covered(Sizes(t), nb, nb + rsize, Child(sub, right), r')
            && Untaken(Sizes(t), nb, r', LowOf(lo, k, path + [right]), k - |path| - 1)
  {
    hide BinsOk, ContentsOk, Sizes, SizeBits, InRange, Distinct, UniqueSizes, Rep, LowOf, InBin, Hit, Covered, Untaken, TopBit, BinLow, BinBits, Pow2, Addrs, Bit, LeastOf;
    BinBound(i, nb);
    BinOf(b, i);
    var t, lo, k := b.trees[i], BinLow(i), BinBits(i);
    var sub, low, m := Sub(t, path), LowOf(lo, k, path), k - |path|;
    SubRange(t, lo, k, path);
    SubAddrs(t, path);
    SizeBitsRange(bits, nb, low, m);
    NodeBits(sub, low, m, nb);
    TopBitIs(bits, nb, low, m);
    SubSnoc(t, path, TopBit(bits));
    LowSnoc(lo, k, path, TopBit(bits));
    SearchStep(Sizes(t), nb, nb + rsize, sub, if rst == 0 then Nil else Sub(t, rest), low, m, TopBit(bits));
  }

  /** The pointer test `rt != 0 && rt != t` finds exactly the untaken right sibling. */
  lemma {:induction false} UntakenSibling(b: Bins, i: nat, path: Path, right: bool)
    requires ValidBins(b) && i < TREEBINS && ValidPath(b.trees[i], path) && Sub(b.trees[i], path).Node?
    ensures var sub := Sub(b.trees[i], path);
            && (Root(sub.right) != 0 && Root(sub.right) != Root(Child(sub, right)) <==> sub.right.Node? && !right)
            && (Root(Child(sub, right)) == 0 <==> Child(sub, right).Nil?)
            && ValidPath(b.trees[i], path + [true]) && Sub(b.trees[i], path + [true]) == sub.right
  {
    hide BinsOk, ContentsOk, InRange, Distinct, UniqueSizes, Rep;
    BinOf(b, i);
    SubAddrs(b.trees[i], path);
    DescentNode(b, i, path);
    SubSnoc(b.trees[i], path, true);
    var sub := Sub(b.trees[i], path);
    if !right && sub.right.Node? { SiblingRoots(sub, true); }
  }

  /** The remembered right sibling after a step: its address and its path. */
  function NextRst(rt: int, next: int, rst: int): int {
    if rt != 0 && rt != next then rt else rst
  }

  function NextRest(rt: int, next: int, path: Path, rest: Path): Path {
    if rt != 0 && rt != next then path + [true] else rest
  }

  /** The subtree remembered after a step, both as the code sees it and as a trie. */
  lemma {:induction false} Remembered(b: Bins, i: nat, nb: nat, path: Path, bits: nat, v: int, rsize: nat, rst: int, rest: Path)
    requires Searching(b, i, nb, path, bits, v, rsize, rst, rest) && i < TREEBINS
    ensures var t, right := b.trees[i], TopBit(bits);
            var sub := Sub(t, path);
            var rt, next := Root(sub.right), Root(Child(sub, right));
            var rst', rest' := NextRst(rt, next, rst), NextRest(rt, next, path, rest);
            && ValidPath(t, rest')
            && (rst' != 0 ==> Sub(t, rest').Node? && rst' == Root(Sub(t, rest')))
            && (if rst' == 0 then Nil else Sub(t, rest'))
               == (if sub.right.Node? && !right then sub.right else if rst == 0 then Nil else Sub(t, rest))
            && (next == 0 <==> Child(sub, right).Nil?)
  {
    hide BinsOk, ContentsOk, Sizes, SizeBits, LowOf, InBin, Hit, Covered, Untaken, TopBit, BinLow, BinBits, Pow2, Addrs, Bit, LeastOf, Stored;
    UntakenSibling(b, i, path, TopBit(bits));
  }

  /** One step down: the search goes on in the child ... */
  lemma {:induction false} DescendOn(b: Bins, i: nat, nb: nat, path: Path, bits: nat, v: int, rsize: nat, rst: int, rest: Path)
    requires Searching(b, i, nb, path, bits, v, rsize, rst, rest) && rsize != 0
    requires var sub := Sub(b.trees[i], path);
             (sub.size >= nb ==> nb + rsize <= sub.size) && Child(sub, TopBit(bits)).Node?
    ensures i < TREEBINS && |path| < BinBits(i)
    ensures var sub, right := Sub(b.trees[i], path), TopBit(bits);
            var rt, next := Root(sub.right), Root(Child(sub, right));
            && Searching(b, i, nb, path + [right], (2 * bits) % W, v, rsize, NextRst(rt, next, rst), NextRest(rt, next, path, rest))
            && ReadsNode(b, i, path + [right], next)
  {
    hide BinsOk, ContentsOk, Sizes, SizeBits, LowOf, InBin, Hit, Covered, Untaken, TopBit, BinLow, BinBits, Pow2, Addrs, Bit, LeastOf, Stored, NextRst, NextRest, ReadsNode;
    DescendFacts(b, i, nb, path, bits, v, rsize, rst, rest);
    Remembered(b, i, nb, path, bits, v, rsize, rst, rest);
    ShowReads(b, i, path + [TopBit(bits)]);
  }

  /** ... or it ends at the remembered subtree. */
  lemma {:induction false} DescendEnd(b: Bins, i: nat, nb: nat, path: Path, bits: nat, v: int, rsize: nat, rst: int, rest: Path)
    requires Searching(b, i, nb, path, bits, v, rsize, rst, rest) && rsize != 0
    requires var sub := Sub(b.trees[i], path);
             (sub.size >= nb ==> nb + rsize <= sub.size) && Child(sub, TopBit(bits)).Nil?
    ensures var sub, right := Sub(b.trees[i], path), TopBit(bits);
            var rt, next := Root(sub.right), Root(Child(sub, right));
            Searched(b, i, nb, v, rsize, NextRst(rt, next, rst), NextRest(rt, next, path, rest))
  {
    hide BinsOk, ContentsOk, Sizes, SizeBits, LowOf, InBin, Hit, Covered, Untaken, TopBit, BinLow, BinBits, Pow2, Addrs, Bit, LeastOf, Stored, NextRst, NextRest;
    DescendFacts(b, i, nb, path, bits, v, rsize, rst, rest);
    Remembered(b, i, nb, path, bits, v, rsize, rst, rest);
    var t, right := b.trees[i], TopBit(bits);
    var sub := Sub(t, path);
    assert Child(sub, right) == Nil;
    var r' := if sub.right.Node? && !right then sub.right else if rst == 0 then Nil else Sub(t, rest);
    NoneLeft(Sizes(t), nb, r', LowOf(BinLow(i), BinBits(i), path + [right]), BinBits(i) - |path| - 1);
  }

  lemma {:induction false} Descend(b: Bins, i: nat, nb: nat, path: Path, bits: nat, v: int, rsize: nat, rst: int, rest: Path)
    requires Searching(b, i, nb, path, bits, v, rsize, rst, rest) && rsize != 0
    requires var sub := Sub(b.trees[i], path); sub.size >= nb ==> nb + rsize <= sub.size
    ensures var sub, right := Sub(b.trees[i], path), TopBit(bits);
            var rt, next := Root(sub.right), Root(Child(sub, right));
            var rst', rest' := NextRst(rt, next, rst), NextRest(rt, next, path, rest);
            && (next == 0 ==> Searched(b, i, nb, v, rsize, rst', rest'))
            && (next != 0 ==>
                  Searching(b, i, nb, path + [right], (2 * bits) % W, v, rsize, rst', rest')
                  && ReadsNode(b, i, path + [right], next) && |path| < BinBits(i))
  {
    hide Searching, Searched, TopBit, NextRst, NextRest, ReadsNode;
    ChildNull(b, i, nb, path, bits, v, rsize, rst, rest);
    var sub := Sub(b.trees[i], path);
    if Child(sub, TopBit(bits)).Node? {
      DescendOn(b, i, nb, path, bits, v, rsize, rst, rest);
    } else {
      DescendEnd(b, i, nb, path, bits, v, rsize, rst, rest);
    }
  }

  lemma {:induction false} ChildNull(b: Bins, i: nat, nb: nat, path: Path, bits: nat, v: int, rsize: nat, rst: int, rest: Path)
    requires Searching(b, i, nb, path, bits, v, rsize, rst, rest)
    ensures i < TREEBINS && |b.trees| == TREEBINS && ValidPath(b.trees[i], path) && Sub(b.trees[i], path).Node?
    ensures var c := Child(Sub(b.trees[i], path), TopBit(bits)); Root(c) == 0 <==> c.Nil?
  {
    hide BinsOk, ContentsOk, SizeBits, Hit, Covered, Untaken, TopBit;
    DescentNode(b, i, path);
  }

  lemma {:induction false} NoneLeft(all: set<nat>, nb: nat, rst: Trie, lo: nat, k: nat)
    requires Untaken(all, nb, rst, lo, k)
    ensures forall s :: s in Sizes(rst) ==> nb < s
  {
  }

  /** The least size from the start of the walk on is met already, or still ahead. */
  ghost predicate Walks(nb: nat, rsize: nat, start: Trie, cur: Trie) {
    start.Node? ==> nb + rsize <= LeastOf(start) || (cur.Node? && LeastOf(cur) == LeastOf(start)) || rsize == 0
  }

  lemma {:induction false} WalksStart(b: Bins, i: nat, nb: nat, start: Trie, path: Path)
    ensures forall rsize: nat :: Walks(nb, rsize, start, start)
  {
  }

  lemma {:induction false} WalksEnd(nb: nat, rsize: nat, start: Trie)
    requires Walks(nb, rsize, start, Nil)
    ensures start.Node? ==> nb + rsize <= LeastOf(start) || rsize == 0
  {
  }

  /** A node's own chunk, as a candidate. */
  lemma {:induction false} NodeIsHit(b: Bins, i: nat, p: Path, nb: nat)
    requires ValidBins(b) && i < TREEBINS && nb < W && ValidPath(b.trees[i], p) && Sub(b.trees[i], p).Node?
    ensures var cur := Sub(b.trees[i], p);
            && cur.size < W && Root(cur) > 0 && Stored(b.trees[i], Root(cur), cur.size)
            && (cur.size >= nb ==> Hit(b.trees[i], nb, Root(cur), Sub32(cur.size, nb)))
  {
    hide BinsOk, ContentsOk, InRange, Distinct, UniqueSizes, Rep, InBin, Addrs, Bit;
    var t, cur := b.trees[i], Sub(b.trees[i], p);
    BinOf(b, i);
    ShowReads(b, i, p);
    NodePositive(b, i, p);
    SubAddrs(t, p);
    DistinctParts(cur);
    NodeStored(t, p, Root(cur), cur.size);
  }

  lemma {:induction false} WalkOn(b: Bins, i: nat, nb: nat, v: int, rsize: nat, start: Trie, p: Path, rsize0: nat)
    requires ValidBins(b) && i < TREEBINS && nb < W && ValidPath(b.trees[i], p) && Sub(b.trees[i], p).Node?
    requires Hit(b.trees[i], nb, v, rsize) && rsize <= rsize0
    requires Walks(nb, rsize, start, Sub(b.trees[i], p))
    requires rsize0 != 0 ==> forall s :: s in Sizes(Sub(b.trees[i], p)) ==> nb <= s
    ensures var cur := Sub(b.trees[i], p);
            && Sub(b.trees[i], p).size < W
            && var trem := Sub32(cur.size, nb);
            && var v', rsize' := if trem < rsize then Root(cur) else v, if trem < rsize then trem else rsize;
            && var next, right := LeftmostChild(cur), cur.left.Nil?;
            && Hit(b.trees[i], nb, v', rsize') && rsize' <= rsize
            && Walks(nb, rsize', start, next)
            && (rsize0 != 0 ==> forall s :: s in Sizes(next) ==> nb <= s)
            && ValidPath(b.trees[i], p + [right]) && Sub(b.trees[i], p + [right]) == next
            && (Root(next) == 0 <==> next.Nil?)
            && (Root(cur.left) != 0 <==> cur.left.Node?)
            && (next.Node? ==> ReadsNode(b, i, p + [right], Root(next)))
  {
    hide BinsOk, ContentsOk, InRange, Distinct, UniqueSizes, Rep, InBin, Addrs, Bit, Stored;
    var t, cur := b.trees[i], Sub(b.trees[i], p);
    ShowReads(b, i, p);
    DescentNode(b, i, p);
    NodeIsHit(b, i, p, nb);
    SizesOfChildren(cur);
    SubSnoc(t, p, cur.left.Nil?);
    if LeftmostChild(cur).Node? { ShowReads(b, i, p + [cur.left.Nil?]); }
  }

  lemma {:induction false} LeastInSizes(t: Trie)
    requires t.Node?
    ensures LeastOf(t) in Sizes(t)
  {
    if LeftmostChild(t).Node? { LeastInSizes(LeftmostChild(t)); }
  }

  /** v is the best fit within bin i. */
  ghost predicate BestIn(b: Bins, i: nat, nb: nat, v: int, rsize: nat) {
    && Shape(b) && i < TREEBINS && v != 0 && Stored(b.trees[i], v, nb + rsize)
    && forall s :: s in Sizes(b.trees[i]) && nb <= s ==> nb + rsize <= s
  }

  /** No chunk of the bins from idx up to (not including) bin fits. */
  ghost predicate NoneBelow(b: Bins, idx: nat, bin: nat, nb: nat) {
    && Shape(b) && idx <= bin <= TREEBINS
    && forall j, s :: idx <= j < bin && s in Sizes(b.trees[j]) ==> s < nb
  }

  lemma {:induction false} RootNull(b: Bins, i: nat, nb: nat)
    requires ValidBins(b) && InBin(i, nb)
    ensures b.roots[i] == 0 <==> b.trees[i].Nil?
    ensures nb < W && Hit(b.trees[i], nb, 0, W - nb)
    ensures b.trees[i].Nil? ==> Searched(b, i, nb, 0, W - nb, 0, [])
  {
    hide BinsOk, ContentsOk, Rep, InRange, Distinct, UniqueSizes, LeastOf;
    BinOf(b, i);
    RepAddrs(b.mem, BinAddr(i), i, b.trees[i]);
  }

  lemma {:induction false} NoneInBin(b: Bins, i: nat, nb: nat, rsize: nat, rest: Path)
    requires Searched(b, i, nb, 0, rsize, 0, rest)
    ensures i < TREEBINS && nb + rsize == W && NoneBelow(b, i, i + 1, nb)
    ensures Hit(b.trees[i], nb, 0, rsize)
  {
    hide BinsOk, ContentsOk, InRange, Distinct, UniqueSizes, Rep, Stored;
    BinOf(b, i);
    assert forall s :: s in Sizes(b.trees[i]) ==> InBin(i, s);
  }

  lemma {:induction false} SearchedStart(b: Bins, i: nat, nb: nat, v: int, rsize: nat, t: int, rest: Path)
    requires Searched(b, i, nb, v, rsize, t, rest)
    ensures i < TREEBINS && nb < W && ValidPath(b.trees[i], rest) && Hit(b.trees[i], nb, v, rsize)
    ensures t != 0 ==> Sub(b.trees[i], rest).Node? && t == Root(Sub(b.trees[i], rest))
    ensures t != 0 && rsize != 0 ==> forall s :: s in Sizes(Sub(b.trees[i], rest)) ==> nb <= s
    ensures NoneBelow(b, i, i, nb)
  {
  }

  lemma {:induction false} FinishSearch(b: Bins, i: nat, nb: nat, v0: int, rsize0: nat, t: int, rest: Path, v: int, rsize: nat)
    requires Searched(b, i, nb, v0, rsize0, t, rest) && (t != 0 || v0 != 0)
    requires Hit(b.trees[i], nb, v, rsize) && rsize <= rsize0
    requires t != 0 && rsize0 != 0 ==> nb + rsize <= LeastOf(Sub(b.trees[i], rest))
    ensures BestIn(b, i, nb, v, rsize)
  {
    hide BinsOk, ContentsOk, InRange, Distinct, UniqueSizes, Rep, Stored, LeastOf, Addrs, Bit;
    BinOf(b, i);
    assert forall s :: s in Sizes(b.trees[i]) ==> InBin(i, s);
    if v0 != 0 { StoredAddr(b.trees[i], v0, nb + rsize0); }
    if t != 0 {
      LeastInSizes(Sub(b.trees[i], rest));
      SubAddrs(b.trees[i], rest);
    }
  }

  /** The least mark above idx: the next non-empty bin, whose chunks all exceed nb. */
  lemma {:induction false} NextBin(b: Bins, idx: nat, nb: nat)
    requires ValidBins(b) && InBin(idx, nb) && NoneBelow(b, idx, idx + 1, nb)
    ensures IdxBit(idx) < W
    ensures var m := And(LeftBits(IdxBit(idx)), b.treemap);
            && m < W
            && (m == 0 ==> NoneBelow(b, idx, TREEBINS, nb) && forall a :: a in b.contents ==> b.contents[a] < nb)
            && (m > 0 ==>
                  && LeastBit(m) > 0
                  && var bin := Ffs(LeastBit(m));
                  && idx < bin < TREEBINS && NoneBelow(b, idx, bin, nb)
                  && b.trees[bin].Node? && b.roots[bin] == Root(b.trees[bin]) != 0
                  && Hit(b.trees[bin], nb, 0, W - nb)
                  && forall s :: s in Sizes(b.trees[bin]) ==> nb < s)
  {
    hide BinsOk, ContentsOk, Bit, And, LeftBits, LeastBit, InBin, Ffs, Pow2;
    BinBound(idx, nb);
    MarksAbove(b.treemap, idx, idx);
    var m := And(LeftBits(IdxBit(idx)), b.treemap);
    AndBoundRight(LeftBits(IdxBit(idx)), b.treemap);
    if m == 0 {
      forall j | idx < j < TREEBINS
        ensures b.trees[j].Nil?
      {
        MarksAbove(b.treemap, idx, j);
        ZeroBit(j);
        BinMarked(b, j);
      }
      NoneAnywhere(b, idx, nb);
    } else {
      LowestMark(m);
      var bin := Ffs(LeastBit(m));
      MarksAbove(b.treemap, idx, bin);
      forall j | idx < j < bin
        ensures b.trees[j].Nil?
      {
        MarksAbove(b.treemap, idx, j);
        BinMarked(b, j);
      }
      HigherBin(b, idx, bin, nb);
    }
  }

  lemma {:induction false} HigherBin(b: Bins, idx: nat, bin: nat, nb: nat)
    requires ValidBins(b) && InBin(idx, nb) && idx < bin < TREEBINS && Bit(b.treemap, bin)
    ensures b.trees[bin].Node? && b.roots[bin] == Root(b.trees[bin]) != 0
    ensures nb < W && Hit(b.trees[bin], nb, 0, W - nb)
    ensures forall s :: s in Sizes(b.trees[bin]) ==> nb < s
  {
    hide BinsOk, ContentsOk, Rep, InRange, Distinct, UniqueSizes, Bit;
    BinOf(b, bin);
    RepAddrs(b.mem, BinAddr(bin), bin, b.trees[bin]);
    forall s | s in Sizes(b.trees[bin])
      ensures nb < s
    {
      BinUnique(idx, bin, nb, s);
    }
  }

  lemma {:induction false} NoneAnywhere(b: Bins, idx: nat, nb: nat)
    requires ValidBins(b) && InBin(idx, nb) && NoneBelow(b, idx, idx + 1, nb)
    requires forall j :: idx < j < TREEBINS ==> b.trees[j].Nil?
    ensures NoneBelow(b, idx, TREEBINS, nb)
    ensures forall a :: a in b.contents ==> b.contents[a] < nb
  {
    hide BinsOk, TreeIndexOf, InBin;
    BinBound(idx, nb);
    forall a | a in b.contents
      ensures b.contents[a] < nb
    {
      var n := b.contents[a];
      var j := TreeIndexOf(n);
      TreeIndexInBin(n);
      StoredAddr(b.trees[j], a, n);
      if j < idx { BinUnique(j, idx, n, nb); }
    }
  }

  lemma {:induction false} FinishHigher(b: Bins, bin: nat, nb: nat, v: int, rsize: nat)
    requires ValidBins(b) && bin < TREEBINS && b.trees[bin].Node?
    requires Hit(b.trees[bin], nb, v, rsize) && nb + rsize <= LeastOf(b.trees[bin])
    ensures BestIn(b, bin, nb, v, rsize)
  {
    hide BinsOk, ContentsOk, Rep, Distinct, UniqueSizes, Bit, Stored, InRange;
    BinOf(b, bin);
    LeastIsMinimum(b.trees[bin], BinLow(bin), BinBits(bin));
    assert InBin(bin, LeastOf(b.trees[bin]));
  }

  /** Best in its bin, with nothing that fits in the bins before it: best of all. */
  lemma {:induction false} BestOverall(b: Bins, idx: nat, bin: nat, nb: nat, v: int, rsize: nat)
    requires ValidBins(b) && InBin(idx, nb) && BestIn(b, bin, nb, v, rsize) && NoneBelow(b, idx, bin, nb)
    ensures v != 0 && v in b.contents && b.contents[v] == nb + rsize
    ensures forall a :: a in b.contents && nb <= b.contents[a] ==> b.contents[v] <= b.contents[a]
  {
    hide BinsOk, TreeIndexOf, InBin;
    StoredInBin(b, bin, v, nb + rsize);
    forall a | a in b.contents && nb <= b.contents[a]
      ensures nb + rsize <= b.contents[a]
    {
      var n := b.contents[a];
      var j := TreeIndexOf(n);
      TreeIndexInBin(n);
      StoredAddr(b.trees[j], a, n);
      if j < idx {
        BinUnique(j, idx, n, nb);
      } else if j > bin {
        BinUnique(bin, j, nb + rsize, n);
      }
    }
  }

  /** The two situations in which the leftmost walk starts. */
  ghost predicate WalkReady(b: Bins, nb: nat, bin: nat, v: int, rsize: nat, t: int, rest: Path) {
    && ValidBins(b) && 0x100 <= nb < W && bin < TREEBINS
    && var idx := TreeIndexOf(nb);
    && InBin(idx, nb) && NoneBelow(b, idx, bin, nb)
    && (bin == idx ==> Searched(b, bin, nb, v, rsize, t, rest) && (t != 0 || v != 0))
    && (bin != idx ==> v == 0 && rsize == W - nb && rest == [] && b.trees[bin].Node?
                       && t == Root(b.trees[bin]) != 0 && forall s :: s in Sizes(b.trees[bin]) ==> nb < s)
  }

  lemma {:induction false} NextReady(b: Bins, idx: nat, nb: nat)
    requires ValidBins(b) && 0x100 <= nb < W && idx == TreeIndexOf(nb) && InBin(idx, nb) && NoneBelow(b, idx, idx + 1, nb)
    requires IdxBit(idx) < W && And(LeftBits(IdxBit(idx)), b.treemap) > 0
    ensures var m := And(LeftBits(IdxBit(idx)), b.treemap);
            && m < W && LeastBit(m) > 0
            && var bin := Ffs(LeastBit(m));
            && bin < TREEBINS && WalkReady(b, nb, bin, 0, W - nb, b.roots[bin], [])
  {
    hide BinsOk, ContentsOk, InBin, LeftBits, And, LeastBit, NoneBelow, TreeIndexOf, Searched;
    NextBin(b, idx, nb);
  }

  lemma {:induction false} SearchedReady(b: Bins, idx: nat, nb: nat, v: int, rsize: nat, t: int, rest: Path)
    requires 0x100 <= nb < W && idx == TreeIndexOf(nb) && Searched(b, idx, nb, v, rsize, t, rest) && (t != 0 || v != 0)
    ensures WalkReady(b, nb, idx, v, rsize, t, rest)
  {
    hide BinsOk, ContentsOk, TreeIndexOf;
    SearchedStart(b, idx, nb, v, rsize, t, rest);
  }

  lemma {:induction false} WalkStarts(b: Bins, nb: nat, bin: nat, v: int, rsize: nat, t: int, rest: Path)
    requires WalkReady(b, nb, bin, v, rsize, t, rest)
    ensures bin < TREEBINS && ValidPath(b.trees[bin], rest) && Hit(b.trees[bin], nb, v, rsize)
    ensures t != 0 ==> Sub(b.trees[bin], rest).Node? && t == Root(Sub(b.trees[bin], rest))
    ensures t != 0 && rsize != 0 ==> forall s :: s in Sizes(Sub(b.trees[bin], rest)) ==> nb <= s
  {
    hide BinsOk, ContentsOk, TreeIndexOf, NoneBelow, Searched;
    if bin == TreeIndexOf(nb) { SearchedStart(b, bin, nb, v, rsize, t, rest); }
  }

  lemma {:induction false} WalkFinds(b: Bins, nb: nat, bin: nat, v0: int, rsize0: nat, t: int, rest: Path, v: int, rsize: nat)
    requires WalkReady(b, nb, bin, v0, rsize0, t, rest)
    requires bin < TREEBINS && ValidPath(b.trees[bin], rest) && (t != 0 ==> Sub(b.trees[bin], rest).Node?)
    requires Hit(b.trees[bin], nb, v, rsize) && rsize <= rsize0
    requires t != 0 && rsize0 != 0 ==> nb + rsize <= LeastOf(Sub(b.trees[bin], rest))
    ensures v != 0 && v in b.contents && b.contents[v] == nb + rsize
    ensures forall a :: a in b.contents && nb <= b.contents[a] ==> b.contents[v] <= b.contents[a]
  {
    hide BinsOk, ContentsOk, TreeIndexOf, NoneBelow, Searched, LeastOf, Hit, BestIn;
    var idx := TreeIndexOf(nb);
    if bin == idx {
      FinishSearch(b, bin, nb, v0, rsize0, t, rest, v, rsize);
    } else {
      FinishHigher(b, bin, nb, v, rsize);
    }
    BestOverall(b, idx, bin, nb, v, rsize);
  }

  /** The lowest marked bin is the first non-empty one; some bin is marked exactly when a chunk is binned. */
  lemma {:induction false} LowestBin(b: Bins)
    requires ValidBins(b) && b.treemap != 0
    ensures LeastBit(b.treemap) > 0
    ensures var i := Ffs(LeastBit(b.treemap));
            && i < TREEBINS && b.trees[i].Node? && b.roots[i] == Root(b.trees[i])
            && (forall j :: 0 <= j < i ==> b.trees[j].Nil?)
            && (forall s :: s in Sizes(b.trees[i]) ==> 0x100 <= s)
  {
    hide BinsOk, ContentsOk, Bit, LeastBit;
    LowestMark(b.treemap);
    var i := Ffs(LeastBit(b.treemap));
    BinMarked(b, i);
    forall j | 0 <= j < i
      ensures b.trees[j].Nil?
    {
      BinMarked(b, j);
    }
    BinOf(b, i);
    forall s | s in Sizes(b.trees[i])
      ensures 0x100 <= s
    {
      LargeSizes(i, s);
    }
  }

  lemma {:induction false} SmallestOverall(b: Bins, i: nat, nb: nat, v: int, rsize: nat)
    requires ValidBins(b) && nb < 0x100 && i < TREEBINS && b.trees[i].Node?
    requires forall j :: 0 <= j < i ==> b.trees[j].Nil?
    requires Hit(b.trees[i], nb, v, rsize) && nb + rsize <= b.trees[i].size
    requires var next := LeftmostChild(b.trees[i]); next.Node? ==> nb + rsize <= LeastOf(next)
    ensures v in b.contents && b.contents[v] == nb + rsize
    ensures forall a :: a in b.contents ==> b.contents[v] <= b.contents[a]
  {
    hide BinsOk, TreeIndexOf, InBin, Rep, Distinct, UniqueSizes, InRange;
    var t := b.trees[i];
    BinOf(b, i);
    LeastIsMinimum(t, BinLow(i), BinBits(i));
    assert InBin(i, t.size);
    BinBelowWord(i, t.size);
    StoredInBin(b, i, v, nb + rsize);
    forall a | a in b.contents
      ensures nb + rsize <= b.contents[a]
    {
      var n := b.contents[a];
      var j := TreeIndexOf(n);
      TreeIndexInBin(n);
      StoredAddr(b.trees[j], a, n);
      if j > i { BinUnique(i, j, nb + rsize, n); }
    }
  }

  lemma {:induction false} BinBelowWord(i: nat, s: nat)
    requires InBin(i, s)
    ensures s < W
  {
  }

  /** The treemap is empty exactly when no chunk is binned. */
  lemma {:induction false} EmptyIff(b: Bins)
    requires ValidBins(b)
    ensures b.treemap == 0 <==> b.contents == map[]
  {
    hide BinsOk, Bit, InBin, TreeIndexOf, LeastBit;
    if b.treemap != 0 {
      LowestBin(b);
      var i := Ffs(LeastBit(b.treemap));
      BinOf(b, i);
      var a := SizeStored(b.trees[i], b.trees[i].size);
    } else {
      forall a | a in b.contents
        ensures false
      {
        var j := TreeIndexOf(b.contents[a]);
        ZeroBit(j);
        BinMarked(b, j);
      }
      assert b.contents == map[];
    }
  }

  class LargeBins {
    var mem: Mem
    var treemap: nat
    var roots: seq<int>
    ghost var trees: seq<Trie>
    ghost var contents: map<int, nat>

    ghost function State(): Bins
      reads this
    {
      Bins(mem, treemap, roots, trees, contents)
    }

    ghost predicate Valid()
      reads this
    {
      ValidBins(State())
    }

    constructor ()
      ensures Valid() && contents == map[]
    {
      mem, treemap := map[], 0;
      roots, trees := seq(TREEBINS, i => 0), seq(TREEBINS, i => Nil);
      contents := map[];
      new;
      forall i: nat | i < TREEBINS
        ensures BinOk(mem, roots[i], Bit(treemap, i), i, trees[i])
      {
        ZeroBit(i);
      }
    }

    /**
     * The descent of insert_large_chunk: ends at the node of size s if there is one, and
     * otherwise at the node whose child slot on s's side is empty.
     */
    method FindSlot(i: nat, s: nat) returns (node: int, right: bool, found: bool, ghost path: Path)
      requires Valid() && InBin(i, s) && trees[i].Node?
      ensures ValidPath(trees[i], path) && Sub(trees[i], path).Node? && node == Root(Sub(trees[i], path))
      ensures found ==> Sub(trees[i], path).size == s
      ensures !found ==>
                && s !in Sizes(trees[i]) && Child(Sub(trees[i], path), right).Nil? && |path| < BinBits(i)
                && var lo := LowOf(BinLow(i), BinBits(i), path + [right]);
                   lo <= s < lo + Pow2(BinBits(i) - |path| - 1)
    {
      hide TopBit, SizeBits, Rep, InRange, Distinct, UniqueSizes, BinsOk, ContentsOk, Sizes;
      ghost var t := trees[i];
      ghost var lo, k := BinLow(i), BinBits(i);
      path, found, right := [], false, false;
      node := roots[i];
      BinOf(State(), i);
      var bits: nat := Shl32(s, LeftShift(i));
      InitialSizeBits(i, s);
      while true
        invariant ValidPath(t, path) && Sub(t, path).Node? && node == Root(Sub(t, path)) && |path| <= k
        invariant SizeBits(bits, s, LowOf(lo, k, path), k - |path|)
        invariant s in Sizes(t) ==> s in Sizes(Sub(t, path))
        decreases k - |path|
      {
        DescentNode(State(), i, path);
        if mem[node].size == s {
          found := true;
          return;
        }
        right := TopBit(bits);
        DescentStep(t, lo, k, path, s, bits);
        bits := (2 * bits) % W;
        var next := if right then mem[node].right else mem[node].left;
        if next == 0 {
          EmptySlot(t, lo, k, path + [right], s, bits);
          return;
        }
        node, path := next, path + [right];
      }
    }

    /** `insert_large_chunk` */
    method Insert(x: int, s: nat)
      requires Valid() && x > 0 && x !in contents && 0x100 <= s < W
      modifies this
      ensures Valid()
      ensures contents == old(contents)[x := s]
    {
      hide Rep, InRange, Distinct, UniqueSizes, BinsOk, ContentsOk, BinOk, Stored, InBin;
      ghost var b := State();
      var i := TreeIndexOf(s);
      TreeIndexInBin(s);
      BinBound(i, s);
      BinMarked(b, i);
      if !Bit(treemap, i) {
        ghost var t := InsertedRoot(b, i, x, s);
        treemap := Mark(treemap, i);
        roots := roots[i := x];
        mem := mem[x := LeafCell(x, s, BinAddr(i), i)];
        trees, contents := trees[i := t], contents[x := s];
      } else {
        var node, right, found, path := FindSlot(i, s);
        if found {
          ghost var t := InsertedChain(b, i, path, x, s);
          var f := mem[node].fd;
          mem := mem[node := mem[node].(fd := x)];
          mem := mem[f := mem[f].(bk := x)];
          mem := mem[x := Cell(s, f, node, 0, 0, 0, i)];
          trees, contents := trees[i := t], contents[x := s];
        } else {
          ghost var t := InsertedLeaf(b, i, path, right, x, s);
          mem := mem[node := SetChild(mem[node], right, x)];
          mem := mem[x := LeafCell(x, s, node, i)];
          trees, contents := trees[i := t], contents[x := s];
        }
        assert roots == roots[i := Root(trees[i])];
      }
    }

    /**
     * Step 2 of unlink_large_chunk: find the rightmost leaf below x, clear the slot that holds
     * it, and return it; return null when x has no children.
     */
    method CutLeaf(x: int, ghost i: nat, ghost path: Path) returns (r: int)
      requires Valid() && i < TREEBINS && ValidPath(trees[i], path) && Sub(trees[i], path).Node?
      requires x == Root(Sub(trees[i], path))
      modifies this`mem
      ensures var sub := Sub(trees[i], path);
              var p := LeafPath(sub);
              && (p == [] ==> r == 0 && mem == old(mem))
              && (p != [] ==> var q := Root(Above(sub, p));
                    && q in old(mem) && mem == old(mem)[q := SetChild(old(mem)[q], p[|p| - 1], 0)]
                    && r == Root(Sub(sub, p)) && r != 0)
    {
      hide BinsOk, ContentsOk, Walking;
      ghost var b := State();
      DescentNode(b, i, path);
      r := mem[x].right;
      var q, right := x, true;
      if r == 0 {
        r, right := mem[x].left, false;
        if r == 0 {
          LeafPathStep(Sub(trees[i], path));
          return;
        }
      }
      ghost var p: Path := [right];
      WalkStart(b, i, path, right);
      while mem[r].right != 0 || mem[r].left != 0
        invariant mem == old(mem) && r in mem && r != 0
        invariant Walking(b, i, path, p, q, right, r)
        decreases LeafDistance(b, i, path, p)
      {
        WalkStep(b, i, path, p, q, right, r);
        q, right := r, mem[r].right != 0;
        r := if right then mem[r].right else mem[r].left;
        p := p + [right];
      }
      WalkEnd(b, i, path, p, q, right, r);
      mem := mem[q := SetChild(mem[q], right, 0)];
    }

    /** The slot that held x now holds r: the bin itself, or x's side of its parent. */
    method WriteSlot(x: int, i: nat, xp: int, r: int)
      requires i < |roots| && i < TREEBINS && (x != roots[i] ==> xp in mem)
      modifies this`mem, this`roots, this`treemap
      ensures x == old(roots)[i] ==>
                roots == old(roots)[i := r] && mem == old(mem)
                && treemap == if r == 0 then Clear(old(treemap), i) else old(treemap)
      ensures x != old(roots)[i] ==>
                roots == old(roots) && treemap == old(treemap)
                && mem == old(mem)[xp := SetChild(old(mem)[xp], old(mem)[xp].left != x, r)]
    {
      if x == roots[i] {
        roots := roots[i := r];
        if r == 0 { treemap := Clear(treemap, i); }
      } else if mem[xp].left == x {
        mem := mem[xp := mem[xp].(left := r)];
      } else {
        mem := mem[xp := mem[xp].(right := r)];
      }
    }

    /** R takes over X's parent and children. */
    method Relink(x: int, r: int, xp: int)
      requires x in mem && r in mem && x != r && r != mem[x].left && r != mem[x].right
      requires mem[x].left != 0 ==> mem[x].left in mem
      requires mem[x].right != 0 ==> mem[x].right in mem
      modifies this`mem
      ensures mem == Transplant(old(mem), x, r, xp)
    {
      mem := mem[r := mem[r].(parent := xp)];
      var c0 := mem[x].left;
      if c0 != 0 {
        mem := mem[r := mem[r].(left := c0)];
        mem := mem[c0 := mem[c0].(parent := r)];
      }
      var c1 := mem[x].right;
      if c1 != 0 {
        mem := mem[r := mem[r].(right := c1)];
        mem := mem[c1 := mem[c1].(parent := r)];
      }
    }

    /** Step 3 of unlink_large_chunk: r (ready, or null when nothing was below x) takes x's place. */
    method FinishUnlink(x: int, i: nat, xp: int, r: int, ghost b: Bins, ghost path: Path)
      requires ValidBins(b) && treemap == b.treemap && roots == b.roots && x in b.contents
      requires i < TREEBINS && ValidPath(b.trees[i], path) && Sub(b.trees[i], path).Node?
      requires Sub(b.trees[i], path).chain != [] && x == Sub(b.trees[i], path).chain[0]
      requires xp == ParentOf(b.trees[i], path, BinAddr(i))
      requires Replacement(b, mem, i, path, r)
      modifies this`mem, this`roots, this`treemap
      ensures ValidBins(Bins(mem, treemap, roots, b.trees[i := Unlinked(b.trees[i], path, 0)], b.contents - {x}))
    {
      hide BinsOk, ContentsOk, Stored, Ready, Transplant, Unlinked, Changed, SlotWritten;
      SlotSide(b, mem, i, path);
      if r != 0 { TakenOver(b, mem, i, path); } else { LeafUnlinked(b, i, path); }
      ghost var mem1 := mem;
      WriteSlot(x, i, xp, r);
      assert mem == SlotWritten(mem1, b.trees[i], path, r) by { SlotIs(mem1, b.trees[i], path, xp, r); }
      if r != 0 {
        Relink(x, r, xp);
      }
      assert roots == b.roots[i := Root(Unlinked(b.trees[i], path, 0))];
    }

    /** `unlink_large_chunk` */
    method Unlink(x: int)
      requires Valid() && x in contents
      modifies this
      ensures Valid()
      ensures contents == old(contents) - {x}
    {
      hide BinsOk, ContentsOk, Stored, Unlinked, Replacement;
      ghost var b := State();
      ghost var bin, path, j := Locate(b, x);
      var i := mem[x].index;
      var xp := mem[x].parent;
      var r;
      if mem[x].bk != x {
        var f := mem[x].fd;
        r := mem[x].bk;
        mem := mem[f := mem[f].(bk := r)];
        mem := mem[r := mem[r].(fd := f)];
        if j == 0 { RingReplacement(b, i, path); }
      } else {
        r := CutLeaf(x, i, path);
        CutReplacement(b, mem, i, path, r);
      }
      if xp != 0 {
        FinishUnlink(x, i, xp, r, b, path);
      } else {
        InnerUnlinked(b, i, path, j);
        assert roots == b.roots[i := Root(Unlinked(b.trees[i], path, j))];
      }
      trees := trees[i := Unlinked(b.trees[i], path, j)];
      contents := contents - {x};
    }

    /** The first loop of tmalloc_large: follow nb's bits down bin i, keeping the best node and the last right sibling. */
    method SearchBin(i: nat, nb: nat) returns (v: int, rsize: nat, t: int, ghost rest: Path)
      requires Valid() && InBin(i, nb) && trees[i].Node?
      ensures Searched(State(), i, nb, v, rsize, t, rest)
    {
      hide BinsOk, ContentsOk, Searching, Searched, InBin, TopBit;
      ghost var b := State();
      ghost var path: Path := [];
      SearchStart(b, i, nb);
      v, rsize, t := 0, W - nb, roots[i];
      var rst := 0;
      rest := [];
      var bits: nat := Shl32(nb, LeftShift(i));
      while true
        invariant Searching(b, i, nb, path, bits, v, rsize, rst, rest)
        invariant i < TREEBINS && t in mem && nb < W && rsize > 0
        invariant ReadsNode(b, i, path, t)
        decreases BinBits(i) - |path|
      {
        var trem := Sub32(mem[t].size, nb);
        Improve(b, i, nb, path, bits, v, rsize, rst, rest);
        if trem < rsize {
          v, rsize := t, trem;
          if rsize == 0 {
            rest := path;
            return;
          }
        }
        var right := TopBit(bits);
        var rt := mem[t].right;
        Descend(b, i, nb, path, bits, v, rsize, rst, rest);
        t := if right then mem[t].right else mem[t].left;
        if rt != 0 && rt != t {
          rst, rest := rt, path + [true];
        }
        if t == 0 {
          t := rst;
          return;
        }
        bits, path := (2 * bits) % W, path + [right];
      }
    }

    /** The second loop of tmalloc_large: from t, step to the leftmost child, keeping the best node met. */
    method LeftmostWalk(i: nat, nb: nat, v0: int, rsize0: nat, t0: int, ghost path: Path) returns (v: int, rsize: nat)
      requires Valid() && i < TREEBINS && nb < W && ValidPath(trees[i], path)
      requires Hit(trees[i], nb, v0, rsize0)
      requires t0 != 0 ==> Sub(trees[i], path).Node? && t0 == Root(Sub(trees[i], path))
      requires t0 != 0 && rsize0 != 0 ==> forall s :: s in Sizes(Sub(trees[i], path)) ==> nb <= s
      ensures Hit(trees[i], nb, v, rsize) && rsize <= rsize0
      ensures t0 != 0 && rsize0 != 0 ==> nb + rsize <= LeastOf(Sub(trees[i], path))
    {
      hide BinsOk, ContentsOk, Stored, LeastOf, Walks;
      ghost var b := State();
      ghost var start := if t0 == 0 then Nil else Sub(trees[i], path);
      ghost var p, cur := path, start;
      v, rsize := v0, rsize0;
      var t := t0;
      if t != 0 { ShowReads(b, i, path); }
      WalksStart(b, i, nb, start, path);
      while t != 0
        invariant Hit(trees[i], nb, v, rsize) && rsize <= rsize0
        invariant t != 0 ==> ReadsNode(b, i, p, t) && cur == Sub(trees[i], p)
        invariant t == 0 ==> cur == Nil
        invariant Walks(nb, rsize, start, cur)
        invariant rsize0 != 0 ==> forall s :: s in Sizes(cur) ==> nb <= s
        decreases cur
      {
        var trem := Sub32(mem[t].size, nb);
        WalkOn(b, i, nb, v, rsize, start, p, rsize0);
        if trem < rsize {
          rsize, v := trem, t;
        }
        ghost var right := cur.left.Nil?;
        t := if mem[t].left != 0 then mem[t].left else mem[t].right;
        p, cur := p + [right], LeftmostChild(cur);
      }
      WalksEnd(nb, rsize, start);
      if start.Node? { LeastInSizes(start); }
    }

    /** Where the leftmost walk of tmalloc_large starts: in nb's own bin, or at the root of the next non-empty one. */
    method PickStart(nb: nat) returns (none: bool, bin: nat, v: int, rsize: nat, t: int, ghost rest: Path)
      requires Valid() && 0x100 <= nb < W
      ensures none ==> forall a :: a in contents ==> contents[a] < nb
      ensures !none ==> WalkReady(State(), nb, bin, v, rsize, t, rest)
    {
      hide BinsOk, ContentsOk, Stored, Searched, Hit, InBin, Bit, LeastOf, NoneBelow, LeftBits, WalkReady;
      ghost var b := State();
      bin := TreeIndexOf(nb);
      TreeIndexInBin(nb);
      BinBound(bin, nb);
      RootNull(b, bin, nb);
      none, v, rsize, t, rest := false, 0, W - nb, 0, [];
      if roots[bin] != 0 {
        v, rsize, t, rest := SearchBin(bin, nb);
      }
      if t == 0 && v == 0 {
        NoneInBin(b, bin, nb, rsize, rest);
        NextBin(b, bin, nb);
        var leftbits := And(LeftBits(IdxBit(bin)), treemap);
        if leftbits == 0 {
          none := true;
          return;
        }
        NextReady(b, bin, nb);
        bin := Ffs(LeastBit(leftbits));
        t, rest := roots[bin], [];
      } else {
        SearchedReady(b, bin, nb, v, rsize, t, rest);
      }
    }

    /**
     * The search of tmalloc_large: the smallest chunk of all tree bins that is at least nb,
     * or null when there is none. `rsize` is what is left over, with the unsigned -nb for none.
     */
    method BestFit(nb: nat) returns (v: int, rsize: nat)
      requires Valid() && 0x100 <= nb < W
      ensures v == 0 ==> rsize == W - nb && forall a :: a in contents ==> contents[a] < nb
      ensures v != 0 ==> v in contents && contents[v] == nb + rsize
                         && forall a :: a in contents && nb <= contents[a] ==> contents[v] <= contents[a]
    {
      hide BinsOk, ContentsOk, Stored, Hit, LeastOf, WalkReady;
      var none, bin, t;
      ghost var rest: Path;
      none, bin, v, rsize, t, rest := PickStart(nb);
      if none {
        return 0, W - nb;
      }
      ghost var v0, rsize0 := v, rsize;
      WalkStarts(State(), nb, bin, v, rsize, t, rest);
      v, rsize := LeftmostWalk(bin, nb, v, rsize, t, rest);
      WalkFinds(State(), nb, bin, v0, rsize0, t, rest, v, rsize);
    }

    /** The search of tmalloc_small: the smallest chunk of all tree bins, none of which is smaller than nb. */
    method Smallest(nb: nat) returns (v: int, rsize: nat)
      requires Valid() && nb < 0x100 && treemap != 0
      ensures v in contents && contents[v] == nb + rsize
      ensures forall a :: a in contents ==> contents[v] <= contents[a]
    {
      hide BinsOk, ContentsOk, Stored, Hit, LeastOf, Bit, LeastBit;
      ghost var b := State();
      LowestBin(b);
      var i := Ffs(LeastBit(treemap));
      assert trees[i].size in Sizes(trees[i]);
      SizesOfChildren(trees[i]);
      NodeIsHit(b, i, [], nb);
      DescentNode(b, i, []);
      var t := roots[i];
      v, rsize := t, Sub32(mem[t].size, nb);
      t := if mem[t].left != 0 then mem[t].left else mem[t].right;
      ghost var right := trees[i].left.Nil?;
      SubSnoc(trees[i], [], right);
      assert [] + [right] == [right];
      v, rsize := LeftmostWalk(i, nb, v, rsize, t, [right]);
      SmallestOverall(b, i, nb, v, rsize);
    }
  }
}
