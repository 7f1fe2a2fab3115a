// Each edit of a tree bin keeps the bin's invariant and changes its chunks by exactly one
// (src/runtime/dlmalloc/malloc.c:3654-3791).

module BinEdits {
  import opened Powers
  import opened BinMaps
  import opened TreeIndex
  import opened SizeTrie
  import opened TrieMemory
  import opened TrieEdit
  import opened TreeBins

  /** The parent address of the subtree at a path. */
  ghost function ParentOf(t: Trie, path: Path, par: int): int
    requires ValidPath(t, path)
  {
    if path == [] then par else Root(Above(t, path))
  }

  /** The slot that points at the subtree now points at s (nothing to write at the root: the bin holds it). */
  ghost predicate SlotHolds(mem: Mem, mem': Mem, t: Trie, path: Path, s: Trie)
    requires ValidPath(t, path)
  {
    path != [] ==>
      var q := Root(Above(t, path));
      q in mem && q in mem' && mem'[q] == SetChild(mem[q], path[|path| - 1], Root(s))
  }

  /** Replacing a subtree in memory, at the root or below it. */
  lemma {:induction false} PutRepAny(mem: Mem, mem': Mem, par: int, idx: nat, t: Trie, path: Path, s: Trie)
    requires Rep(mem, par, idx, t) && Distinct(t) && ValidPath(t, path)
    requires Agree(mem, mem', Addrs(t) - Addrs(Sub(t, path)) - {ParentOf(t, path, par)})
    requires SlotHolds(mem, mem', t, path, s)
    requires Rep(mem', ParentOf(t, path, par), idx, s)
    ensures Rep(mem', par, idx, Put(t, path, s))
  {
    hide Rep, Distinct, Agree;
    if path != [] { PutRep(mem, mem', par, idx, t, path, s); }
  }

  /** Replacing a subtree of a bin: the shape, the order and the uniqueness of sizes survive. */
  lemma {:induction false} PutBinOk(mem: Mem, mem': Mem, i: nat, t: Trie, path: Path, s: Trie, added: set<nat>)
    requires i < TREEBINS && BinOk(mem, Root(t), true, i, t) && ValidPath(t, path) && |path| <= BinBits(i)
    requires InRange(s, LowOf(BinLow(i), BinBits(i), path), BinBits(i) - |path|)
    requires UniqueSizes(s) && Distinct(s)
    requires Sizes(s) <= Sizes(Sub(t, path)) + added && added !! Sizes(t) && forall n :: n in added ==> InBin(i, n)
    requires Addrs(s) !! (Addrs(t) - Addrs(Sub(t, path)))
    requires Rep(mem', BinAddr(i), i, Put(t, path, s))
    ensures BinOk(mem', Root(Put(t, path, s)), Put(t, path, s).Node?, i, Put(t, path, s))
  {
    hide Rep, InRange, Distinct, UniqueSizes, InBin;
    PutRange(t, BinLow(i), BinBits(i), path, s);
    PutUnique(t, BinLow(i), BinBits(i), path, s, added);
    PutAddrs(t, path, s);
    PutSizes(t, path, s);
    SubAddrs(t, path);
  }

  // ---------- insertion ----------

  function Leaf(x: int, s: nat): Trie {
    Node([x], s, Nil, Nil)
  }

  function LeafCell(x: int, s: nat, parent: int, i: nat): Cell {
    Cell(s, x, x, 0, 0, parent, i)
  }

  lemma {:induction false} LeafOk(mem: Mem, x: int, s: nat, parent: int, i: nat)
    requires x > 0 && x in mem && mem[x] == LeafCell(x, s, parent, i)
    ensures Rep(mem, parent, i, Leaf(x, s)) && Distinct(Leaf(x, s)) && UniqueSizes(Leaf(x, s))
    ensures Addrs(Leaf(x, s)) == {x} && Sizes(Leaf(x, s)) == {s}
    ensures forall a, n :: Stored(Leaf(x, s), a, n) <==> a == x && n == s
  {
    assert ChainCell(mem, [x], 0, s, i);
  }

  /** The first chunk of a bin. */
  lemma {:induction false} InsertRootOk(mem: Mem, i: nat, x: int, s: nat)
    requires i < TREEBINS && InBin(i, s) && x > 0
    ensures BinOk(mem[x := LeafCell(x, s, BinAddr(i), i)], x, true, i, Leaf(x, s))
  {
    hide InBin, InRange, Rep, Distinct, UniqueSizes, BinLow, BinBits;
    BinInterval(i, s);
    LeafOk(mem[x := LeafCell(x, s, BinAddr(i), i)], x, s, BinAddr(i), i);
    LeafRange(x, s, BinLow(i), BinBits(i));
  }

  /** The writes of a new leaf: the empty slot of node q, and the leaf's own cell. */
  function WithLeaf(mem: Mem, q: int, right: bool, x: int, s: nat, i: nat): Mem
    requires q in mem
  {
    mem[q := SetChild(mem[q], right, x)][x := LeafCell(x, s, q, i)]
  }

  lemma {:induction false} InsertLeafOk(mem: Mem, i: nat, t: Trie, path: Path, right: bool, x: int, s: nat)
    requires i < TREEBINS && BinOk(mem, Root(t), true, i, t)
    requires ValidPath(t, path) && Sub(t, path).Node? && Child(Sub(t, path), right).Nil? && |path| < BinBits(i)
    requires var lo := LowOf(BinLow(i), BinBits(i), path + [right]);
             lo <= s < lo + Pow2(BinBits(i) - |path| - 1)
    requires s !in Sizes(t) && InBin(i, s) && x !in Addrs(t) && x > 0
    ensures Root(Sub(t, path)) in mem && ValidPath(t, path + [right])
    ensures var t' := Put(t, path + [right], Leaf(x, s));
            BinOk(WithLeaf(mem, Root(Sub(t, path)), right, x, s, i), Root(t'), true, i, t')
  {
    hide Rep, InRange, Distinct, UniqueSizes, InBin, Agree;
    var p, q := path + [right], Root(Sub(t, path));
    SubSnoc(t, path, right);
    AboveIsSub(t, path, right);
    AboveAddrs(t, p);
    RepAddrs(mem, BinAddr(i), i, t);
    assert q in Members(Above(t, p).chain);
    var mem' := WithLeaf(mem, q, right, x, s, i);
    LeafOk(mem', x, s, q, i);
    AgreeBy(mem, mem', Addrs(t) - Addrs(Sub(t, p)) - {q}, {q, x});
    PutRepAny(mem, mem', BinAddr(i), i, t, p, Leaf(x, s));
    LeafRange(x, s, LowOf(BinLow(i), BinBits(i), p), BinBits(i) - |p|);
    PutBinOk(mem, mem', i, t, p, Leaf(x, s), {s});
  }

  lemma {:induction false} LeafRange(x: int, s: nat, lo: nat, k: nat)
    requires lo <= s < lo + Pow2(k)
    ensures InRange(Leaf(x, s), lo, k)
  {
    if k > 0 {
      assert InRange(Nil, lo, k - 1) && InRange(Nil, lo + Pow2(k - 1), k - 1);
    }
  }

  /** A ring with x linked in behind its first chunk. */
  function Chained(t: Trie, x: int): Trie
    requires t.Node? && t.chain != []
  {
    t.(chain := [t.chain[0], x] + t.chain[1..])
  }

  lemma {:induction false} ChainedParts(t: Trie, x: int)
    requires t.Node? && Distinct(t) && x !in Addrs(t)
    ensures Distinct(Chained(t, x)) && Addrs(Chained(t, x)) == Addrs(t) + {x}
    ensures Sizes(Chained(t, x)) == Sizes(t) && (UniqueSizes(t) ==> UniqueSizes(Chained(t, x)))
    ensures forall a, n :: Stored(Chained(t, x), a, n) <==> Stored(t, a, n) || (a == x && n == t.size)
  {
    var c := Chained(t, x).chain;
    assert t.chain == [t.chain[0]] + t.chain[1..];
    assert forall i :: 2 <= i < |c| ==> c[i] == t.chain[i - 1];
    assert Members(c) == Members(t.chain) + {x};
  }

  lemma {:induction false} ChainedRange(t: Trie, x: int, lo: nat, k: nat)
    requires t.Node? && t.chain != [] && InRange(t, lo, k)
    ensures InRange(Chained(t, x), lo, k)
  {
  }

  lemma {:induction false} ChainedRep(mem: Mem, par: int, i: nat, sub: Trie, x: int)
    requires sub.Node? && Rep(mem, par, i, sub) && Distinct(sub) && x !in Addrs(sub) && x > 0
    ensures var c := sub.chain[0]; c in mem && mem[c].fd in mem && mem[c].fd in Addrs(sub)
    ensures Rep(RingAdd(mem, sub.chain[0], x, sub.size, i), par, i, Chained(sub, x))
    ensures Changed(mem, RingAdd(mem, sub.chain[0], x, sub.size, i), Addrs(sub) + {x})
  {
    hide Rep, Distinct, Agree;
    DistinctParts(sub);
    Unfold(mem, par, i, sub);
    var q, n := sub.chain[0], |sub.chain|;
    assert q in Members(sub.chain);
    assert x !in sub.chain by { assert forall k :: 0 <= k < n ==> sub.chain[k] in Members(sub.chain); }
    RingAddChain(mem, sub.chain, sub.size, i, x);
    assert ChainCell(mem, sub.chain, 0, sub.size, i);
    var f := mem[q].fd;
    assert f == sub.chain[NextOf(0, n)] && f in Members(sub.chain);
    var mem' := RingAdd(mem, q, x, sub.size, i);
    AgreeBy(mem, mem', Addrs(sub.left), {q, f, x});
    AgreeBy(mem, mem', Addrs(sub.right), {q, f, x});
    RepFrame(mem, mem', q, i, sub.left);
    RepFrame(mem, mem', q, i, sub.right);
    assert Chained(sub, x).chain[0] == q;
    Fold(mem', par, i, Chained(sub, x));
  }

  /** The links of the node above a path's end. */
  lemma {:induction false} AboveNode(mem: Mem, par: int, idx: nat, t: Trie, path: Path)
    requires Rep(mem, par, idx, t) && ValidPath(t, path) && path != [] && Distinct(t)
    ensures var p := Above(t, path);
            && Distinct(p) && p.chain != [] && Root(p) == p.chain[0] && Root(p) in mem
            && mem[Root(p)].left == Root(p.left) && mem[Root(p)].right == Root(p.right)
            && Root(p) in Addrs(t) - Addrs(Sub(t, path))
    decreases path
  {
    AboveAddrs(t, path);
    assert Above(t, path).chain[0] in Members(Above(t, path).chain);
    if |path| > 1 {
      AboveNode(mem, t.chain[0], idx, Child(t, path[0]), path[1..]);
    }
  }

  lemma {:induction false} InsertChainRep(mem: Mem, par: int, i: nat, t: Trie, path: Path, x: int)
    requires Rep(mem, par, i, t) && Distinct(t)
    requires ValidPath(t, path) && Sub(t, path).Node? && x !in Addrs(t) && x > 0
    ensures Sub(t, path).chain != []
    ensures var c := Root(Sub(t, path)); c in mem && mem[c].fd in mem
    ensures Rep(RingAdd(mem, Root(Sub(t, path)), x, Sub(t, path).size, i), par, i, Put(t, path, Chained(Sub(t, path), x)))
    ensures Changed(mem, RingAdd(mem, Root(Sub(t, path)), x, Sub(t, path).size, i), Addrs(t) + {x})
  {
    hide Rep, Distinct, Agree;
    var sub := Sub(t, path);
    SubAddrs(t, path);
    DistinctParts(sub);
    RepSub(mem, par, i, t, path);
    ChainedRep(mem, ParentOf(t, path, par), i, sub, x);
    var mem' := RingAdd(mem, sub.chain[0], x, sub.size, i);
    if path != [] { AboveNode(mem, par, i, t, path); }
    AgreeBy(mem, mem', Addrs(t) - Addrs(sub) - {ParentOf(t, path, par)}, Addrs(sub) + {x});
    PutRepAny(mem, mem', par, i, t, path, Chained(sub, x));
  }

  /** Adding a chunk of a size already present. */
  lemma {:induction false} InsertChainOk(mem: Mem, i: nat, t: Trie, path: Path, x: int)
    requires i < TREEBINS && BinOk(mem, Root(t), true, i, t)
    requires ValidPath(t, path) && Sub(t, path).Node? && x !in Addrs(t) && x > 0
    ensures Sub(t, path).chain != []
    ensures var c := Root(Sub(t, path)); c in mem && mem[c].fd in mem
    ensures var t' := Put(t, path, Chained(Sub(t, path), x));
            BinOk(RingAdd(mem, Root(Sub(t, path)), x, Sub(t, path).size, i), Root(t'), true, i, t')
  {
    hide Rep, InRange, Distinct, UniqueSizes, InBin, Changed, RingAdd;
    InsertChainRep(mem, BinAddr(i), i, t, path, x);
    var sub := Sub(t, path);
    SubAddrs(t, path);
    SubRange(t, BinLow(i), BinBits(i), path);
    ChainedParts(sub, x);
    ChainedRange(sub, x, LowOf(BinLow(i), BinBits(i), path), BinBits(i) - |path|);
    PutBinOk(mem, RingAdd(mem, Root(sub), x, sub.size, i), i, t, path, Chained(sub, x), {});
  }

  // ---------- unlinking ----------

  /** The subtree after chunk j of its root ring is removed. */
  function Without(sub: Trie, j: nat): Trie
    requires sub.Node? && j < |sub.chain|
  {
    if |sub.chain| > 1 then sub.(chain := Unchain(sub.chain, j)) else ReplaceByLeaf(sub)
  }

  lemma {:induction false} WithoutParts(sub: Trie, j: nat, lo: nat, k: nat)
    requires sub.Node? && j < |sub.chain| && Distinct(sub) && UniqueSizes(sub) && InRange(sub, lo, k)
    ensures var s := Without(sub, j);
            Distinct(s) && UniqueSizes(s) && InRange(s, lo, k)
            && Addrs(s) == Addrs(sub) - {sub.chain[j]} && Sizes(s) <= Sizes(sub)
  {
    hide InRange, Distinct, UniqueSizes;
    DistinctParts(sub);
    if |sub.chain| > 1 {
      UnchainMembers(sub.chain, j);
      UnchainedNode(sub, Unchain(sub.chain, j), lo, k);
      assert sub.chain[j] in Members(sub.chain);
    } else {
      ReplaceByLeafRange(sub, lo, k);
      ReplaceByLeafAddrs(sub);
      assert Members(sub.chain) == {sub.chain[j]};
    }
  }

  lemma {:induction false} UnchainedNode(sub: Trie, chain: seq<int>, lo: nat, k: nat)
    requires sub.Node? && Distinct(sub) && UniqueSizes(sub) && InRange(sub, lo, k)
    requires chain != [] && Members(chain) <= Members(sub.chain)
    requires forall i, j :: 0 <= i < j < |chain| ==> chain[i] != chain[j]
    ensures var s := sub.(chain := chain);
            Distinct(s) && UniqueSizes(s) && InRange(s, lo, k) && Sizes(s) == Sizes(sub)
            && Addrs(s) == Members(chain) + Addrs(sub.left) + Addrs(sub.right)
  {
  }

  lemma {:induction false} WithoutStored(sub: Trie, j: nat, a: int, n: nat)
    requires sub.Node? && j < |sub.chain| && Distinct(sub)
    ensures Stored(Without(sub, j), a, n) <==> Stored(sub, a, n) && a != sub.chain[j]
  {
    hide Distinct;
    DistinctParts(sub);
    assert sub.chain[j] in Members(sub.chain);
    if |sub.chain| > 1 {
      UnchainMembers(sub.chain, j);
      assert a in Unchain(sub.chain, j) <==> a in Members(Unchain(sub.chain, j));
      assert a in sub.chain <==> a in Members(sub.chain);
      if Stored(sub.left, a, n) { StoredAddr(sub.left, a, n); }
      if Stored(sub.right, a, n) { StoredAddr(sub.right, a, n); }
    } else {
      ReplaceByLeafStored(sub, a, n);
    }
  }

  /** The trie after chunk j of the node at `path` is unlinked. */
  function Unlinked(t: Trie, path: Path, j: nat): Trie
    requires ValidPath(t, path) && Sub(t, path).Node? && j < |Sub(t, path).chain|
  {
    Put(t, path, Without(Sub(t, path), j))
  }

  /** Unlinking removes that chunk and no other. */
  lemma {:induction false} UnlinkedStored(t: Trie, path: Path, j: nat, a: int, n: nat)
    requires ValidPath(t, path) && Sub(t, path).Node? && j < |Sub(t, path).chain| && Distinct(t)
    ensures Stored(Unlinked(t, path, j), a, n) <==> Stored(t, a, n) && a != Sub(t, path).chain[j]
  {
    hide Distinct;
    var sub := Sub(t, path);
    SubAddrs(t, path);
    PutStored(t, path, Without(sub, j), a, n);
    WithoutStored(sub, j, a, n);
    SubStored(t, path, a, n);
    DistinctParts(sub);
    assert sub.chain[j] in Members(sub.chain);
    if Stored(sub, a, n) { StoredAddr(sub, a, n); }
  }

  lemma {:induction false} SubStored(t: Trie, path: Path, a: int, n: nat)
    requires ValidPath(t, path) && Distinct(t)
    ensures Stored(Sub(t, path), a, n) <==> Stored(t, a, n) && a in Addrs(Sub(t, path))
    decreases path
  {
    if path == [] {
      if Stored(t, a, n) { StoredAddr(t, a, n); }
    } else {
      var c, o := Child(t, path[0]), Child(t, !path[0]);
      SubStored(c, path[1..], a, n);
      SubAddrs(c, path[1..]);
      if Stored(o, a, n) { StoredAddr(o, a, n); }
    }
  }

  /** In memory the edit holds: then the bin is whole again. */
  lemma {:induction false} UnlinkedBinOk(mem: Mem, mem': Mem, i: nat, t: Trie, path: Path, j: nat)
    requires i < TREEBINS && BinOk(mem, Root(t), true, i, t)
    requires ValidPath(t, path) && Sub(t, path).Node? && j < |Sub(t, path).chain|
    requires Rep(mem', BinAddr(i), i, Unlinked(t, path, j))
    ensures var t' := Unlinked(t, path, j); BinOk(mem', Root(t'), t'.Node?, i, t')
  {
    hide Rep, InRange, Distinct, UniqueSizes, InBin, Without;
    SubAddrs(t, path);
    SubRange(t, BinLow(i), BinBits(i), path);
    WithoutParts(Sub(t, path), j, LowOf(BinLow(i), BinBits(i), path), BinBits(i) - |path|);
    PutBinOk(mem, mem', i, t, path, Without(Sub(t, path), j), {});
  }

  /** The write of X's parent slot; the root's slot is the bin itself. */
  ghost function SlotWritten(mem: Mem, t: Trie, path: Path, v: int): Mem
    requires ValidPath(t, path)
  {
    if path == [] || Root(Above(t, path)) !in mem then mem
    else
      var q := Root(Above(t, path));
      mem[q := SetChild(mem[q], path[|path| - 1], v)]
  }

  lemma {:induction false} SlotWrittenCells(mem: Mem, mem1: Mem, t: Trie, path: Path, r: int)
    requires ValidPath(t, path) && Changed(mem, mem1, Addrs(Sub(t, path)))
    requires path != [] ==> Root(Above(t, path)) in mem && Root(Above(t, path)) in Addrs(t) - Addrs(Sub(t, path))
    ensures var mem2 := SlotWritten(mem1, t, path, r);
            && Changed(mem1, mem2, Addrs(t) - Addrs(Sub(t, path)))
            && (path == [] ==> mem2 == mem1)
            && (path != [] ==> var q := Root(Above(t, path));
                  q in mem2 && mem2[q] == SetChild(mem[q], path[|path| - 1], r)
                  && Changed(mem, mem2, Addrs(Sub(t, path)) + {q}))
  {
  }

  /** A replacement that is ready takes x's place: step 3 of unlinking. */
  lemma {:induction false} TakeOver(mem: Mem, mem1: Mem, par: int, i: nat, t: Trie, path: Path, x: int, s: Trie)
    requires Rep(mem, par, i, t) && Distinct(t) && ValidPath(t, path)
    requires x in Addrs(Sub(t, path)) && Addrs(s) <= Addrs(Sub(t, path)) - {x} && Distinct(s)
    requires Changed(mem, mem1, Addrs(Sub(t, path))) && Ready(mem1, x, i, s)
    ensures s.Node? && s.chain != []
    ensures var mem2 := SlotWritten(mem1, t, path, s.chain[0]);
            && x in mem2 && s.chain[0] in mem2 && x != s.chain[0]
            && s.chain[0] != mem2[x].left && s.chain[0] != mem2[x].right
            && (mem2[x].left != 0 ==> mem2[x].left in mem2) && (mem2[x].right != 0 ==> mem2[x].right in mem2)
            && Rep(Transplant(mem2, x, s.chain[0], ParentOf(t, path, par)), par, i, Put(t, path, s))
            && Changed(mem, Transplant(mem2, x, s.chain[0], ParentOf(t, path, par)), Addrs(t))
  {
    hide Rep, Distinct, Agree, Ready, Transplant, Changed, SlotWritten;
    var sub, xp := Sub(t, path), ParentOf(t, path, par);
    ReadyIn(mem1, x, i, s);
    SubAddrs(t, path);
    RepAddrs(mem, par, i, t);
    if path != [] { AboveNode(mem, par, i, t, path); }
    var mem2 := SlotWritten(mem1, t, path, s.chain[0]);
    SlotWrittenCells(mem, mem1, t, path, s.chain[0]);
    AgreeBy(mem1, mem2, Addrs(s) + {x}, Addrs(t) - Addrs(sub));
    ReadyFrame(mem1, mem2, x, i, s);
    ReadyIn(mem2, x, i, s);
    TransplantRep(mem2, x, xp, i, s);
    var mem3 := Transplant(mem2, x, s.chain[0], xp);
    TakeOverCells(mem, mem1, mem2, mem3, par, t, path, s);
    PutRepAny(mem, mem3, par, i, t, path, s);
  }

  lemma {:induction false} TakeOverCells(mem: Mem, mem1: Mem, mem2: Mem, mem3: Mem, par: int, t: Trie, path: Path, s: Trie)
    requires ValidPath(t, path) && s.Node? && s.chain != [] && Addrs(s) <= Addrs(Sub(t, path)) <= Addrs(t)
    requires Changed(mem, mem1, Addrs(Sub(t, path))) && Changed(mem1, mem2, Addrs(t) - Addrs(Sub(t, path)))
    requires path == [] ==> mem2 == mem1
    requires path != [] ==> var q := Root(Above(t, path));
               && q in mem && q in Addrs(t) - Addrs(Sub(t, path))
               && q in mem2 && mem2[q] == SetChild(mem[q], path[|path| - 1], s.chain[0])
               && Changed(mem, mem2, Addrs(Sub(t, path)) + {q})
    requires Changed(mem2, mem3, Addrs(s))
    ensures Agree(mem, mem3, Addrs(t) - Addrs(Sub(t, path)) - {ParentOf(t, path, par)})
    ensures SlotHolds(mem, mem3, t, path, s) && Changed(mem, mem3, Addrs(t))
  {
  }

  lemma {:induction false} ReadyIn(mem: Mem, x: int, idx: nat, t: Trie)
    requires Ready(mem, x, idx, t)
    ensures x in mem && t.Node? && t.chain != [] && t.chain[0] in mem
  {
  }

  // ---------- the four ways a chunk leaves its bin ----------

  /** A chained chunk that is not the tree's own node. */
  lemma {:induction false} UnlinkInner(mem: Mem, par: int, i: nat, t: Trie, path: Path, j: nat)
    requires Rep(mem, par, i, t) && Distinct(t)
    requires ValidPath(t, path) && Sub(t, path).Node? && 0 < j < |Sub(t, path).chain|
    ensures var x := Sub(t, path).chain[j]; x in mem && mem[x].fd in mem && mem[x].bk in mem
    ensures var mem' := RingRemove(mem, Sub(t, path).chain[j]);
            Rep(mem', par, i, Unlinked(t, path, j)) && Changed(mem, mem', Addrs(t))
  {
    hide Rep, Distinct, Agree, Changed;
    var sub := Sub(t, path);
    SubAddrs(t, path);
    RepSub(mem, par, i, t, path);
    RingInnerRep(mem, ParentOf(t, path, par), i, sub, j);
    RingNeighbours(mem, ParentOf(t, path, par), i, sub, j);
    var mem' := RingRemove(mem, sub.chain[j]);
    if path != [] {
      AboveNode(mem, par, i, t, path);
      AgreeBy(mem, mem', {Root(Above(t, path))}, Addrs(sub));
      AgreeAt(mem, mem', {Root(Above(t, path))}, Root(Above(t, path)));
    }
    AgreeBy(mem, mem', Addrs(t) - Addrs(sub) - {ParentOf(t, path, par)}, Addrs(sub));
    PutRepAny(mem, mem', par, i, t, path, Without(sub, j));
    ChangedMore(mem, mem', Addrs(sub), Addrs(t));
  }

  lemma {:induction false} ChangedMore(mem: Mem, mem': Mem, s: set<int>, more: set<int>)
    requires Changed(mem, mem', s) && s <= more
    ensures Changed(mem, mem', more)
  {
  }

  lemma {:induction false} RingNeighbours(mem: Mem, par: int, i: nat, sub: Trie, j: nat)
    requires Rep(mem, par, i, sub) && sub.Node? && j < |sub.chain|
    ensures var x := sub.chain[j];
            && x in mem && mem[x].fd in mem && mem[x].bk in mem && x in Addrs(sub)
            && Changed(mem, RingRemove(mem, x), Addrs(sub))
            && (mem[x].bk == x <==> |sub.chain| == 1 || mem[x].bk == sub.chain[j])
            && mem[x].bk == sub.chain[PrevOf(j, |sub.chain|)]
  {
    hide Rep;
    Unfold(mem, par, i, sub);
    var n := |sub.chain|;
    assert ChainCell(mem, sub.chain, j, sub.size, i);
    assert ChainCell(mem, sub.chain, NextOf(j, n), sub.size, i);
    assert ChainCell(mem, sub.chain, PrevOf(j, n), sub.size, i);
    RingRemoveCells(mem, sub.chain[j]);
    assert sub.chain[NextOf(j, n)] in Members(sub.chain) && sub.chain[PrevOf(j, n)] in Members(sub.chain);
    assert sub.chain[j] in Members(sub.chain);
  }
}
