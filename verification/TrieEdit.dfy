// The pointer writes of insert_large_chunk and unlink_large_chunk, block by block
// (src/runtime/dlmalloc/malloc.c:3654-3791), and what each does to the represented trie.

module TrieEdit {
  import opened SizeTrie
  import opened TrieMemory

  // ---------- the fd/bk ring ----------

  /** `T->fd = F->bk = X; X->fd = F; X->bk = T` for a fresh cell X. */
  function RingAdd(mem: Mem, t: int, x: int, size: nat, idx: nat): Mem
    requires t in mem && mem[t].fd in mem
  {
    var f := mem[t].fd;
    var m1 := mem[t := mem[t].(fd := x)];
    m1[f := m1[f].(bk := x)][x := Cell(size, f, t, 0, 0, 0, idx)]
  }

  lemma {:induction false} RingAddChain(mem: Mem, chain: seq<int>, size: nat, idx: nat, x: int)
    requires chain != [] && ChainAt(mem, chain, size, idx) && x !in chain && x > 0
    requires forall i, j :: 0 <= i < j < |chain| ==> chain[i] != chain[j]
    ensures chain[0] in mem && mem[chain[0]].fd in mem
    ensures ChainAt(RingAdd(mem, chain[0], x, size, idx), [chain[0], x] + chain[1..], size, idx)
  {
    var n, c := |chain|, [chain[0], x] + chain[1..];
    assert ChainCell(mem, chain, 0, size, idx);
    assert ChainCell(mem, chain, NextOf(0, n), size, idx);
    var mem' := RingAdd(mem, chain[0], x, size, idx);
    forall i | 0 <= i < |c|
      ensures ChainCell(mem', c, i, size, idx)
    {
      if i != 1 {
        var k := if i == 0 then 0 else i - 1;
        assert c[i] == chain[k];
        assert ChainCell(mem, chain, k, size, idx);
      }
    }
  }

  /** `F->bk = R; R->fd = F` with F and R the ring neighbours of X. */
  function RingRemove(mem: Mem, x: int): Mem
    requires x in mem && mem[x].fd in mem && mem[x].bk in mem
  {
    var f, r := mem[x].fd, mem[x].bk;
    var m1 := mem[f := mem[f].(bk := r)];
    m1[r := m1[r].(fd := f)]
  }

  /** Where a cell of the shorter ring was in the longer one. */
  function Was(j: nat, n: nat, i: nat): nat
    requires n > 1
  {
    if j == 0 then (if i == 0 then n - 1 else i) else if i < j then i else i + 1
  }

  lemma {:induction false} WasNeighbours(j: nat, n: nat, i: nat)
    requires n > 1 && j < n && i < n - 1
    ensures var k := Was(j, n, i);
            && k < n && k != j && (i > 0 ==> k > 0)
            && Was(j, n, NextOf(i, n - 1)) == (if NextOf(k, n) == j then NextOf(j, n) else NextOf(k, n))
            && Was(j, n, PrevOf(i, n - 1)) == (if PrevOf(k, n) == j then PrevOf(j, n) else PrevOf(k, n))
  {
  }

  lemma {:induction false} UnchainAt(chain: seq<int>, j: nat, i: nat)
    requires |chain| > 1 && j < |chain| && i < |chain| - 1
    ensures |Unchain(chain, j)| == |chain| - 1 && Was(j, |chain|, i) < |chain| && Unchain(chain, j)[i] == chain[Was(j, |chain|, i)]
  {
  }

  /** Only the neighbours of the chunk removed are written: each passes over it. */
  lemma {:induction false} RingRemoveAt(mem: Mem, chain: seq<int>, size: nat, idx: nat, j: nat, k: nat)
    requires j < |chain| && k < |chain| && k != j && ChainCell(mem, chain, j, size, idx) && ChainCell(mem, chain, k, size, idx)
    requires chain[NextOf(j, |chain|)] in mem && chain[PrevOf(j, |chain|)] in mem
    requires forall i, k :: 0 <= i < k < |chain| ==> chain[i] != chain[k]
    ensures var n, mem' := |chain|, RingRemove(mem, chain[j]);
            && chain[k] in mem'
            && mem'[chain[k]] == mem[chain[k]].(fd := if NextOf(k, n) == j then chain[NextOf(j, n)] else chain[NextOf(k, n)],
                                                bk := if PrevOf(k, n) == j then chain[PrevOf(j, n)] else chain[PrevOf(k, n)])
  {
    var n := |chain|;
    assert chain[k] == chain[PrevOf(j, n)] <==> NextOf(k, n) == j;
    assert chain[k] == chain[NextOf(j, n)] <==> PrevOf(k, n) == j;
  }

  lemma {:induction false} RingRemoveCell(mem: Mem, chain: seq<int>, size: nat, idx: nat, j: nat, i: nat)
    requires |chain| > 1 && j < |chain| && ChainAt(mem, chain, size, idx) && i < |Unchain(chain, j)|
    requires forall i, k :: 0 <= i < k < |chain| ==> chain[i] != chain[k]
    requires var x := chain[j]; x in mem && mem[x].fd in mem && mem[x].bk in mem
    ensures ChainCell(RingRemove(mem, chain[j]), Unchain(chain, j), i, size, idx)
  {
    var n := |chain|;
    UnchainAt(chain, j, 0);
    var k := Was(j, n, i);
    WasNeighbours(j, n, i);
    UnchainAt(chain, j, i);
    UnchainAt(chain, j, NextOf(i, n - 1));
    UnchainAt(chain, j, PrevOf(i, n - 1));
    assert ChainCell(mem, chain, j, size, idx) && ChainCell(mem, chain, k, size, idx);
    hide ChainAt, Was, Unchain, NextOf, PrevOf, RingRemove;
    RingRemoveAt(mem, chain, size, idx, j, k);
  }

  lemma {:induction false} RingRemoveChain(mem: Mem, chain: seq<int>, size: nat, idx: nat, j: nat)
    requires |chain| > 1 && j < |chain| && ChainAt(mem, chain, size, idx)
    requires forall i, k :: 0 <= i < k < |chain| ==> chain[i] != chain[k]
    ensures var x := chain[j]; x in mem && mem[x].fd in mem && mem[x].bk in mem
    ensures ChainAt(RingRemove(mem, chain[j]), Unchain(chain, j), size, idx)
  {
    var n, c := |chain|, Unchain(chain, j);
    assert ChainCell(mem, chain, j, size, idx);
    assert ChainCell(mem, chain, NextOf(j, n), size, idx);
    assert ChainCell(mem, chain, PrevOf(j, n), size, idx);
    var mem' := RingRemove(mem, chain[j]);
    hide ChainCell, RingRemove;
    forall i | 0 <= i < |c|
      ensures ChainCell(mem', c, i, size, idx)
    {
      RingRemoveCell(mem, chain, size, idx, j, i);
    }
  }

  // ---------- moving a node into another's place ----------

  /** Everything is in place but the links from above and to the children: `ring` is to take over from x. */
  ghost predicate Ready(mem: Mem, x: int, idx: nat, t: Trie) {
    && t.Node? && t.chain != []
    && ChainAt(mem, t.chain, t.size, idx)
    && t.chain[0] in mem && mem[t.chain[0]].left == 0 && mem[t.chain[0]].right == 0
    && x in mem && mem[x].left == Root(t.left) && mem[x].right == Root(t.right)
    && Rep(mem, x, idx, t.left) && Rep(mem, x, idx, t.right)
  }

  lemma {:induction false} ReadyFrame(mem: Mem, mem': Mem, x: int, idx: nat, t: Trie)
    requires Ready(mem, x, idx, t) && Agree(mem, mem', Addrs(t) + {x})
    ensures Ready(mem', x, idx, t)
  {
    hide Agree, ChainAt, Rep;
    AgreeSubset(mem, mem', Addrs(t) + {x}, Members(t.chain));
    AgreeSubset(mem, mem', Addrs(t) + {x}, Addrs(t.left));
    AgreeSubset(mem, mem', Addrs(t) + {x}, Addrs(t.right));
    ChainFrame(mem, mem', t.chain, t.size, idx);
    RepFrame(mem, mem', x, idx, t.left);
    RepFrame(mem, mem', x, idx, t.right);
    AgreeAt(mem, mem', Addrs(t) + {x}, x);
    assert t.chain[0] in Members(t.chain);
    AgreeAt(mem, mem', Members(t.chain), t.chain[0]);
  }

  lemma {:induction false} AgreeAt(mem: Mem, mem': Mem, s: set<int>, a: int)
    requires Agree(mem, mem', s) && a in s && a in mem
    ensures a in mem' && mem'[a] == mem[a]
  {
  }

  /** `R->child[b] = C; C->parent = R`, or nothing when C is null. */
  function Adopt(mem: Mem, r: int, right: bool, c: int): Mem
    requires r in mem && (c != 0 ==> c in mem)
  {
    if c == 0 then mem
    else
      var m1 := mem[r := SetChild(mem[r], right, c)];
      m1[c := m1[c].(parent := r)]
  }

  /** Step 3 of unlinking: R takes X's parent and X's children. */
  function Transplant(mem: Mem, x: int, r: int, xp: int): Mem
    requires x in mem && r in mem
    requires mem[x].left != 0 ==> mem[x].left in mem
    requires mem[x].right != 0 ==> mem[x].right in mem
    requires x != r && r != mem[x].left && r != mem[x].right
  {
    var m1 := mem[r := mem[r].(parent := xp)];
    var m2 := Adopt(m1, r, false, mem[x].left);
    Adopt(m2, r, true, mem[x].right)
  }

  lemma {:induction false} Reparent(mem: Mem, mem': Mem, p: int, p': int, idx: nat, t: Trie)
    requires Rep(mem, p, idx, t) && t.Node? && Distinct(t)
    requires Agree(mem, mem', Addrs(t) - {t.chain[0]})
    requires t.chain[0] in mem' && mem'[t.chain[0]] == mem[t.chain[0]].(parent := p')
    ensures Rep(mem', p', idx, t)
  {
    hide Rep, ChainAt, Agree;
    var q := t.chain[0];
    assert NodeAt(mem, p, idx, t) && Rep(mem, q, idx, t.left) && Rep(mem, q, idx, t.right) by { Unfold(mem, p, idx, t); }
    assert q in Members(t.chain);
    AgreeSubset(mem, mem', Addrs(t) - {q}, Addrs(t.left));
    AgreeSubset(mem, mem', Addrs(t) - {q}, Addrs(t.right));
    AgreeSubset(mem, mem', Addrs(t) - {q}, Members(t.chain) - {q});
    RepFrame(mem, mem', q, idx, t.left);
    RepFrame(mem, mem', q, idx, t.right);
    HeadLinks(mem, mem', t.chain, t.size, idx);
    Fold(mem', p', idx, t);
  }

  lemma {:induction false} Unfold(mem: Mem, p: int, idx: nat, t: Trie)
    requires Rep(mem, p, idx, t) && t.Node?
    ensures NodeAt(mem, p, idx, t) && Rep(mem, t.chain[0], idx, t.left) && Rep(mem, t.chain[0], idx, t.right)
  {
  }

  lemma {:induction false} Fold(mem: Mem, p: int, idx: nat, t: Trie)
    requires t.Node? && NodeAt(mem, p, idx, t)
    requires Rep(mem, t.chain[0], idx, t.left) && Rep(mem, t.chain[0], idx, t.right)
    ensures Rep(mem, p, idx, t)
  {
  }

  /** A ring does not depend on the tree links of its first chunk. */
  lemma {:induction false} HeadLinks(mem: Mem, mem': Mem, chain: seq<int>, size: nat, idx: nat)
    requires chain != [] && ChainAt(mem, chain, size, idx)
    requires Agree(mem, mem', Members(chain) - {chain[0]})
    requires forall i, j :: 0 <= i < j < |chain| ==> chain[i] != chain[j]
    requires chain[0] in mem && chain[0] in mem'
    requires mem'[chain[0]] == mem[chain[0]].(parent := mem'[chain[0]].parent,
                                              left := mem'[chain[0]].left, right := mem'[chain[0]].right)
    ensures ChainAt(mem', chain, size, idx)
  {
    forall i | 0 <= i < |chain|
      ensures ChainCell(mem', chain, i, size, idx)
    {
      assert ChainCell(mem, chain, i, size, idx) && chain[i] in Members(chain);
    }
  }

  /** The children of a Ready node, by address. */
  lemma {:induction false} ReadyChildren(mem: Mem, x: int, idx: nat, t: Trie)
    requires Ready(mem, x, idx, t) && Distinct(t) && x !in Addrs(t) && x > 0
    ensures var c0, c1 := mem[x].left, mem[x].right;
            && (c0 != 0 ==> t.left.Node? && c0 == t.left.chain[0] && c0 in mem && c0 in Addrs(t.left))
            && (c1 != 0 ==> t.right.Node? && c1 == t.right.chain[0] && c1 in mem && c1 in Addrs(t.right))
            && t.chain[0] in Members(t.chain)
            && (c0 == 0 ==> t.left.Nil?) && (c1 == 0 ==> t.right.Nil?)
            && x != c0 && x != c1 && x != t.chain[0]
    ensures 0 !in Addrs(t)
  {
    RepAddrs(mem, x, idx, t.left);
    RepAddrs(mem, x, idx, t.right);
    assert 0 !in t.chain by {
      forall i | 0 <= i < |t.chain|
        ensures t.chain[i] != 0
      {
        assert ChainCell(mem, t.chain, i, t.size, idx);
      }
    }
  }

  /** The writes of step 3 complete the node. */
  lemma {:induction false} TransplantRep(mem: Mem, x: int, xp: int, idx: nat, t: Trie)
    requires Ready(mem, x, idx, t) && Distinct(t) && x !in Addrs(t) && x > 0
    ensures var r := t.chain[0]; x != r && r != mem[x].left && r != mem[x].right
    ensures (mem[x].left != 0 ==> mem[x].left in mem) && (mem[x].right != 0 ==> mem[x].right in mem)
    ensures Rep(Transplant(mem, x, t.chain[0], xp), xp, idx, t)
    ensures Changed(mem, Transplant(mem, x, t.chain[0], xp), Addrs(t))
  {
    hide Rep, ChainAt, Agree, Distinct;
    ReadyChildren(mem, x, idx, t);
    DistinctParts(t);
    var r, c0, c1 := t.chain[0], mem[x].left, mem[x].right;
    var mem' := Transplant(mem, x, r, xp);
    assert mem'[r] == mem[r].(parent := xp, left := c0, right := c1);
    TransplantCells(mem, x, r, xp);
    assert Changed(mem, mem', Addrs(t));
    if t.left.Node? {
      AgreeBy(mem, mem', Addrs(t.left) - {c0}, {r, c0, c1});
      Reparent(mem, mem', x, r, idx, t.left);
    } else {
      RepNil(mem', r, idx);
    }
    if t.right.Node? {
      AgreeBy(mem, mem', Addrs(t.right) - {c1}, {r, c0, c1});
      Reparent(mem, mem', x, r, idx, t.right);
    } else {
      RepNil(mem', r, idx);
    }
    AgreeBy(mem, mem', Members(t.chain) - {r}, {r, c0, c1});
    HeadLinks(mem, mem', t.chain, t.size, idx);
    assert r > 0 by { ChainPositive(mem, t.chain, t.size, idx); }
    Fold(mem', xp, idx, t);
  }

  lemma {:induction false} RepNil(mem: Mem, p: int, idx: nat)
    ensures Rep(mem, p, idx, Nil)
  {
  }

  lemma {:induction false} ChainPositive(mem: Mem, chain: seq<int>, size: nat, idx: nat)
    requires chain != [] && ChainAt(mem, chain, size, idx)
    ensures chain[0] > 0
  {
    assert ChainCell(mem, chain, 0, size, idx);
  }

  lemma {:induction false} DistinctParts(t: Trie)
    requires t.Node? && Distinct(t)
    ensures Distinct(t.left) && Distinct(t.right) && t.chain != []
    ensures Members(t.chain) !! Addrs(t.left) && Members(t.chain) !! Addrs(t.right) && Addrs(t.left) !! Addrs(t.right)
    ensures forall i, j :: 0 <= i < j < |t.chain| ==> t.chain[i] != t.chain[j]
  {
  }

  /** Which cells a transplant writes, and how. */
  lemma {:induction false} TransplantCells(mem: Mem, x: int, r: int, xp: int)
    requires x in mem && r in mem
    requires mem[x].left != 0 ==> mem[x].left in mem
    requires mem[x].right != 0 ==> mem[x].right in mem
    requires x != r && r != mem[x].left && r != mem[x].right
    requires mem[x].left != 0 ==> mem[x].left != mem[x].right
    ensures var c0, c1, mem' := mem[x].left, mem[x].right, Transplant(mem, x, r, xp);
            && Changed(mem, mem', {r, c0, c1})
            && (c0 != 0 ==> mem'[c0] == mem[c0].(parent := r))
            && (c1 != 0 ==> mem'[c1] == mem[c1].(parent := r))
  {
  }

  /** mem' may differ from mem at most on the given addresses, and loses none. */
  ghost predicate Changed(mem: Mem, mem': Mem, s: set<int>) {
    forall a :: a in mem ==> a in mem' && (a !in s ==> mem'[a] == mem[a])
  }

  lemma {:induction false} AgreeBy(mem: Mem, mem': Mem, part: set<int>, changed: set<int>)
    requires Changed(mem, mem', changed) && part !! changed
    ensures Agree(mem, mem', part)
  {
  }

  // ---------- making a replacement ready ----------

  /** Step 2: cutting the leaf's slot leaves the rest of the subtree, and the leaf ready to move up. */
  lemma {:induction false} CutLeafReady(mem: Mem, par: int, idx: nat, sub: Trie)
    requires Rep(mem, par, idx, sub) && sub.Node? && Distinct(sub) && |sub.chain| == 1 && LeafPath(sub) != []
    ensures var p := LeafPath(sub);
            var q := Root(Above(sub, p));
            q in mem && q in Addrs(sub)
            && Ready(mem[q := SetChild(mem[q], p[|p| - 1], 0)], sub.chain[0], idx, ReplaceByLeaf(sub))
  {
    hide Rep, ChainAt, Agree, Distinct;
    var p := LeafPath(sub);
    var q := Root(Above(sub, p));
    AboveAddrs(sub, p);
    RepAddrs(mem, par, idx, sub);
    assert q in Members(Above(sub, p).chain);
    var mem' := mem[q := SetChild(mem[q], p[|p| - 1], 0)];
    var leaf, rest := Sub(sub, p), Put(sub, p, Nil);
    LeafParts(sub);
    RepNil(mem', q, idx);
    AgreeBy(mem, mem', Addrs(sub) - Addrs(leaf) - {q}, {q});
    PutRep(mem, mem', par, idx, sub, p, Nil);
    Unfold(mem', par, idx, rest);
    RepSub(mem, par, idx, sub, p);
    Unfold(mem, q, idx, leaf);
    AgreeBy(mem, mem', Members(leaf.chain), {q});
    ChainFrame(mem, mem', leaf.chain, leaf.size, idx);
    assert leaf.chain[0] in Members(leaf.chain);
    AgreeAt(mem, mem', Members(leaf.chain), leaf.chain[0]);
  }

  /** Step 1 for the tree's own node: its bk neighbour, chained until now, is ready to take over. */
  lemma {:induction false} RingHeadReady(mem: Mem, par: int, idx: nat, sub: Trie)
    requires Rep(mem, par, idx, sub) && sub.Node? && Distinct(sub) && |sub.chain| > 1
    ensures var x := sub.chain[0]; x in mem && mem[x].fd in mem && mem[x].bk in mem
    ensures Ready(RingRemove(mem, sub.chain[0]), sub.chain[0], idx, sub.(chain := Unchain(sub.chain, 0)))
  {
    hide Rep, Agree, Distinct;
    DistinctParts(sub);
    Unfold(mem, par, idx, sub);
    RingRemoveChain(mem, sub.chain, sub.size, idx, 0);
    var n, x := |sub.chain|, sub.chain[0];
    assert ChainCell(mem, sub.chain, 0, sub.size, idx);
    assert ChainCell(mem, sub.chain, n - 1, sub.size, idx);
    assert ChainCell(mem, sub.chain, 1, sub.size, idx);
    var mem' := RingRemove(mem, x);
    RingRemoveCells(mem, x);
    assert sub.chain[1] in Members(sub.chain) && sub.chain[n - 1] in Members(sub.chain);
    AgreeBy(mem, mem', Addrs(sub.left), {sub.chain[1], sub.chain[n - 1]});
    AgreeBy(mem, mem', Addrs(sub.right), {sub.chain[1], sub.chain[n - 1]});
    RepFrame(mem, mem', x, idx, sub.left);
    RepFrame(mem, mem', x, idx, sub.right);
  }

  lemma {:induction false} RingRemoveCells(mem: Mem, x: int)
    requires x in mem && mem[x].fd in mem && mem[x].bk in mem
    ensures Changed(mem, RingRemove(mem, x), {mem[x].fd, mem[x].bk})
    ensures var mem' := RingRemove(mem, x);
            forall a :: a in mem ==> mem'[a].left == mem[a].left && mem'[a].right == mem[a].right
                                     && mem'[a].parent == mem[a].parent
  {
  }

  /** Step 1 for a chained chunk: the node stays where it is. */
  lemma {:induction false} RingInnerRep(mem: Mem, par: int, idx: nat, sub: Trie, j: nat)
    requires Rep(mem, par, idx, sub) && sub.Node? && Distinct(sub) && 0 < j < |sub.chain|
    ensures var x := sub.chain[j]; x in mem && mem[x].fd in mem && mem[x].bk in mem
    ensures Rep(RingRemove(mem, sub.chain[j]), par, idx, sub.(chain := Unchain(sub.chain, j)))
  {
    hide Rep, Agree, Distinct;
    DistinctParts(sub);
    Unfold(mem, par, idx, sub);
    RingRemoveChain(mem, sub.chain, sub.size, idx, j);
    var n, x := |sub.chain|, sub.chain[j];
    assert ChainCell(mem, sub.chain, j, sub.size, idx);
    var f, r := sub.chain[NextOf(j, n)], sub.chain[PrevOf(j, n)];
    RingRemoveCells(mem, x);
    var mem' := RingRemove(mem, x);
    assert f in Members(sub.chain) && r in Members(sub.chain);
    AgreeBy(mem, mem', Addrs(sub.left), {f, r});
    AgreeBy(mem, mem', Addrs(sub.right), {f, r});
    RepFrame(mem, mem', sub.chain[0], idx, sub.left);
    RepFrame(mem, mem', sub.chain[0], idx, sub.right);
    Fold(mem', par, idx, sub.(chain := Unchain(sub.chain, j)));
  }
}
