// How a size trie lies in memory: the fields of malloc_tree_chunk
// (src/runtime/dlmalloc/malloc.c:2405-2417) and the link structure that do_check_tree asserts.

module TrieMemory {
  import opened SizeTrie
  import opened TreeIndex
  import opened BinMaps

  /** One malloc_tree_chunk; `size` is chunksize(t), which is fixed while the chunk is binned. */
  datatype Cell = Cell(size: nat, fd: int, bk: int, left: int, right: int, parent: int, index: nat)

  type Mem = map<int, Cell>

  /** The address of bin slot i, which a root holds as its parent. Chunk addresses are positive. */
  function BinAddr(i: nat): int {
    -1 - i
  }

  function NextOf(i: nat, n: nat): nat
    requires i < n
  {
    if i + 1 == n then 0 else i + 1
  }

  function PrevOf(i: nat, n: nat): nat
    requires i < n
  {
    if i == 0 then n - 1 else i - 1
  }

  /** Chunk i of a ring: linked both ways, of the ring's size and bin, with null tree links unless it is first. */
  ghost predicate ChainCell(mem: Mem, chain: seq<int>, i: int, size: nat, idx: nat)
    requires 0 <= i < |chain|
  {
    && chain[i] in mem && chain[i] > 0
    && var c := mem[chain[i]];
       && c.fd == chain[NextOf(i, |chain|)] && c.bk == chain[PrevOf(i, |chain|)]
       && c.size == size && c.index == idx
       && (i > 0 ==> c.parent == 0 && c.left == 0 && c.right == 0)
  }

  ghost predicate ChainAt(mem: Mem, chain: seq<int>, size: nat, idx: nat) {
    forall i :: 0 <= i < |chain| ==> ChainCell(mem, chain, i, size, idx)
  }

  ghost predicate NodeAt(mem: Mem, par: int, idx: nat, t: Trie)
    requires t.Node?
  {
    && t.chain != []
    && ChainAt(mem, t.chain, t.size, idx)
    && t.chain[0] in mem && t.chain[0] > 0
    && mem[t.chain[0]].parent == par
    && mem[t.chain[0]].left == Root(t.left)
    && mem[t.chain[0]].right == Root(t.right)
  }

  /** Memory holds the trie t below parent address par. */
  ghost predicate Rep(mem: Mem, par: int, idx: nat, t: Trie)
    decreases t
  {
    t.Node? ==> NodeAt(mem, par, idx, t) && Rep(mem, t.chain[0], idx, t.left) && Rep(mem, t.chain[0], idx, t.right)
  }

  ghost predicate Agree(mem: Mem, mem': Mem, addrs: set<int>) {
    forall a :: a in addrs && a in mem ==> a in mem' && mem'[a] == mem[a]
  }

  lemma {:induction false} ChainFrame(mem: Mem, mem': Mem, chain: seq<int>, size: nat, idx: nat)
    requires ChainAt(mem, chain, size, idx) && Agree(mem, mem', Members(chain))
    ensures ChainAt(mem', chain, size, idx)
  {
    forall i | 0 <= i < |chain|
      ensures ChainCell(mem', chain, i, size, idx)
    {
      assert ChainCell(mem, chain, i, size, idx) && chain[i] in Members(chain);
    }
  }

  lemma {:induction false} NodeFrame(mem: Mem, mem': Mem, par: int, idx: nat, t: Trie)
    requires t.Node? && NodeAt(mem, par, idx, t) && Agree(mem, mem', Members(t.chain))
    ensures NodeAt(mem', par, idx, t)
  {
    hide ChainAt;
    ChainFrame(mem, mem', t.chain, t.size, idx);
    assert t.chain[0] in Members(t.chain);
  }

  lemma {:induction false} RepFrame(mem: Mem, mem': Mem, par: int, idx: nat, t: Trie)
    requires Rep(mem, par, idx, t) && Agree(mem, mem', Addrs(t))
    ensures Rep(mem', par, idx, t)
    decreases t
  {
    if t.Node? {
      NodeFrame(mem, mem', par, idx, t);
      RepFrame(mem, mem', t.chain[0], idx, t.left);
      RepFrame(mem, mem', t.chain[0], idx, t.right);
    }
  }

  lemma {:induction false} RepAddrs(mem: Mem, par: int, idx: nat, t: Trie)
    requires Rep(mem, par, idx, t)
    ensures forall a :: a in Addrs(t) ==> a in mem && a > 0 && mem[a].index == idx
    ensures Root(t) == 0 <==> t.Nil?
    decreases t
  {
    if t.Node? {
      forall i | 0 <= i < |t.chain|
        ensures t.chain[i] in mem && t.chain[i] > 0 && mem[t.chain[i]].index == idx
      {
        assert ChainCell(mem, t.chain, i, t.size, idx);
      }
      RepAddrs(mem, t.chain[0], idx, t.left);
      RepAddrs(mem, t.chain[0], idx, t.right);
    }
  }

  /** The node above the end of a non-empty path. */
  ghost function Above(t: Trie, path: Path): (p: Trie)
    requires ValidPath(t, path) && path != []
    ensures p.Node? && Child(p, path[|path| - 1]) == Sub(t, path)
  {
    if |path| == 1 then t
    else
      assert path[1..][|path[1..]| - 1] == path[|path| - 1];
      Above(Child(t, path[0]), path[1..])
  }

  lemma {:induction false} AboveIsSub(t: Trie, path: Path, b: bool)
    requires ValidPath(t, path) && Sub(t, path).Node?
    ensures ValidPath(t, path + [b]) && Above(t, path + [b]) == Sub(t, path)
    decreases path
  {
    SubSnoc(t, path, b);
    if path != [] {
      assert (path + [b])[1..] == path[1..] + [b];
      AboveIsSub(Child(t, path[0]), path[1..], b);
    }
  }

  lemma {:induction false} AboveAddrs(t: Trie, path: Path)
    requires ValidPath(t, path) && path != [] && Distinct(t)
    ensures Above(t, path).chain != [] && Members(Above(t, path).chain) <= Addrs(t) - Addrs(Sub(t, path))
    decreases path
  {
    var c := Child(t, path[0]);
    if |path| == 1 {
      assert path[1..] == [];
      assert Sub(t, path) == c;
    } else {
      AboveAddrs(c, path[1..]);
    }
  }

  /** A subtree is itself represented, below the node above it. */
  lemma {:induction false} RepSub(mem: Mem, par: int, idx: nat, t: Trie, path: Path)
    requires Rep(mem, par, idx, t) && ValidPath(t, path)
    ensures Rep(mem, if path == [] then par else Root(Above(t, path)), idx, Sub(t, path))
    decreases path
  {
    if path != [] {
      RepSub(mem, t.chain[0], idx, Child(t, path[0]), path[1..]);
    }
  }

  function SetChild(c: Cell, right: bool, v: int): Cell {
    if right then c.(right := v) else c.(left := v)
  }

  lemma {:induction false} AgreeSubset(mem: Mem, mem': Mem, all: set<int>, part: set<int>)
    requires Agree(mem, mem', all) && part <= all
    ensures Agree(mem, mem', part)
  {
  }

  lemma {:induction false} PutRepChild(mem: Mem, mem': Mem, par: int, idx: nat, t: Trie, right: bool, s: Trie)
    requires t.Node? && Rep(mem, par, idx, t) && Distinct(t)
    requires Agree(mem, mem', Addrs(t) - Addrs(Child(t, right)) - {t.chain[0]})
    requires t.chain[0] in mem' && mem'[t.chain[0]] == SetChild(mem[t.chain[0]], right, Root(s))
    requires Rep(mem', t.chain[0], idx, s)
    ensures Rep(mem', par, idx, if right then t.(right := s) else t.(left := s))
  {
    hide Agree;
    var q, o := t.chain[0], Child(t, !right);
    var outside := Addrs(t) - Addrs(Child(t, right)) - {q};
    assert q in Members(t.chain);
    AgreeSubset(mem, mem', outside, Addrs(o));
    AgreeSubset(mem, mem', outside, Members(t.chain) - {q});
    RepFrame(mem, mem', q, idx, o);
    RootSlotChanged(mem, mem', par, idx, t, right, s);
  }

  /**
   * Rewriting one child slot replaces the subtree: everything outside the subtree keeps its
   * cell except the node above, whose slot now holds the root of s.
   */
  lemma {:induction false} PutRep(mem: Mem, mem': Mem, par: int, idx: nat, t: Trie, path: Path, s: Trie)
    requires Rep(mem, par, idx, t) && Distinct(t) && ValidPath(t, path) && path != []
    requires var q := Root(Above(t, path));
             && Agree(mem, mem', Addrs(t) - Addrs(Sub(t, path)) - {q})
             && q in mem && q in mem' && mem'[q] == SetChild(mem[q], path[|path| - 1], Root(s))
             && Rep(mem', q, idx, s)
    ensures Rep(mem', par, idx, Put(t, path, s))
    decreases path
  {
    hide Agree, ChainAt;
    if |path| == 1 {
      assert path[1..] == [];
      PutRepChild(mem, mem', par, idx, t, path[0], s);
    } else {
      PutRepBelow(mem, mem', par, idx, t, path, s);
      var c := Child(t, path[0]);
      assert path[1..][|path[1..]| - 1] == path[|path| - 1];
      PutRep(mem, mem', t.chain[0], idx, c, path[1..], s);
    }
  }

  /** Above the changed slot nothing changes: what the inductive step of PutRep needs. */
  lemma {:induction false} PutRepBelow(mem: Mem, mem': Mem, par: int, idx: nat, t: Trie, path: Path, s: Trie)
    requires Rep(mem, par, idx, t) && Distinct(t) && ValidPath(t, path) && |path| > 1
    requires Agree(mem, mem', Addrs(t) - Addrs(Sub(t, path)) - {Root(Above(t, path))})
    ensures var c, q := Child(t, path[0]), Root(Above(t, path));
            && Agree(mem, mem', Addrs(c) - Addrs(Sub(c, path[1..])) - {q})
            && Root(Put(c, path[1..], s)) == Root(c)
            && NodeAt(mem', par, idx, t) && Rep(mem', t.chain[0], idx, Child(t, !path[0]))
  {
    hide Agree, NodeAt;
    var c, o, q := Child(t, path[0]), Child(t, !path[0]), Root(Above(t, path));
    SubAddrs(c, path[1..]);
    AboveAddrs(c, path[1..]);
    assert q in Members(Above(c, path[1..]).chain);
    var outside := Addrs(t) - Addrs(Sub(t, path)) - {q};
    AgreeSubset(mem, mem', outside, Addrs(c) - Addrs(Sub(c, path[1..])) - {q});
    AgreeSubset(mem, mem', outside, Members(t.chain));
    AgreeSubset(mem, mem', outside, Addrs(o));
    NodeFrame(mem, mem', par, idx, t);
    RepFrame(mem, mem', t.chain[0], idx, o);
  }

  lemma {:induction false} RootSlotChanged(mem: Mem, mem': Mem, par: int, idx: nat, t: Trie, right: bool, s: Trie)
    requires t.Node? && NodeAt(mem, par, idx, t) && Distinct(t)
    requires Agree(mem, mem', Members(t.chain) - {t.chain[0]})
    requires t.chain[0] in mem' && mem'[t.chain[0]] == SetChild(mem[t.chain[0]], right, Root(s))
    ensures NodeAt(mem', par, idx, if right then t.(right := s) else t.(left := s))
  {
    forall i | 0 <= i < |t.chain|
      ensures ChainCell(mem', t.chain, i, t.size, idx)
    {
      assert ChainCell(mem, t.chain, i, t.size, idx) && t.chain[i] in Members(t.chain);
    }
  }
}
