// The tree bins of malloc_state: the treemap, the 32 roots and the linked tries below them
// (src/runtime/dlmalloc/malloc.c:3654-3791), and what every edit of one bin keeps.

module TreeBins {
  import opened Powers
  import opened BinMaps
  import opened TreeIndex
  import opened SizeTrie
  import opened TrieMemory
  import opened TrieEdit

  /** The concrete fields (mem, treemap, roots) with what they represent: one trie a bin, and chunk sizes. */
  datatype Bins = Bins(mem: Mem, treemap: nat, roots: seq<int>, trees: seq<Trie>, contents: map<int, nat>)

  /** What do_check_treebin and do_check_tree assert of bin i. */
  ghost predicate BinOk(mem: Mem, root: int, marked: bool, i: nat, t: Trie)
    requires i < TREEBINS
  {
    && root == Root(t)
    && marked == t.Node?
    && InRange(t, BinLow(i), BinBits(i))
    && (forall s :: s in Sizes(t) ==> InBin(i, s))
    && Distinct(t)
    && UniqueSizes(t)
    && Rep(mem, BinAddr(i), i, t)
  }

  ghost predicate Shape(b: Bins) {
    |b.roots| == TREEBINS && |b.trees| == TREEBINS && b.treemap < W
  }

  ghost predicate BinsOk(b: Bins)
    requires Shape(b)
  {
    forall i :: 0 <= i < TREEBINS ==> BinOk(b.mem, b.roots[i], Bit(b.treemap, i), i, b.trees[i])
  }

  /** `contents` is exactly what the tries store. */
  ghost predicate ContentsOk(b: Bins)
    requires Shape(b)
  {
    && (forall a :: a in b.contents ==>
          0x100 <= b.contents[a] < W && TreeIndexOf(b.contents[a]) < TREEBINS
          && Stored(b.trees[TreeIndexOf(b.contents[a])], a, b.contents[a]))
    && (forall i, a, n :: 0 <= i < TREEBINS && Stored(b.trees[i], a, n) ==> a in b.contents && b.contents[a] == n)
  }

  ghost predicate ValidBins(b: Bins) {
    Shape(b) && BinsOk(b) && ContentsOk(b)
  }

  lemma {:induction false} BinOf(b: Bins, i: nat)
    requires ValidBins(b) && i < TREEBINS
    ensures BinOk(b.mem, b.roots[i], Bit(b.treemap, i), i, b.trees[i])
  {
  }

  /** A chunk is stored in the bin of its size. */
  lemma {:induction false} StoredInBin(b: Bins, i: nat, a: int, n: nat)
    requires ValidBins(b) && i < TREEBINS && Stored(b.trees[i], a, n)
    ensures InBin(i, n) && 0x100 <= n && i == TreeIndexOf(n)
    ensures a in b.contents && b.contents[a] == n
  {
    hide InBin;
    BinOf(b, i);
    StoredAddr(b.trees[i], a, n);
    assert InBin(i, n);
    LargeSizes(i, n);
    TreeIndexInBin(n);
    BinUnique(i, TreeIndexOf(n), n, n);
  }

  lemma {:induction false} LargeSizes(i: nat, n: nat)
    requires InBin(i, n)
    ensures 0x100 <= n < W
  {
    hide Pow2;
    Pow2Of8();
    if i > 0 { MinSizeOrder(0, i); }
    Pow2Zero();
  }

  /** The chunks of two bins are different chunks. */
  lemma {:induction false} BinsDisjoint(b: Bins, i: nat, j: nat)
    requires ValidBins(b) && i < TREEBINS && j < TREEBINS && i != j
    ensures Addrs(b.trees[i]) !! Addrs(b.trees[j])
  {
    hide BinsOk, ContentsOk;
    forall a | a in Addrs(b.trees[i]) && a in Addrs(b.trees[j])
      ensures false
    {
      var p := AddrStored(b.trees[i], a);
      var q := AddrStored(b.trees[j], a);
      StoredInBin(b, i, a, Sub(b.trees[i], p).size);
      StoredInBin(b, j, a, Sub(b.trees[j], q).size);
    }
  }

  lemma {:induction false} AddrsAreContents(b: Bins, i: nat)
    requires ValidBins(b) && i < TREEBINS
    ensures Addrs(b.trees[i]) <= b.contents.Keys
  {
    hide BinsOk, ContentsOk;
    forall a | a in Addrs(b.trees[i])
      ensures a in b.contents
    {
      var p := AddrStored(b.trees[i], a);
      StoredInBin(b, i, a, Sub(b.trees[i], p).size);
    }
  }

  // ---------- replacing one bin ----------

  /** The state after an edit of bin i. */
  function Replaced(b: Bins, mem: Mem, treemap: nat, i: nat, t: Trie, contents: map<int, nat>): Bins
    requires Shape(b) && i < TREEBINS
  {
    Bins(mem, treemap, b.roots[i := Root(t)], b.trees[i := t], contents)
  }

  lemma {:induction false} OtherBinsKept(b: Bins, mem: Mem, treemap: nat, i: nat, t: Trie, contents: map<int, nat>, x: int, j: nat)
    requires ValidBins(b) && i < TREEBINS && j < TREEBINS && i != j
    requires OtherMarks(b.treemap, treemap, i)
    requires Changed(b.mem, mem, Addrs(b.trees[i]) + {x}) && (x !in b.contents || x in Addrs(b.trees[i]))
    ensures BinOk(mem, b.roots[j], Bit(treemap, j), j, b.trees[j])
  {
    hide Rep, InRange, Distinct, UniqueSizes, BinsOk, ContentsOk, Changed;
    BinOf(b, j);
    BinsDisjoint(b, i, j);
    AddrsAreContents(b, j);
    AgreeBy(b.mem, mem, Addrs(b.trees[j]), Addrs(b.trees[i]) + {x});
    RepFrame(b.mem, mem, BinAddr(j), j, b.trees[j]);
  }

  /** What the edited contents must be: bin i's chunks as the new trie has them, all others as before. */
  ghost predicate ContentsEdited(b: Bins, i: nat, t: Trie, contents: map<int, nat>)
    requires Shape(b) && i < TREEBINS
  {
    && (forall a, n :: Stored(t, a, n) ==> a in contents && contents[a] == n)
    && (forall a :: a in contents ==>
          Stored(t, a, contents[a])
          || (a in b.contents && contents[a] == b.contents[a] && !Stored(b.trees[i], a, contents[a])))
    && (forall a :: a in b.contents && !Stored(b.trees[i], a, b.contents[a]) ==>
          a in contents && contents[a] == b.contents[a])
  }

  lemma {:induction false} EditedContentsOk(b: Bins, mem: Mem, treemap: nat, i: nat, t: Trie, contents: map<int, nat>)
    requires ValidBins(b) && i < TREEBINS && treemap < W
    requires forall s :: s in Sizes(t) ==> InBin(i, s)
    requires ContentsEdited(b, i, t, contents)
    ensures var b' := Replaced(b, mem, treemap, i, t, contents); Shape(b') && ContentsOk(b')
  {
    hide BinsOk, InBin, TreeIndexOf;
    var b' := Replaced(b, mem, treemap, i, t, contents);
    forall a | a in contents
      ensures 0x100 <= contents[a] < W && TreeIndexOf(contents[a]) < TREEBINS
              && Stored(b'.trees[TreeIndexOf(contents[a])], a, contents[a])
    {
      var n := contents[a];
      if Stored(t, a, n) {
        StoredAddr(t, a, n);
        LargeSizes(i, n);
        TreeIndexInBin(n);
        BinUnique(i, TreeIndexOf(n), n, n);
      } else {
        assert Stored(b.trees[TreeIndexOf(n)], a, n);
      }
    }
    forall j, a, n | 0 <= j < TREEBINS && Stored(b'.trees[j], a, n)
      ensures a in contents && contents[a] == n
    {
      if j != i {
        StoredInBin(b, j, a, n);
        if Stored(b.trees[i], a, n) { StoredInBin(b, i, a, n); }
      }
    }
  }

  /** Editing one bin correctly keeps all of them. */
  lemma {:induction false} ReplaceBin(b: Bins, mem: Mem, treemap: nat, i: nat, t: Trie, contents: map<int, nat>, x: int)
    requires ValidBins(b) && i < TREEBINS && OtherMarks(b.treemap, treemap, i)
    requires Changed(b.mem, mem, Addrs(b.trees[i]) + {x}) && (x !in b.contents || x in Addrs(b.trees[i]))
    requires BinOk(mem, Root(t), Bit(treemap, i), i, t)
    requires ContentsEdited(b, i, t, contents)
    ensures ValidBins(Replaced(b, mem, treemap, i, t, contents))
  {
    hide Rep, InRange, Distinct, UniqueSizes, Changed, ContentsEdited, ContentsOk, InBin;
    EditedContentsOk(b, mem, treemap, i, t, contents);
    forall j | 0 <= j < TREEBINS && j != i
      ensures BinOk(mem, b.roots[j], Bit(treemap, j), j, b.trees[j])
    {
      OtherBinsKept(b, mem, treemap, i, t, contents, x, j);
    }
  }
}
