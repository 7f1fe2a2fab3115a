// The bitwise size trie as a value: what a tree bin of src/runtime/dlmalloc/malloc.c
// holds, the invariant that do_check_tree asserts (lines 3306-3355), and the effect on both
// of replacing one subtree, which is all that insertion and unlinking do.

module SizeTrie {
  import opened Powers

  /** `chain` is the ring of equal-sized chunks in fd order; chain[0] is the one linked into the tree. */
  datatype Trie = Nil | Node(chain: seq<int>, size: nat, left: Trie, right: Trie)

  /** Directions from the root; true is child[1]. */
  type Path = seq<bool>

  function Child(t: Trie, right: bool): Trie
    requires t.Node?
  {
    if right then t.right else t.left
  }

  /** The tree's address: 0 for the null pointer. */
  function Root(t: Trie): int {
    if t.Node? && t.chain != [] then t.chain[0] else 0
  }

  ghost function Members(chain: seq<int>): set<int> {
    set a | a in chain
  }

  ghost function Addrs(t: Trie): set<int> {
    if t.Nil? then {} else Members(t.chain) + Addrs(t.left) + Addrs(t.right)
  }

  ghost function Sizes(t: Trie): set<nat> {
    if t.Nil? then {} else {t.size} + Sizes(t.left) + Sizes(t.right)
  }

  /** Chunk a is stored with size n. */
  ghost predicate Stored(t: Trie, a: int, n: nat) {
    t.Node? && ((a in t.chain && n == t.size) || Stored(t.left, a, n) || Stored(t.right, a, n))
  }

  /** Every chunk appears once: within its ring, and in one node only. */
  ghost predicate Distinct(t: Trie) {
    t.Node? ==>
      && t.chain != []
      && (forall i, j :: 0 <= i < j < |t.chain| ==> t.chain[i] != t.chain[j])
      && Members(t.chain) !! Addrs(t.left) && Members(t.chain) !! Addrs(t.right)
      && Addrs(t.left) !! Addrs(t.right)
      && Distinct(t.left) && Distinct(t.right)
  }

  /** Every size under the k-bit prefix lo, split by bit k-1 at each level; a node itself may have any of them. */
  ghost predicate InRange(t: Trie, lo: nat, k: nat)
    decreases t
  {
    t.Node? ==>
      && lo <= t.size < lo + Pow2(k)
      && (k == 0 ==> t.left.Nil? && t.right.Nil?)
      && (k > 0 ==> InRange(t.left, lo, k - 1) && InRange(t.right, lo + Pow2(k - 1), k - 1))
  }

  /** One node for each size. */
  ghost predicate UniqueSizes(t: Trie) {
    t.Node? ==>
      && t.size !in Sizes(t.left) && t.size !in Sizes(t.right)
      && UniqueSizes(t.left) && UniqueSizes(t.right)
  }

  lemma {:induction false} StoredAddr(t: Trie, a: int, n: nat)
    requires Stored(t, a, n)
    ensures a in Addrs(t) && n in Sizes(t)
  {
    if a in t.chain && n == t.size {
    } else if Stored(t.left, a, n) {
      StoredAddr(t.left, a, n);
    } else {
      StoredAddr(t.right, a, n);
    }
  }

  /** Conversely, every address is stored with a size, and the lemma finds the node that holds it. */
  lemma {:induction false} AddrStored(t: Trie, a: int) returns (path: Path)
    requires a in Addrs(t)
    ensures ValidPath(t, path) && Sub(t, path).Node? && a in Sub(t, path).chain
    ensures Stored(t, a, Sub(t, path).size)
  {
    if a in t.chain {
      path := [];
    } else if a in Addrs(t.left) {
      var p := AddrStored(t.left, a);
      path := [false] + p;
      assert path[1..] == p;
    } else {
      var p := AddrStored(t.right, a);
      path := [true] + p;
      assert path[1..] == p;
    }
  }

  /** Every size in the tree belongs to some chunk of it. */
  lemma {:induction false} SizeStored(t: Trie, n: nat) returns (a: int)
    requires n in Sizes(t) && Distinct(t)
    ensures Stored(t, a, n)
  {
    if n == t.size {
      a := t.chain[0];
    } else if n in Sizes(t.left) {
      a := SizeStored(t.left, n);
    } else {
      a := SizeStored(t.right, n);
    }
  }

  lemma {:induction false} SizesInRange(t: Trie, lo: nat, k: nat)
    requires InRange(t, lo, k)
    ensures forall s :: s in Sizes(t) ==> lo <= s < lo + Pow2(k)
    decreases t
  {
    if t.Node? && k > 0 {
      assert Pow2(k) == 2 * Pow2(k - 1);
      SizesInRange(t.left, lo, k - 1);
      SizesInRange(t.right, lo + Pow2(k - 1), k - 1);
    }
  }

  /** Each left subtree lies below its right subtree. */
  lemma {:induction false} LeftBelowRight(t: Trie, lo: nat, k: nat, s: nat, u: nat)
    requires InRange(t, lo, k) && t.Node? && s in Sizes(t.left) && u in Sizes(t.right)
    ensures s < u
  {
    assert k > 0;
    SizesInRange(t.left, lo, k - 1);
    SizesInRange(t.right, lo + Pow2(k - 1), k - 1);
  }

  // ---------- subtrees and their replacement ----------

  predicate ValidPath(t: Trie, path: Path) {
    path == [] || (t.Node? && ValidPath(Child(t, path[0]), path[1..]))
  }

  function Sub(t: Trie, path: Path): Trie
    requires ValidPath(t, path)
  {
    if path == [] then t else Sub(Child(t, path[0]), path[1..])
  }

  function Put(t: Trie, path: Path, s: Trie): Trie
    requires ValidPath(t, path)
  {
    if path == [] then s
    else if path[0] then t.(right := Put(t.right, path[1..], s))
    else t.(left := Put(t.left, path[1..], s))
  }

  /** The prefix under which the subtree at `path` lies. */
  ghost function LowOf(lo: nat, k: nat, path: Path): nat
    requires |path| <= k
    decreases path
  {
    if path == [] then lo
    else LowOf(if path[0] then lo + Pow2(k - 1) else lo, k - 1, path[1..])
  }

  lemma {:induction false} SubSnoc(t: Trie, path: Path, b: bool)
    requires ValidPath(t, path) && Sub(t, path).Node?
    ensures ValidPath(t, path + [b]) && Sub(t, path + [b]) == Child(Sub(t, path), b)
    decreases path
  {
    if path != [] {
      assert (path + [b])[1..] == path[1..] + [b];
      SubSnoc(Child(t, path[0]), path[1..], b);
    } else {
      assert (path + [b])[1..] == [];
    }
  }

  lemma {:induction false} LowSnoc(lo: nat, k: nat, path: Path, b: bool)
    requires |path| < k
    ensures LowOf(lo, k, path + [b]) == LowOf(lo, k, path) + (if b then Pow2(k - |path| - 1) else 0)
    decreases path
  {
    if path == [] {
      assert (path + [b])[1..] == [];
    } else {
      assert (path + [b])[1..] == path[1..] + [b];
      LowSnoc(if path[0] then lo + Pow2(k - 1) else lo, k - 1, path[1..], b);
    }
  }

  lemma {:induction false} SubRange(t: Trie, lo: nat, k: nat, path: Path)
    requires InRange(t, lo, k) && ValidPath(t, path)
    ensures Sub(t, path).Node? ==> |path| <= k
    ensures |path| <= k ==> InRange(Sub(t, path), LowOf(lo, k, path), k - |path|)
    decreases path
  {
    if path != [] {
      var c := Child(t, path[0]);
      if k > 0 {
        SubRange(c, if path[0] then lo + Pow2(k - 1) else lo, k - 1, path[1..]);
      } else {
        assert c.Nil? && path[1..] == [];
      }
    }
  }

  lemma {:induction false} SubAddrs(t: Trie, path: Path)
    requires ValidPath(t, path)
    ensures Addrs(Sub(t, path)) <= Addrs(t)
    ensures Sizes(Sub(t, path)) <= Sizes(t)
    ensures Distinct(t) ==> Distinct(Sub(t, path))
    ensures UniqueSizes(t) ==> UniqueSizes(Sub(t, path))
    decreases path
  {
    if path != [] { SubAddrs(Child(t, path[0]), path[1..]); }
  }

  lemma {:induction false} PutRange(t: Trie, lo: nat, k: nat, path: Path, s: Trie)
    requires InRange(t, lo, k) && ValidPath(t, path) && |path| <= k
    requires InRange(s, LowOf(lo, k, path), k - |path|)
    ensures InRange(Put(t, path, s), lo, k)
    decreases path
  {
    if path != [] {
      PutRange(Child(t, path[0]), if path[0] then lo + Pow2(k - 1) else lo, k - 1, path[1..], s);
    }
  }

  /** Replacing a subtree replaces exactly its chunks. */
  lemma {:induction false} PutAddrs(t: Trie, path: Path, s: Trie)
    requires ValidPath(t, path) && Distinct(t) && Distinct(s)
    requires Addrs(s) !! (Addrs(t) - Addrs(Sub(t, path)))
    ensures Distinct(Put(t, path, s))
    ensures Addrs(Put(t, path, s)) == Addrs(t) - Addrs(Sub(t, path)) + Addrs(s)
    decreases path
  {
    if path != [] {
      SubAddrs(Child(t, path[0]), path[1..]);
      PutAddrs(Child(t, path[0]), path[1..], s);
    }
  }

  lemma {:induction false} PutStored(t: Trie, path: Path, s: Trie, a: int, n: nat)
    requires ValidPath(t, path) && Distinct(t)
    ensures Stored(Put(t, path, s), a, n)
            <==> (Stored(t, a, n) && a !in Addrs(Sub(t, path))) || Stored(s, a, n)
    decreases path
  {
    if path == [] {
      if Stored(t, a, n) { StoredAddr(t, a, n); }
    } else {
      var c, o := Child(t, path[0]), Child(t, !path[0]);
      SubAddrs(c, path[1..]);
      PutStored(c, path[1..], s, a, n);
      if Stored(o, a, n) { StoredAddr(o, a, n); }
    }
  }

  lemma {:induction false} PutSizes(t: Trie, path: Path, s: Trie)
    requires ValidPath(t, path)
    ensures Sizes(Put(t, path, s)) <= Sizes(t) + Sizes(s)
    decreases path
  {
    if path != [] { PutSizes(Child(t, path[0]), path[1..], s); }
  }

  /** Sizes outside a subtree that also occur in it: none, in a trie of unique sizes. */
  lemma {:induction false} PutUnique(t: Trie, lo: nat, k: nat, path: Path, s: Trie, added: set<nat>)
    requires InRange(t, lo, k) && ValidPath(t, path) && |path| <= k
    requires InRange(s, LowOf(lo, k, path), k - |path|)
    requires UniqueSizes(t) && UniqueSizes(s)
    requires Sizes(s) <= Sizes(Sub(t, path)) + added
    requires added !! Sizes(t)
    ensures UniqueSizes(Put(t, path, s))
    decreases path
  {
    if path != [] {
      var c := Child(t, path[0]);
      PutUnique(c, if path[0] then lo + Pow2(k - 1) else lo, k - 1, path[1..], s, added);
      PutSizes(c, path[1..], s);
      SubAddrs(c, path[1..]);
    }
  }

  // ---------- removing one chunk of the root node ----------

  /** The rightmost leaf: child[1] where there is one, else child[0]. */
  function LeafPath(t: Trie): (path: Path)
    requires t.Node?
    ensures ValidPath(t, path)
    ensures var leaf := Sub(t, path); leaf.Node? && leaf.left.Nil? && leaf.right.Nil?
    ensures path == [] <==> t.left.Nil? && t.right.Nil?
  {
    if t.right.Node? then
      var p := LeafPath(t.right);
      assert ([true] + p)[1..] == p;
      [true] + p
    else if t.left.Node? then
      var p := LeafPath(t.left);
      assert ([false] + p)[1..] == p;
      [false] + p
    else []
  }

  /** Step 2 of unlinking: the last chunk of its size is replaced by a leaf below it. */
  function ReplaceByLeaf(t: Trie): Trie
    requires t.Node?
  {
    var p := LeafPath(t);
    if p == [] then Nil
    else
      var leaf, rest := Sub(t, p), Put(t, p, Nil);
      Node(leaf.chain, leaf.size, rest.left, rest.right)
  }

  /** Step 1: a ring loses x; when x was the tree's own node its bk neighbour takes over. */
  function Unchain(chain: seq<int>, j: nat): seq<int>
    requires j < |chain| && |chain| > 1
  {
    if j == 0 then [chain[|chain| - 1]] + chain[1..|chain| - 1] else chain[..j] + chain[j + 1..]
  }

  lemma {:induction false} UnchainMembers(chain: seq<int>, j: nat)
    requires j < |chain| && |chain| > 1
    requires forall i, k :: 0 <= i < k < |chain| ==> chain[i] != chain[k]
    ensures Members(Unchain(chain, j)) == Members(chain) - {chain[j]}
    ensures var c := Unchain(chain, j); forall i, k :: 0 <= i < k < |c| ==> c[i] != c[k]
  {
    var c := Unchain(chain, j);
    forall a | a in Members(chain) && a != chain[j]
      ensures a in c
    {
      var i :| 0 <= i < |chain| && chain[i] == a;
      if j == 0 {
        if i == |chain| - 1 { assert c[0] == a; } else { assert c[i] == a; }
      } else if i < j {
        assert c[i] == a;
      } else {
        assert c[i - 1] == a;
      }
    }
  }

  lemma {:induction false} LeafParts(t: Trie)
    requires t.Node? && LeafPath(t) != []
    ensures var p := LeafPath(t);
            var rest := Put(t, p, Nil);
            rest.Node? && rest.chain == t.chain && rest.size == t.size
            && Addrs(Sub(t, p)) == Members(Sub(t, p).chain)
  {
  }

  lemma {:induction false} ReplaceByLeafRange(t: Trie, lo: nat, k: nat)
    requires t.Node? && InRange(t, lo, k) && UniqueSizes(t)
    ensures InRange(ReplaceByLeaf(t), lo, k) && UniqueSizes(ReplaceByLeaf(t))
    ensures Sizes(ReplaceByLeaf(t)) <= Sizes(t)
  {
    var p := LeafPath(t);
    if p != [] {
      LeafParts(t);
      SubRange(t, lo, k, p);
      SubAddrs(t, p);
      PutRange(t, lo, k, p, Nil);
      PutUnique(t, lo, k, p, Nil, {});
      PutSizes(t, p, Nil);
      SizesInRange(t, lo, k);
      LeafGone(t, lo, k, p);
    }
  }

  lemma {:induction false} ChildrenApart(t: Trie, lo: nat, k: nat)
    requires InRange(t, lo, k) && t.Node?
    ensures Sizes(t.left) !! Sizes(t.right)
  {
    if k > 0 {
      SizesInRange(t.left, lo, k - 1);
      SizesInRange(t.right, lo + Pow2(k - 1), k - 1);
    }
  }

  /** Once its leaf is cut, a size is nowhere in the tree. */
  lemma {:induction false} LeafGone(t: Trie, lo: nat, k: nat, p: Path)
    requires InRange(t, lo, k) && UniqueSizes(t) && ValidPath(t, p) && Sub(t, p).Node?
    ensures Sub(t, p).size !in Sizes(Put(t, p, Nil))
    decreases p
  {
    if p != [] {
      var c := Child(t, p[0]);
      SubRange(t, lo, k, p);
      LeafGone(c, if p[0] then lo + Pow2(k - 1) else lo, k - 1, p[1..]);
      SubAddrs(c, p[1..]);
      assert Sub(t, p).size in Sizes(c);
      ChildrenApart(t, lo, k);
    }
  }

  lemma {:induction false} ReplaceByLeafAddrs(t: Trie)
    requires t.Node? && Distinct(t)
    ensures Distinct(ReplaceByLeaf(t))
    ensures Addrs(ReplaceByLeaf(t)) == Addrs(t) - Members(t.chain)
  {
    var p := LeafPath(t);
    if p != [] {
      LeafParts(t);
      SubAddrs(t, p);
      PutAddrs(t, p, Nil);
      SubAddrs(Child(t, p[0]), p[1..]);
    }
  }

  lemma {:induction false} ReplaceByLeafStored(t: Trie, a: int, n: nat)
    requires t.Node? && Distinct(t)
    ensures Stored(ReplaceByLeaf(t), a, n) <==> Stored(t, a, n) && a !in t.chain
  {
    var p := LeafPath(t);
    if p != [] {
      LeafParts(t);
      PutStored(t, p, Nil, a, n);
      SubAddrs(Child(t, p[0]), p[1..]);
      var rest := Put(t, p, Nil);
      if a in Sub(t, p).chain { NodeStored(t, p, a, n); }
      if Stored(t.left, a, n) { StoredAddr(t.left, a, n); }
      if Stored(t.right, a, n) { StoredAddr(t.right, a, n); }
      PutAddrs(t, p, Nil);
      if Stored(rest.left, a, n) { StoredAddr(rest.left, a, n); }
      if Stored(rest.right, a, n) { StoredAddr(rest.right, a, n); }
    }
  }

  /** A chunk is stored with the size of the node whose ring holds it, and no other. */
  lemma {:induction false} NodeStored(t: Trie, p: Path, a: int, n: nat)
    requires ValidPath(t, p) && Sub(t, p).Node? && a in Sub(t, p).chain && Distinct(t)
    ensures Stored(t, a, n) <==> n == Sub(t, p).size
    decreases p
  {
    if p == [] {
      if Stored(t.left, a, n) { StoredAddr(t.left, a, n); }
      if Stored(t.right, a, n) { StoredAddr(t.right, a, n); }
    } else {
      var c, o := Child(t, p[0]), Child(t, !p[0]);
      NodeStored(c, p[1..], a, n);
      SubAddrs(c, p[1..]);
      assert Sub(t, p) == Sub(c, p[1..]);
      assert a in Addrs(c) && a !in t.chain && a !in Addrs(o);
      if Stored(o, a, n) { StoredAddr(o, a, n); }
      assert Stored(t, a, n) <==> Stored(c, a, n);
    }
  }

  // ---------- the smallest size, and the smallest that fits ----------

  /** `leftmost_child` */
  function LeftmostChild(t: Trie): Trie
    requires t.Node?
  {
    if t.left.Node? then t.left else t.right
  }

  /** The least size met while always stepping to the leftmost child. */
  function LeastOf(t: Trie): nat
    requires t.Node?
  {
    var next := LeftmostChild(t);
    if next.Node? && LeastOf(next) < t.size then LeastOf(next) else t.size
  }

  /** That walk misses nothing: it finds the minimum of the whole tree. */
  lemma {:induction false} LeastIsMinimum(t: Trie, lo: nat, k: nat)
    requires t.Node? && InRange(t, lo, k)
    ensures LeastOf(t) in Sizes(t)
    ensures forall s :: s in Sizes(t) ==> LeastOf(t) <= s
  {
    var next := LeftmostChild(t);
    if next.Node? {
      if t.left.Node? {
        LeastIsMinimum(t.left, lo, k - 1);
        forall s | s in Sizes(t.right)
          ensures LeastOf(t.left) < s
        {
          LeftBelowRight(t, lo, k, LeastOf(t.left), s);
        }
      } else {
        LeastIsMinimum(t.right, lo + Pow2(k - 1), k - 1);
      }
    }
  }

  /**
   * The state of the search for the smallest size >= nb in a tree of sizes `all`: each such size
   * is at least `best`, or still below `cur`, or not smaller than something in `rst`.
   */
  ghost predicate Covered(all: set<nat>, nb: nat, best: nat, cur: Trie, rst: Trie) {
    forall s :: s in all && s >= nb ==>
      best <= s || s in Sizes(cur) || (rst.Node? && LeastOf(rst) <= s)
  }

  /** `rst` is an untaken right subtree of the path to `cur`: all above nb and above cur's range. */
  ghost predicate Untaken(all: set<nat>, nb: nat, rst: Trie, lo: nat, k: nat) {
    rst.Node? ==>
      && Sizes(rst) <= all && LeastOf(rst) in Sizes(rst)
      && forall s :: s in Sizes(rst) ==> lo + Pow2(k) <= s && nb < s && LeastOf(rst) <= s
  }

  /** One step of the descent: account for cur's own size, follow nb's bit, remember the right sibling. */
  lemma {:induction false} SearchStep(all: set<nat>, nb: nat, best: nat, cur: Trie, rst: Trie, lo: nat, k: nat, right: bool)
    requires cur.Node? && InRange(cur, lo, k) && Sizes(cur) <= all && lo <= nb < lo + Pow2(k) && k > 0
    requires right <==> nb >= lo + Pow2(k - 1)
    requires Covered(all, nb, best, cur, rst) && Untaken(all, nb, rst, lo, k)
    requires cur.size >= nb ==> best <= cur.size
    ensures var rst' := if cur.right.Node? && !right then cur.right else rst;
            var lo' := if right then lo + Pow2(k - 1) else lo;
            Covered(all, nb, best, Child(cur, right), rst') && Untaken(all, nb, rst', lo', k - 1)
  {
    assert Pow2(k) == 2 * Pow2(k - 1);
    SizesInRange(cur.left, lo, k - 1);
    SizesInRange(cur.right, lo + Pow2(k - 1), k - 1);
    if cur.right.Node? {
      LeastIsMinimum(cur.right, lo + Pow2(k - 1), k - 1);
    }
  }

  lemma {:induction false} SizesOfChildren(t: Trie)
    requires t.Node?
    ensures Sizes(t.left) <= Sizes(t) && Sizes(t.right) <= Sizes(t)
  {
  }
}
