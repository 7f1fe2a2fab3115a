// The checker of sort results, valid_sort (benches/slice.cpp:51-68): what it accepts is exactly the
// sorted permutations of the seed, and in stable mode exactly the stable sort.

module SortCheck {
  datatype Item = Item(key: nat, ordinal: nat)

  /** `sort_key`: eight rounds of a 64-bit linear congruential step. */
  function Scramble(key: nat, rounds: nat): nat
    decreases rounds
  {
    if rounds == 0 then key
    else Scramble((key * 6364136223846793005 + 1442695040888963407) % 0x1_0000_0000_0000_0000, rounds - 1)
  }

  function SortKey(x: Item): nat {
    Scramble(x.key, 8)
  }

  const WORDS: int := 0x1_0000_0000_0000_0000
  const FACTOR: int := 6364136223846793005
  /** The inverse of the factor modulo 2^64. */
  const INVERSE: int := 13877824140714322085

  /** One round loses nothing: different words become different words. */
  lemma {:induction false} RoundInjective(a: int, b: int, q: int, r: int)
    requires 0 <= a < WORDS && 0 <= b < WORDS && (a - b) * FACTOR == (q - r) * WORDS
    ensures a == b
  {
    var d, k := a - b, q - r;
    assert FACTOR * INVERSE == 4787856489426250814 * WORDS + 1;
    assert d * FACTOR * INVERSE == d * (FACTOR * INVERSE) && k * WORDS * INVERSE == k * INVERSE * WORDS;
    assert d * (4787856489426250814 * WORDS + 1) == d * 4787856489426250814 * WORDS + d;
    var j := k * INVERSE - d * 4787856489426250814;
    assert d == j * WORDS;
  }

  /** Sort keys are equal only for equal keys, so that sorting by one is sorting by classes of the other. */
  lemma {:induction false} ScrambleInjective(a: nat, b: nat, rounds: nat)
    requires a < WORDS && b < WORDS && Scramble(a, rounds) == Scramble(b, rounds)
    ensures a == b
    decreases rounds
  {
    if rounds > 0 {
      var x, y := a * FACTOR + 1442695040888963407, b * FACTOR + 1442695040888963407;
      ScrambleInjective(x % WORDS, y % WORDS, rounds - 1);
      assert x == x / WORDS * WORDS + x % WORDS && y == y / WORDS * WORDS + y % WORDS;
      assert (a - b) * FACTOR == x - y == (x / WORDS - y / WORDS) * WORDS;
      RoundInjective(a, b, x / WORDS, y / WORDS);
    }
  }

  /** The ordinals of a seed are its indices, as `sort_input` sets them. */
  predicate Numbered(seed: seq<Item>) {
    forall i :: 0 <= i < |seed| ==> seed[i].ordinal == i
  }

  predicate InOrder(x: Item, y: Item, stable: bool) {
    SortKey(x) < SortKey(y) || (SortKey(x) == SortKey(y) && (stable ==> x.ordinal <= y.ordinal))
  }

  /** In order, any two of them; in stable mode equal keys keep the order of the seed. */
  predicate Sorted(values: seq<Item>, stable: bool) {
    forall i, j :: 0 <= i < j < |values| ==> InOrder(values[i], values[j], stable)
  }

  ghost predicate Permutation(values: seq<Item>, seed: seq<Item>) {
    multiset(values) == multiset(seed)
  }

  // ---------- the per-element tests, and what they come to ----------

  /** Each value is an item of the seed, and none occurs twice. */
  predicate Matched(values: seq<Item>, seed: seq<Item>) {
    && (forall i :: 0 <= i < |values| ==> values[i].ordinal < |seed| && values[i].key == seed[values[i].ordinal].key)
    && (forall i, j :: 0 <= i < j < |values| ==> values[i].ordinal != values[j].ordinal)
  }

  /** Neighbours are in order. */
  predicate Stepwise(values: seq<Item>, stable: bool) {
    forall i :: 0 <= i && i + 1 < |values| ==> InOrder(values[i], values[i + 1], stable)
  }

  lemma {:induction false} StepwiseSorted(values: seq<Item>, stable: bool)
    ensures Stepwise(values, stable) <==> Sorted(values, stable)
  {
    hide SortKey;
    if Stepwise(values, stable) {
      forall i, j | 0 <= i < j < |values|
        ensures InOrder(values[i], values[j], stable)
      {
        Chain(values, stable, i, j);
      }
    }
  }

  lemma {:induction false} Chain(values: seq<Item>, stable: bool, i: nat, j: nat)
    requires Stepwise(values, stable) && i < j < |values|
    ensures InOrder(values[i], values[j], stable)
    decreases j - i
  {
    hide SortKey;
    assert InOrder(values[j - 1], values[j - 1 + 1], stable);
    if i < j - 1 { Chain(values, stable, i, j - 1); }
  }

  lemma {:induction false} MatchedItems(values: seq<Item>, seed: seq<Item>)
    requires Numbered(seed) && Matched(values, seed)
    ensures forall i :: 0 <= i < |values| ==> values[i] == seed[values[i].ordinal]
  {
  }

  /** Distinct items of the seed, as many as it has: all of them, by counting. */
  lemma {:induction false} MatchedIsPermutation(values: seq<Item>, seed: seq<Item>)
    requires Numbered(seed) && |values| == |seed|
    ensures Matched(values, seed) <==> Permutation(values, seed)
  {
    NumberedOnce(seed);
    if Matched(values, seed) {
      MatchedItems(values, seed);
      MatchedOnce(values, seed);
      assert multiset(values) <= multiset(seed);
      SubMultiset(multiset(values), multiset(seed));
    }
    if Permutation(values, seed) {
      forall i | 0 <= i < |values|
        ensures values[i].ordinal < |seed| && values[i] == seed[values[i].ordinal]
      {
        assert values[i] in multiset(values);
        assert values[i] in multiset(seed);
        assert values[i] in seed;
      }
      forall i, j | 0 <= i < j < |values|
        ensures values[i].ordinal != values[j].ordinal
      {
        if values[i].ordinal == values[j].ordinal {
          assert values[i] == values[j];
          Twice(values, i, j);
        }
      }
    }
  }

  lemma {:induction false} SubMultiset(a: multiset<Item>, b: multiset<Item>)
    requires a <= b && |a| == |b|
    ensures a == b
  {
    assert b == a + (b - a);
    assert |b - a| == 0;
  }

  /** An item at two places counts twice. */
  lemma {:induction false} Twice(s: seq<Item>, i: nat, j: nat)
    requires i < j < |s| && s[i] == s[j]
    ensures multiset(s)[s[i]] >= 2
  {
    assert s == s[..j] + [s[j]] + s[j + 1..];
    assert s[i] == s[..j][i];
    assert s[i] in multiset(s[..j]);
  }

  lemma {:induction false} NumberedOnce(seed: seq<Item>)
    requires Numbered(seed)
    ensures forall x :: multiset(seed)[x] <= 1
    decreases |seed|
  {
    if seed != [] {
      var n := |seed| - 1;
      NumberedOnce(seed[..n]);
      assert seed == seed[..n] + [seed[n]];
      assert seed[n] !in seed[..n];
    }
  }

  /** Items with distinct ordinals each count at most once, and are in the seed. */
  lemma {:induction false} MatchedOnce(values: seq<Item>, seed: seq<Item>)
    requires Numbered(seed) && Matched(values, seed)
    ensures forall x :: multiset(values)[x] <= (if x in values then 1 else 0)
    ensures forall x :: x in values ==> x in multiset(seed)
    decreases |values|
  {
    if values != [] {
      var n := |values| - 1;
      MatchedOnce(values[..n], seed);
      assert values == values[..n] + [values[n]];
      assert values[n] !in values[..n];
      assert values[n] == seed[values[n].ordinal];
    }
  }

  // ---------- the stable sort is one sequence ----------

  /** Distinct ordinals: then the stable order is strict. */
  predicate Distinct(a: seq<Item>) {
    forall i, j :: 0 <= i < j < |a| ==> a[i].ordinal != a[j].ordinal
  }

  lemma {:induction false} LastSame(a: seq<Item>, b: seq<Item>)
    requires multiset(a) == multiset(b) && Sorted(a, true) && Sorted(b, true) && Distinct(a) && a != [] && |b| == |a|
    ensures a[|a| - 1] == b[|a| - 1]
  {
    hide SortKey;
    var n := |a| - 1;
    assert a[n] in multiset(b) && b[n] in multiset(a);
    var i :| 0 <= i < |b| && b[i] == a[n];
    var j :| 0 <= j < |a| && a[j] == b[n];
    assert i < n ==> InOrder(b[i], b[n], true);
    assert j < n ==> InOrder(a[j], a[n], true);
  }

  lemma {:induction false} DropLast(a: seq<Item>)
    requires a != []
    ensures a == a[..|a| - 1] + [a[|a| - 1]] && multiset(a[..|a| - 1]) == multiset(a) - multiset{a[|a| - 1]}
  {
    assert a == a[..|a| - 1] + [a[|a| - 1]];
  }

  lemma {:induction false} DistinctPrefix(a: seq<Item>, n: nat)
    requires Distinct(a) && n <= |a|
    ensures Distinct(a[..n])
  {
  }

  /** Two stable sorted arrangements of distinct items are the same sequence. */
  lemma {:induction false} StableUnique(a: seq<Item>, b: seq<Item>)
    requires multiset(a) == multiset(b) && Sorted(a, true) && Sorted(b, true) && Distinct(a)
    ensures a == b
    decreases |a|
  {
    assert |multiset(a)| == |multiset(b)|;
    if a != [] {
      hide Sorted, Distinct;
      LastSame(a, b);
      var n := |a| - 1;
      DropLast(a);
      DropLast(b);
      DistinctPrefix(a, n);
      SortedPrefix(a, n);
      SortedPrefix(b, n);
      StableUnique(a[..n], b[..n]);
    }
  }

  // ---------- the checker ----------

  /** The entries of `seen` that are set are the ordinals of the first n values. */
  predicate Seen(seen: seq<bool>, values: seq<Item>, n: nat)
    requires n <= |values|
  {
    forall k :: 0 <= k < |seen| ==> (seen[k] <==> exists j :: 0 <= j < n && values[j].ordinal == k)
  }

  lemma {:induction false} SeenStep(seen: seq<bool>, values: seq<Item>, n: nat)
    requires n < |values| && Seen(seen, values, n) && values[n].ordinal < |seen|
    ensures Seen(seen[values[n].ordinal := true], values, n + 1)
  {
  }

  /** The tests on value n decide whether the first n + 1 values are all right. */
  lemma {:induction false} MatchedStep(seen: seq<bool>, values: seq<Item>, seed: seq<Item>, n: nat)
    requires n < |values| && Seen(seen, values, n) && |seen| == |seed| && Matched(values[..n], seed)
    ensures Matched(values[..n + 1], seed) <==>
              && values[n].ordinal < |seed| && !seen[values[n].ordinal] && values[n].key == seed[values[n].ordinal].key
  {
    var u, v := values[..n], values[..n + 1];
    assert forall i :: 0 <= i < n ==> v[i] == u[i] == values[i];
    assert v[n] == values[n];
  }

  lemma {:induction false} MatchedPrefix(values: seq<Item>, seed: seq<Item>, n: nat)
    requires n <= |values| && Matched(values, seed)
    ensures Matched(values[..n], seed)
  {
  }

  lemma {:induction false} StepwiseStep(values: seq<Item>, stable: bool, n: nat)
    requires n < |values| && Stepwise(values[..n], stable)
    ensures Stepwise(values[..n + 1], stable) <==> n == 0 || InOrder(values[n - 1], values[n], stable)
  {
    hide InOrder;
    var u, v := values[..n], values[..n + 1];
    assert forall i :: 0 <= i < n ==> v[i] == u[i] == values[i];
    if n > 0 { assert v[n - 1] == values[n - 1] && v[n - 1 + 1] == values[n]; }
  }

  lemma {:induction false} StepwisePrefix(values: seq<Item>, stable: bool, n: nat)
    requires n <= |values| && Stepwise(values, stable)
    ensures Stepwise(values[..n], stable)
  {
    hide InOrder;
    assert forall i :: 0 <= i < n ==> values[..n][i] == values[i];
  }

  /** Accepts exactly the sorted permutations of the seed (in stable mode: sorted stably). */
  method ValidSort(values: seq<Item>, seed: seq<Item>, stable: bool) returns (ok: bool)
    requires Numbered(seed)
    ensures ok <==> Permutation(values, seed) && Sorted(values, stable)
  {
    hide Permutation, Sorted, SortKey, Matched, Stepwise, Seen, Numbered;
    if |values| != |seed| {
      SameLength(values, seed);
      return false;
    }
    MatchedIsPermutation(values, seed);
    StepwiseSorted(values, stable);
    var seen := new bool[|seed|](_ => false);
    NothingSeen(seen[..], values, seed, stable);
    for i := 0 to |values|
      invariant seen.Length == |seed| && Seen(seen[..], values, i)
      invariant Matched(values[..i], seed) && Stepwise(values[..i], stable)
    {
      var value := values[i];
      MatchedStep(seen[..], values, seed, i);
      StepwiseStep(values, stable, i);
      if value.ordinal >= |seed| || seen[value.ordinal] || value.key != seed[value.ordinal].key {
        if Matched(values, seed) { MatchedPrefix(values, seed, i + 1); }
        return false;
      }
      SeenStep(seen[..], values, i);
      seen[value.ordinal] := true;
      if i > 0 {
        var previous := values[i - 1];
        if SortKey(previous) > SortKey(value)
           || (stable && SortKey(previous) == SortKey(value) && previous.ordinal > value.ordinal) {
          if Stepwise(values, stable) { StepwisePrefix(values, stable, i + 1); }
          return false;
        }
      }
    }
    assert values[..|values|] == values;
    ok := true;
  }

  lemma {:induction false} SameLength(values: seq<Item>, seed: seq<Item>)
    ensures Permutation(values, seed) ==> |values| == |seed|
  {
    assert |multiset(values)| == |values| && |multiset(seed)| == |seed|;
  }

  lemma {:induction false} NothingSeen(seen: seq<bool>, values: seq<Item>, seed: seq<Item>, stable: bool)
    requires forall k :: 0 <= k < |seen| ==> !seen[k]
    ensures Seen(seen, values, 0) && Matched(values[..0], seed) && Stepwise(values[..0], stable)
  {
  }

  // ---------- the stable sort ----------

  /** x goes behind everything that is not greater. */
  function InsertStable(s: seq<Item>, x: Item): seq<Item> {
    if s == [] || SortKey(s[|s| - 1]) <= SortKey(x) then s + [x]
    else InsertStable(s[..|s| - 1], x) + [s[|s| - 1]]
  }

  /** Insertion sort, from the front of the seed to its end. */
  function StableSort(seed: seq<Item>): seq<Item> {
    if seed == [] then [] else InsertStable(StableSort(seed[..|seed| - 1]), seed[|seed| - 1])
  }

  lemma {:induction false} SortedPush(s: seq<Item>, x: Item)
    requires Sorted(s, true) && forall i :: 0 <= i < |s| ==> InOrder(s[i], x, true)
    ensures Sorted(s + [x], true)
  {
    hide InOrder;
  }

  lemma {:induction false} SortedPrefix(s: seq<Item>, n: nat)
    requires Sorted(s, true) && n <= |s|
    ensures Sorted(s[..n], true)
  {
    hide InOrder;
  }

  /** What is made of x and all but the last element is in order with the last, if x is. */
  lemma {:induction false} BelowLast(s: seq<Item>, t: seq<Item>, x: Item)
    requires s != [] && Sorted(s, true) && multiset(t) == multiset(s[..|s| - 1]) + multiset{x} && InOrder(x, s[|s| - 1], true)
    ensures forall i :: 0 <= i < |t| ==> InOrder(t[i], s[|s| - 1], true)
  {
    var n := |s| - 1;
    assert forall j :: 0 <= j < n ==> InOrder(s[j], s[n], true);
    hide InOrder, Sorted;
    forall i | 0 <= i < |t|
      ensures InOrder(t[i], s[n], true)
    {
      assert t[i] in multiset(t);
      if t[i] != x {
        assert t[i] in multiset(s[..n]);
        var j :| 0 <= j < n && s[j] == t[i];
      }
    }
  }

  lemma {:induction false} InsertStableOk(s: seq<Item>, x: Item)
    requires Sorted(s, true) && forall i :: 0 <= i < |s| ==> s[i].ordinal < x.ordinal
    ensures multiset(InsertStable(s, x)) == multiset(s) + multiset{x} && Sorted(InsertStable(s, x), true)
    decreases |s|
  {
    hide SortKey;
    if s != [] {
      var n := |s| - 1;
      assert s == s[..n] + [s[n]];
      if SortKey(s[n]) <= SortKey(x) {
        forall i | 0 <= i < |s|
          ensures InOrder(s[i], x, true)
        {
          assert i < n ==> InOrder(s[i], s[n], true);
        }
        SortedPush(s, x);
      } else {
        SortedPrefix(s, n);
        InsertStableOk(s[..n], x);
        BelowLast(s, InsertStable(s[..n], x), x);
        hide Sorted, InOrder;
        SortedPush(InsertStable(s[..n], x), s[n]);
      }
    }
  }

  lemma {:induction false} StableSortOk(seed: seq<Item>)
    requires Numbered(seed)
    ensures Permutation(StableSort(seed), seed) && Sorted(StableSort(seed), true)
    decreases |seed|
  {
    hide SortKey;
    if seed != [] {
      var n := |seed| - 1;
      var front := seed[..n];
      assert seed == front + [seed[n]];
      StableSortOk(front);
      var s := StableSort(front);
      forall i | 0 <= i < |s|
        ensures s[i].ordinal < seed[n].ordinal
      {
        assert s[i] in multiset(s);
        assert s[i] in multiset(front);
        assert s[i] in front;
      }
      InsertStableOk(s, seed[n]);
    }
  }

  /** In stable mode exactly one output is accepted: the stable sort. */
  lemma {:induction false} StableIsUnique(values: seq<Item>, seed: seq<Item>)
    requires Numbered(seed)
    ensures Permutation(values, seed) && Sorted(values, true) <==> values == StableSort(seed)
  {
    StableSortOk(seed);
    if Permutation(values, seed) && Sorted(values, true) {
      assert |multiset(values)| == |multiset(seed)|;
      MatchedIsPermutation(values, seed);
      hide SortKey, Sorted, StableSort;
      StableUnique(values, StableSort(seed));
    }
  }
}
