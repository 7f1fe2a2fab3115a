// Which free chunk serves a request, and what free memory is afterwards, without heads, links and searches
// (src/runtime/dlmalloc/malloc.c:4440-4674): the placement policy of dlmalloc.

module FreeStore {
  import opened HeapTiling

  /** Free memory as malloc_state has it: the binned chunks with their sizes, the designated victim, and top. */
  datatype Store = Store(bins: map<int, nat>, dv: int, dvsize: nat, top: int, topsize: nat)

  // ---------- the choice ----------

  /** The remainderless fit: a chunk of a small bin with nb bytes, or with the next size. */
  predicate Exact(bins: map<int, nat>, nb: nat, p: int) {
    p in bins && bins[p] < 0x100 && (bins[p] == nb || bins[p] == nb + 8)
  }

  ghost predicate SmallestFit(bins: map<int, nat>, nb: nat, p: int) {
    p in bins && nb <= bins[p] && forall a :: a in bins && nb <= bins[a] ==> bins[p] <= bins[a]
  }

  ghost predicate NoneFits(bins: map<int, nat>, nb: nat) {
    forall a :: a in bins ==> bins[a] < nb
  }

  /** From dv if it is large enough, and otherwise from top, which keeps at least one byte. */
  predicate FromRest(s: Store, nb: nat, p: int) {
    if nb <= s.dvsize then p == s.dv else nb < s.topsize && p == s.top
  }

  /** Small requests: a remainderless fit before dv, and dv before any other fit. */
  ghost predicate ChosenSmall(s: Store, nb: nat, p: int) {
    if exists a :: Exact(s.bins, nb, a) then Exact(s.bins, nb, p) && forall a :: Exact(s.bins, nb, a) ==> s.bins[p] <= s.bins[a]
    else if s.dvsize < nb && !NoneFits(s.bins, nb) then SmallestFit(s.bins, nb, p)
    else FromRest(s, nb, p)
  }

  predicate BeatsDv(s: Store, nb: nat, a: int) {
    a in s.bins && nb <= s.bins[a] && (s.dvsize < nb || s.bins[a] < s.dvsize)
  }

  /** Large requests: the best fit of all tree chunks and dv, and dv if they are equally good. */
  ghost predicate ChosenLarge(s: Store, nb: nat, p: int) {
    if exists a :: BeatsDv(s, nb, a) then SmallestFit(s.bins, nb, p) else FromRest(s, nb, p)
  }

  /** The chunk that serves a request of nb bytes. */
  ghost predicate Chosen(s: Store, nb: nat, p: int) {
    if nb < 0x100 then ChosenSmall(s, nb, p) else ChosenLarge(s, nb, p)
  }

  /** No chunk at hand has nb bytes. */
  ghost predicate NoChoice(s: Store, nb: nat) {
    s.dvsize < nb && s.topsize <= nb && NoneFits(s.bins, nb)
  }

  // ---------- small and tree bins together ----------

  /** Sizes of small chunks and of tree chunks. */
  predicate SizesApart(small: map<int, nat>, large: map<int, nat>) {
    && small.Keys !! large.Keys
    && (forall a :: a in small ==> small[a] < 0x100) && (forall a :: a in large ==> large[a] >= 0x100)
  }

  lemma {:induction false} ExactIs(small: map<int, nat>, large: map<int, nat>, nb: nat, a: int)
    requires SizesApart(small, large)
    ensures Exact(small + large, nb, a) <==> a in small && (small[a] == nb || small[a] == nb + 8)
  {
  }

  lemma {:induction false} SmallIsFit(small: map<int, nat>, large: map<int, nat>, nb: nat, p: int)
    requires SizesApart(small, large) && p in small && nb <= small[p]
    requires forall a :: a in small && nb <= small[a] ==> small[p] <= small[a]
    ensures SmallestFit(small + large, nb, p)
  {
  }

  lemma {:induction false} TreeIsFit(small: map<int, nat>, large: map<int, nat>, nb: nat, p: int)
    requires SizesApart(small, large) && p in large && nb <= large[p] && forall a :: a in small ==> small[a] < nb
    requires forall a :: a in large && nb <= large[a] ==> large[p] <= large[a]
    ensures SmallestFit(small + large, nb, p)
  {
  }

  lemma {:induction false} FitIsChosen(s: Store, nb: nat, p: int)
    requires SmallestFit(s.bins, nb, p)
    requires nb < 0x100 ==> s.dvsize < nb && forall a :: !Exact(s.bins, nb, a)
    requires nb >= 0x100 ==> BeatsDv(s, nb, p)
    ensures Chosen(s, nb, p) && p in s.bins && nb <= s.bins[p]
  {
  }

  lemma {:induction false} RestIsChosen(s: Store, nb: nat)
    requires nb < 0x100 ==> (forall a :: !Exact(s.bins, nb, a)) && (s.dvsize < nb ==> NoneFits(s.bins, nb))
    requires nb >= 0x100 ==> forall a :: a in s.bins ==> s.bins[a] < nb || nb <= s.dvsize <= s.bins[a]
    ensures forall x :: FromRest(s, nb, x) ==> Chosen(s, nb, x)
  {
  }

  // ---------- the effect ----------

  function Less(a: nat, b: nat): nat {
    if a < b then 0 else a - b
  }

  /** How much of a chunk is handed out: all of it, if what is left would be no chunk. */
  function Given(size: nat, nb: nat): nat {
    if size < nb + MIN_CHUNK then size else nb
  }

  function WithDv(s: Store, r: int, size: nat): Store {
    s.(bins := if s.dvsize == 0 then s.bins else s.bins[s.dv := s.dvsize], dv := r, dvsize := size)
  }

  /** A chunk taken out of its bin goes into use; what is left becomes dv, or is binned. */
  function AfterLoose(s: Store, p: int, size: nat, nb: nat, toDv: bool): Store {
    if size < nb + MIN_CHUNK then s
    else if toDv then WithDv(s, p + nb, Less(size, nb))
    else s.(bins := s.bins[p + nb := Less(size, nb)])
  }

  function AfterDv(s: Store, nb: nat): Store {
    if s.dvsize < nb + MIN_CHUNK then s.(dv := 0, dvsize := 0) else s.(dv := s.dv + nb, dvsize := Less(s.dvsize, nb))
  }

  function AfterTop(s: Store, nb: nat): Store {
    s.(top := s.top + nb, topsize := Less(s.topsize, nb))
  }

  /** What serving nb bytes from chunk p leaves: the remainder of a small request becomes dv. */
  function AfterServe(s: Store, nb: nat, p: int): Store {
    if p in s.bins then AfterLoose(s.(bins := s.bins - {p}), p, s.bins[p], nb, nb < 0x100)
    else if nb <= s.dvsize then AfterDv(s, nb)
    else AfterTop(s, nb)
  }

  function ServedSize(s: Store, nb: nat, p: int): nat {
    if p in s.bins then Given(s.bins[p], nb) else if nb <= s.dvsize then Given(s.dvsize, nb) else nb
  }

  // ---------- giving a chunk back ----------

  predicate FreeAt(s: Store, a: int) {
    a in s.bins || (s.dvsize != 0 && a == s.dv)
  }

  function SizeAt(s: Store, a: int): nat {
    if a in s.bins then s.bins[a] else s.dvsize
  }

  predicate EndsAt(s: Store, a: int, p: int) {
    FreeAt(s, a) && a + SizeAt(s, a) == p
  }

  /** Where the free chunk right before p begins, if there is one. */
  ghost function Low(s: Store, p: int): int {
    if a :| EndsAt(s, a, p) then a else p
  }

  function Span(lo: int, hi: int): nat {
    if hi < lo then 0 else hi - lo
  }

  /** The run [lo, q) and what follows it become one: with top, with dv on either side, or on their own in a bin. */
  function Merged(s: Store, lo: int, q: int): Store {
    if q == s.top then
      s.(bins := s.bins - {lo}, top := lo, topsize := s.topsize + Span(lo, s.top),
         dv := if lo == s.dv then 0 else s.dv, dvsize := if lo == s.dv then 0 else s.dvsize)
    else
      var hi := if FreeAt(s, q) then q + SizeAt(s, q) else q;
      if s.dvsize != 0 && (s.dv == lo || s.dv == q) then s.(bins := s.bins - {lo} - {q}, dv := lo, dvsize := Span(lo, hi))
      else s.(bins := (s.bins - {lo} - {q})[lo := Span(lo, hi)])
  }

  /** A run that becomes a chunk of its own: the new dv if it begins at dv, else binned. */
  function Alone(s: Store, lo: int, hi: int): Store {
    if lo == s.dv then s.(dvsize := Span(lo, hi)) else s.(bins := s.bins[lo := Span(lo, hi)])
  }

  lemma {:induction false} MergedUsed(s: Store, lo: int, q: int)
    requires q != s.top && !FreeAt(s, q) && lo > 0 && (s.dvsize == 0 ==> s.dv == 0)
    ensures Merged(s, lo, q) == Alone(s.(bins := s.bins - {lo}), lo, q)
  {
    assert s.bins - {lo} - {q} == s.bins - {lo};
    if lo == s.dv { assert s.dvsize != 0; }
  }

  lemma {:induction false} MergedDv(s: Store, lo: int)
    requires s.dv != s.top && s.dvsize != 0 && s.dv !in s.bins
    ensures Merged(s, lo, s.dv) == s.(bins := s.bins - {lo}, dv := lo, dvsize := Span(lo, s.dv + s.dvsize))
  {
    assert s.bins - {lo} - {s.dv} == s.bins - {lo};
  }

  lemma {:induction false} MergedFree(s: Store, lo: int, q: int)
    requires q != s.top && FreeAt(s, q) && q != s.dv && lo > 0 && (s.dvsize == 0 ==> s.dv == 0)
    ensures Merged(s, lo, q) == Alone(s.(bins := s.bins - {lo} - {q}), lo, q + SizeAt(s, q))
  {
  }

  lemma {:induction false} MergedTop(s: Store, lo: int)
    ensures Merged(s, lo, s.top) ==
              s.(bins := s.bins - {lo}, top := lo, topsize := s.topsize + Span(lo, s.top),
                 dv := if lo == s.dv then 0 else s.dv, dvsize := if lo == s.dv then 0 else s.dvsize)
  {
  }

  /** Free memory after a chunk is given back. */
  ghost function AfterFree(s: Store, p: int, size: nat): Store {
    Merged(s, Low(s, p), p + size)
  }

  // ---------- resizing in place ----------

  /** Cutting a chunk of that size at nb, if what is left is a chunk, which goes back. */
  ghost function AfterTrim(s: Store, p: int, size: nat, nb: nat): Store {
    if size < nb + MIN_CHUNK then s else AfterFree(s, p + nb, Less(size, nb))
  }

  /** Growing to nb bytes into what follows: top, dv or a binned chunk. */
  ghost function AfterGrow(s: Store, p: int, size: nat, nb: nat): Store {
    var q := p + size;
    if nb <= size then AfterTrim(s, p, size, nb)
    else if q == s.top then s.(top := p + nb, topsize := Less(size + s.topsize, nb))
    else if q == s.dv then
      if size + s.dvsize < nb + MIN_CHUNK then s.(dv := 0, dvsize := 0) else s.(dv := p + nb, dvsize := Less(size + s.dvsize, nb))
    else AfterTrim(s.(bins := s.bins - {q}), p, size + SizeAt(s, q), nb)
  }

  /** The size after that: nb, unless what is left over would be no chunk. */
  function GrownSize(s: Store, p: int, size: nat, nb: nat): nat {
    var q := p + size;
    if nb <= size then Given(size, nb)
    else if q == s.top then nb
    else if q == s.dv then Given(size + s.dvsize, nb)
    else Given(size + SizeAt(s, q), nb)
  }

  lemma {:induction false} ShrunkIs(s: Store, p: int, size: nat, nb: nat)
    requires nb <= size
    ensures AfterGrow(s, p, size, nb) == (if size < nb + MIN_CHUNK then s else AfterFree(s, p + nb, size - nb))
    ensures GrownSize(s, p, size, nb) == if size < nb + MIN_CHUNK then size else nb
  {
    hide AfterFree;
  }

  // ---------- the policy as a client sees it ----------

  /** Some chunk is chosen whenever one fits. */
  lemma {:induction false} SomeChosen(s: Store, nb: nat) returns (p: int)
    requires !NoChoice(s, nb)
    ensures Chosen(s, nb, p)
  {
    p := if nb <= s.dvsize then s.dv else s.top;
    if nb < 0x100 {
      if a :| Exact(s.bins, nb, a) {
        p := a;
        if b :| Exact(s.bins, nb, b) && s.bins[b] < s.bins[a] { p := b; }
      } else if s.dvsize < nb && !NoneFits(s.bins, nb) {
        p := LeastFit(s.bins, nb);
      }
    } else {
      if a :| a in s.bins && nb <= s.bins[a] { assert s.dvsize < nb ==> BeatsDv(s, nb, a); }
      if a :| BeatsDv(s, nb, a) { p := LeastFit(s.bins, nb); }
    }
  }

  lemma {:induction false} LeastFit(bins: map<int, nat>, nb: nat) returns (p: int)
    requires !NoneFits(bins, nb)
    ensures SmallestFit(bins, nb, p)
    decreases |bins|
  {
    var a :| a in bins && nb <= bins[a];
    var rest := bins - {a};
    assert forall x :: x in bins ==> x == a || x in rest;
    if NoneFits(rest, nb) {
      p := a;
    } else {
      assert |rest| < |bins| by { assert rest.Keys == bins.Keys - {a}; assert |rest.Keys| == |rest| && |bins.Keys| == |bins|; }
      var q := LeastFit(rest, nb);
      p := if bins[q] < bins[a] then q else a;
    }
  }

  /** What is chosen fits, and is the tightest of the binned chunks unless dv or top serves. */
  lemma {:induction false} ChosenFits(s: Store, nb: nat, p: int)
    requires Chosen(s, nb, p) && forall a :: a in s.bins ==> s.bins[a] % 8 == 0
    requires nb % 8 == 0 && MIN_CHUNK <= nb && (s.dvsize != 0 ==> s.dv !in s.bins) && (s.topsize != 0 ==> s.top !in s.bins)
    ensures !NoChoice(s, nb) && nb <= ServedSize(s, nb, p) < nb + MIN_CHUNK
    ensures p in s.bins ==> SmallestFit(s.bins, nb, p)
    ensures p !in s.bins ==> p == if nb <= s.dvsize then s.dv else s.top
  {
    if nb < 0x100 {
      if a :| Exact(s.bins, nb, a) {
        forall b | b in s.bins && nb <= s.bins[b]
          ensures s.bins[p] <= s.bins[b]
        {
          if s.bins[b] < s.bins[p] { assert Exact(s.bins, nb, b); }
        }
      }
    } else if a :| BeatsDv(s, nb, a) {
      assert a in s.bins && nb <= s.bins[a];
    }
  }
}
