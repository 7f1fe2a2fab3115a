// insert_chunk and unlink_chunk: the small and the tree bins as one store of free chunks
// (src/runtime/dlmalloc/malloc.c:2833-2835, 3795-3801).

module ChunkBins {
  import opened BinMaps
  import S = SmallBins
  import L = LargeBins
  import TreeBins

  /** `is_small` */
  predicate IsSmall(s: nat) {
    s / 8 < S.SMALLBINS
  }

  /** Dropping a chunk from one of two stores drops it from their union. */
  lemma {:induction false} LessOne(m: map<int, nat>, n: map<int, nat>, p: int)
    requires m.Keys !! n.Keys
    ensures p !in n ==> (m - {p}) + n == (m + n) - {p}
    ensures p !in m ==> m + (n - {p}) == (m + n) - {p}
  {
  }

  class ChunkBins {
    const small: S.SmallBins
    const large: L.LargeBins

    ghost predicate Valid()
      reads this, small, large
    {
      small.Valid() && large.Valid() && small.contents.Keys !! large.contents.Keys
    }

    /** Every binned chunk with its size. */
    ghost function Contents(): map<int, nat>
      reads this, small, large
    {
      small.contents + large.contents
    }

    constructor ()
      ensures Valid() && Contents() == map[] && fresh(small) && fresh(large)
    {
      small := new S.SmallBins();
      large := new L.LargeBins();
    }

    /** A binned chunk is in the bins its size belongs to. */
    lemma {:induction false} SizesApart()
      requires Valid()
      ensures forall a :: a in small.contents ==> small.contents[a] % 8 == 0 && 16 <= small.contents[a] < 0x100
      ensures forall a :: a in large.contents ==> 0x100 <= large.contents[a] < W
      ensures forall a :: a in Contents() ==> (IsSmall(Contents()[a]) <==> a in small.contents)
    {
      hide S.BinOk, TreeBins.BinsOk;
      assert TreeBins.ContentsOk(large.State());
    }

    method Insert(p: int, s: nat)
      requires Valid() && p > 0 && p !in Contents() && 16 <= s < W && s % 8 == 0
      modifies small, large
      ensures Valid()
      ensures Contents() == old(Contents())[p := s]
    {
      hide S.ValidBins, TreeBins.ValidBins;
      if IsSmall(s) {
        small.Insert(p, s);
      } else {
        large.Insert(p, s);
      }
    }

    method Unlink(p: int, s: nat)
      requires Valid() && p in Contents() && Contents()[p] == s
      modifies small, large
      ensures Valid()
      ensures Contents() == old(Contents()) - {p}
    {
      SizesApart();
      hide S.ValidBins, TreeBins.ValidBins, S.BinOk, TreeBins.BinsOk, TreeBins.ContentsOk, S.Dropped;
      if IsSmall(s) {
        LessOne(small.contents, large.contents, p);
        small.Unlink(p, s);
      } else {
        LessOne(small.contents, large.contents, p);
        large.Unlink(p);
      }
    }
  }
}
