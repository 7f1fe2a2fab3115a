// Powers of two and the few facts about products that the word-level modules share.

module Powers {
  function Pow2(k: nat): (p: nat)
    ensures p > 0
  {
    if k == 0 then 1 else 2 * Pow2(k - 1)
  }

  lemma {:induction false} Pow2Add(i: nat, j: nat)
    ensures Pow2(i + j) == Pow2(i) * Pow2(j)
  {
    if i > 0 {
      Pow2Add(i - 1, j);
      assert Pow2(i + j) == 2 * Pow2(i - 1 + j);
      assert 2 * (Pow2(i - 1) * Pow2(j)) == (2 * Pow2(i - 1)) * Pow2(j);
    }
  }

  lemma {:induction false} Pow2Step(k: nat)
    requires k > 0
    ensures Pow2(k) == 2 * Pow2(k - 1)
  {
  }

  lemma {:induction false} Pow2Of8()
    ensures Pow2(8) == 0x100
  {
    assert Pow2(2) == 4;
    Pow2Add(2, 2);
    Pow2Add(4, 4);
  }

  lemma {:induction false} MulGe(a: nat, x: int, y: int)
    requires x >= y
    ensures a * x >= a * y && x * a >= y * a
  {
  }

  lemma {:induction false} MulLtCancel(a: nat, x: int, y: int)
    requires a * x < a * y
    ensures x < y
  {
    if x >= y { MulGe(a, x, y); }
  }

  lemma {:induction false} LtScale(p: nat, x: int, y: int)
    requires x < y && p > 0
    ensures x * p < y * p
  {
  }

  lemma {:induction false} Pow2AtLeast2(k: nat)
    requires k > 0
    ensures Pow2(k) >= 2
  {
  }

  lemma {:induction false} MultipleMod(x: nat, m: nat)
    requires m > 0
    ensures (x * m) % m == 0 && (x * m) / m == x
  {
    var q, r := (x * m) / m, (x * m) % m;
    assert q * m + r == x * m;
    assert (x - q) * m == r;
    if x - q >= 1 { MulGe(m, x - q, 1); } else if x - q <= -1 { MulGe(m, -1, x - q); }
  }

  lemma {:induction false} QuotientNat(x: nat, p: nat)
    requires p > 0
    ensures x / p >= 0
  {
    var q := x / p;
    assert x == q * p + x % p;
    if q <= -1 { MulGe(p, -1, q); }
  }
}
