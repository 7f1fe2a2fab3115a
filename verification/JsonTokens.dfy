// What the JSON reader's scanners accept, without the scanners: blanks and comments, and the numbers of
// section 6 of RFC 8259.

module JsonTokens {
  import opened Options
  import I = Integers
  import opened JsonString
  import opened JsonGrammar

  // ---------- blanks ----------

  predicate SpaceToken(src: Input, p: nat, q: nat) {
    q == p + 1 <= |src.units| && (src.units[p] == 0x20 || src.units[p] == 0x09 || src.units[p] == 0x0A || src.units[p] == 0x0D)
  }

  predicate Slashes(src: Input, p: nat, second: nat) {
    src.allowComments && p + 2 <= |src.units| && src.units[p] == 0x2F && src.units[p + 1] == second
  }

  /** A comment to the end of the line, which is not part of it. */
  predicate LineToken(src: Input, p: nat, q: nat) {
    && Slashes(src, p, 0x2F) && p + 2 <= q <= |src.units|
    && (forall j :: p + 2 <= j < q ==> src.units[j] != 0x0A) && (q == |src.units| || src.units[q] == 0x0A)
  }

  predicate Closes(src: Input, j: nat) {
    j + 2 <= |src.units| && src.units[j] == 0x2A && src.units[j + 1] == 0x2F
  }

  /** A comment up to the first closing mark. */
  predicate BlockToken(src: Input, p: nat, q: nat) {
    Slashes(src, p, 0x2A) && p + 4 <= q && Closes(src, q - 2) && forall j :: p + 2 <= j < q - 2 ==> !Closes(src, j)
  }

  predicate BlankToken(src: Input, p: nat, q: nat) {
    SpaceToken(src, p, q) || LineToken(src, p, q) || BlockToken(src, p, q)
  }

  /** A comment that is never closed. */
  predicate OpenBlock(src: Input, p: nat) {
    Slashes(src, p, 0x2A) && forall j :: p + 2 <= j < |src.units| ==> !Closes(src, j)
  }

  /** Blank tokens one after the other, ending at the cuts, lead from p to q. */
  predicate Blanks(src: Input, p: nat, cuts: seq<nat>, q: nat)
    decreases |cuts|
  {
    if cuts == [] then p == q else BlankToken(src, p, cuts[0]) && Blanks(src, cuts[0], cuts[1..], q)
  }

  /** Nothing blank begins here. */
  ghost predicate Solid(src: Input, q: nat) {
    q <= |src.units| && !OpenBlock(src, q) && forall r: nat :: !BlankToken(src, q, r)
  }

  lemma {:induction false} LineEndIs(src: Input, p: nat)
    requires p <= |src.units|
    ensures var q := LineEnd(src, p);
            (forall j :: p <= j < q ==> src.units[j] != NEWLINE) && (q == |src.units| || src.units[q] == NEWLINE)
    decreases |src.units| - p
  {
    if p < |src.units| && src.units[p] != NEWLINE { LineEndIs(src, p + 1); }
  }

  lemma {:induction false} BlockEndIs(src: Input, p: nat)
    requires p <= |src.units|
    ensures match BlockEnd(src, p)
            case None => forall j :: p <= j < |src.units| ==> !Closes(src, j)
            case Some(q) => p + 2 <= q && Closes(src, q - 2) && forall j :: p <= j < q - 2 ==> !Closes(src, j)
    decreases |src.units| - p
  {
    if p < |src.units| && !(src.units[p] == STAR && At(src, p + 1) == SLASH) {
      BlockEndIs(src, p + 1);
      assert !Closes(src, p);
    }
  }

  /** The token at p, if there is one, is where `consume_whitespace` goes. */
  lemma {:induction false} OneToken(src: Input, p: nat, q: nat)
    requires BlankToken(src, p, q)
    ensures p < q <= |src.units| && Space(src, p) == Space(src, q)
  {
    if LineToken(src, p, q) {
      LineEndIs(src, p + 2);
      assert LineEnd(src, p + 2) == q;
    } else if BlockToken(src, p, q) {
      BlockEndIs(src, p + 2);
      var e := BlockEnd(src, p + 2);
      assert e.Some? && Closes(src, e.value - 2);
      assert e.value == q;
    }
  }

  lemma {:induction false} OpenFails(src: Input, q: nat)
    requires OpenBlock(src, q)
    ensures Space(src, q) == Err(EofWhileParsingComment, |src.units|, |src.units|)
  {
    BlockEndIs(src, q + 2);
  }

  lemma {:induction false} SolidStays(src: Input, q: nat)
    requires Solid(src, q)
    ensures Space(src, q) == Ok(Empty, q)
  {
    if q < |src.units| {
      assert !BlankToken(src, q, q + 1);
      if Slashes(src, q, SLASH) {
        LineEndIs(src, q + 2);
        assert BlankToken(src, q, LineEnd(src, q + 2));
      } else if Slashes(src, q, STAR) {
        BlockEndIs(src, q + 2);
        var e := BlockEnd(src, q + 2);
        assert e.Some? ==> BlankToken(src, q, e.value);
      }
    }
  }

  /** `consume_whitespace` skips exactly the blank tokens there are, and fails exactly at a comment that is never closed. */
  lemma {:induction false} SpaceSkips(src: Input, p: nat, cuts: seq<nat>, q: nat)
    requires p <= |src.units| && Blanks(src, p, cuts, q)
    ensures q <= |src.units|
    ensures Solid(src, q) ==> Space(src, p) == Ok(Empty, q)
    ensures OpenBlock(src, q) ==> Space(src, p) == Err(EofWhileParsingComment, |src.units|, |src.units|)
    decreases |cuts|
  {
    if cuts == [] {
      if Solid(src, q) { SolidStays(src, q); }
      if OpenBlock(src, q) { OpenFails(src, q); }
    } else {
      OneToken(src, p, cuts[0]);
      SpaceSkips(src, cuts[0], cuts[1..], q);
    }
  }

  /** Either there is a way over blanks to something solid, or to an open comment. */
  lemma {:induction false} SpaceWay(src: Input, p: nat) returns (cuts: seq<nat>, q: nat)
    requires p <= |src.units|
    ensures Blanks(src, p, cuts, q) && (Solid(src, q) || OpenBlock(src, q))
    decreases |src.units| - p
  {
    if Solid(src, p) || OpenBlock(src, p) {
      cuts, q := [], p;
    } else {
      var r: nat :| BlankToken(src, p, r);
      OneToken(src, p, r);
      var rest;
      rest, q := SpaceWay(src, r);
      cuts := [r] + rest;
      assert cuts[1..] == rest;
    }
  }

  /** Only blanks from p to q. */
  ghost predicate BlankTo(src: Input, p: nat, q: nat) {
    exists cuts: seq<nat> :: Blanks(src, p, cuts, q)
  }

  lemma {:induction false} SpaceIff(src: Input, p: nat)
    requires p <= |src.units|
    ensures forall q: nat :: Space(src, p) == Ok(Empty, q) <==> BlankTo(src, p, q) && Solid(src, q)
    ensures Space(src, p).Err? <==> exists q: nat :: BlankTo(src, p, q) && OpenBlock(src, q)
  {
    hide Space, Solid, OpenBlock, Blanks;
    var cuts, r := SpaceWay(src, p);
    SpaceSkips(src, p, cuts, r);
    assert BlankTo(src, p, r);
    forall q: nat | BlankTo(src, p, q)
      ensures Solid(src, q) ==> Space(src, p) == Ok(Empty, q)
      ensures OpenBlock(src, q) ==> Space(src, p).Err?
    {
      var c: seq<nat> :| Blanks(src, p, c, q);
      SpaceSkips(src, p, c, q);
    }
  }

  // ---------- numbers ----------

  predicate Digits(u: seq<nat>, i: nat, j: nat) {
    i <= j <= |u| && forall k :: i <= k < j ==> 0x30 <= u[k] <= 0x39
  }

  /** `int`: one digit, or several that do not begin with 0. */
  predicate IntPart(u: seq<nat>, b: nat, i: nat) {
    b < i && Digits(u, b, i) && (i == b + 1 || u[b] != '0' as int)
  }

  /** `frac`, if any: a point and digits. */
  predicate FracPart(u: seq<nat>, i: nat, f: nat) {
    i == f <= |u| || (i + 1 < f && Digits(u, i + 1, f) && u[i] == '.' as int)
  }

  predicate IsSign(c: nat) {
    c == '+' as int || c == '-' as int
  }

  predicate IsE(c: nat) {
    c == 'e' as int || c == 'E' as int
  }

  /** Where the digits of an exponent begin. */
  function ExpDigits(u: seq<nat>, f: nat): nat {
    if f + 1 < |u| && IsSign(u[f + 1]) then f + 2 else f + 1
  }

  /** `exp`, if any: e, perhaps a sign, and digits. */
  predicate ExpPart(u: seq<nat>, f: nat, n: nat) {
    f == n <= |u| || (f < n <= |u| && IsE(u[f]) && ExpDigits(u, f) < n && Digits(u, ExpDigits(u, f), n))
  }

  /** A number from p to n, with its parts ending at b (the sign), i, f and n. */
  predicate NumberAt(u: seq<nat>, p: nat, b: nat, i: nat, f: nat, n: nat) {
    && p < |u| && b == (if u[p] == '-' as int then p + 1 else p)
    && IntPart(u, b, i) && FracPart(u, i, f) && ExpPart(u, f, n)
  }

  lemma {:induction false} DigitSlice(u: seq<nat>, i: nat, j: nat)
    requires Digits(u, i, j)
    ensures (forall k :: 0 <= k < j - i ==> u[i..j][k] < 256) && I.AllDigits(u[i..j], 10)
  {
    assert forall k :: 0 <= k < j - i ==> IsDigit(u[i..j][k]);
    DigitUnits(u[i..j]);
  }

  /** The exponent that a number has. */
  function ExponentValue(u: seq<nat>, f: nat, n: nat): int
    requires ExpPart(u, f, n)
  {
    if f == n then 0
    else
      DigitSlice(u, ExpDigits(u, f), n);
      var e: int := I.ExponentOf(u[ExpDigits(u, f)..n]);
      if u[f + 1] == '-' as int then -e else e
  }

  /** The parts of a number. */
  function TokenOf(u: seq<nat>, p: nat, b: nat, i: nat, f: nat, n: nat): (t: Token)
    requires NumberAt(u, p, b, i, f, n)
    ensures forall k :: 0 <= k < |t.integer| ==> IsDigit(t.integer[k])
  {
    Token(b == p + 1, u[b..i], if f == i then [] else u[i + 1..f], ExponentValue(u, f, n), n > i)
  }

  /** What follows can not be taken for a continuation of the number. */
  predicate Stops(u: seq<nat>, i: nat, f: nat, n: nat) {
    n >= |u| || (&& !IsDigit(u[n]) && (f == n ==> !IsE(u[n])) && (i == n ==> u[n] != '.' as int))
  }

  lemma {:induction false} DigitsEndIs(src: Input, p: nat)
    requires p <= |src.units|
    ensures var r := DigitsEnd(src, p);
            && Digits(src.units, p, r) && (r == |src.units| || !IsDigit(src.units[r]))
            && (forall q: nat :: Digits(src.units, p, q) ==> q <= r)
            && (forall q: nat :: Digits(src.units, p, q) && (q == |src.units| || !IsDigit(src.units[q])) ==> q == r)
    decreases |src.units| - p
  {
    if p < |src.units| && IsDigit(src.units[p]) {
      DigitsEndIs(src, p + 1);
      assert forall q: nat :: Digits(src.units, p, q) && q > p ==> Digits(src.units, p + 1, q);
    }
  }

  lemma {:induction false} IntegerIs(src: Input, b: nat, i: nat)
    requires b <= |src.units|
    ensures IntegerEnd(src, b) == Ok(Empty, i) <==> IntPart(src.units, b, i) && (i == |src.units| || !IsDigit(src.units[i]))
    ensures IntegerEnd(src, b).Ok? ==> forall j: nat :: IntPart(src.units, b, j) ==> j <= IntegerEnd(src, b).next
  {
    DigitsEndIs(src, b);
  }

  lemma {:induction false} FractionIs(src: Input, i: nat, f: nat)
    requires i <= |src.units|
    ensures FractionEnd(src, i).Ok? && FractionEnd(src, i).next == f <==>
              && FracPart(src.units, i, f) && (f == i ==> i == |src.units| || src.units[i] != '.' as int)
              && (f > i ==> f == |src.units| || !IsDigit(src.units[f]))
    ensures FractionEnd(src, i).Ok? ==> forall g: nat :: FracPart(src.units, i, g) ==> g <= FractionEnd(src, i).next
  {
    if i < |src.units| && src.units[i] == '.' as int && i + 1 < |src.units| {
      DigitsEndIs(src, i + 1);
    }
  }

  lemma {:induction false} ExponentIs(src: Input, f: nat, n: nat)
    requires f <= |src.units|
    ensures ExponentEnd(src, f).Ok? && ExponentEnd(src, f).next == n <==>
              && ExpPart(src.units, f, n) && (n == f ==> f == |src.units| || !IsE(src.units[f]))
              && (n > f ==> n == |src.units| || !IsDigit(src.units[n]))
    ensures ExponentEnd(src, f).Ok? ==> forall m: nat :: ExpPart(src.units, f, m) ==> m <= ExponentEnd(src, f).next
  {
    if f < |src.units| && IsE(src.units[f]) {
      var q := ExpDigits(src.units, f);
      if q <= |src.units| {
        DigitsEndIs(src, q);
      }
    }
  }

  /** The scanner, by the ends that its parts find. */
  lemma {:induction false} ScanOf(src: Input, p: nat, b: nat, i: nat, f: nat, n: nat)
    requires p < |src.units| && b == (if src.units[p] == '-' as int then p + 1 else p) < |src.units|
    requires IntegerEnd(src, b) == Ok(Empty, i) && FractionEnd(src, i).Ok? && FractionEnd(src, i).next == f
    requires ExponentEnd(src, f).Ok? && ExponentEnd(src, f).next == n
    ensures b <= i <= |src.units|
    ensures Scan(src, p) == Ok(Token(b == p + 1, src.units[b..i], FractionEnd(src, i).value, ExponentEnd(src, f).value, n > i), n)
  {
    hide IntegerEnd, FractionEnd, ExponentEnd;
  }

  lemma {:induction false} StopsAt(u: seq<nat>, p: nat, b: nat, i: nat, f: nat, n: nat)
    requires NumberAt(u, p, b, i, f, n) && Stops(u, i, f, n)
    ensures b < i <= f <= n <= |u|
    ensures (i == |u| || !IsDigit(u[i])) && (f == i ==> i == |u| || u[i] != '.' as int) && (f > i ==> f == |u| || !IsDigit(u[f]))
    ensures (n == f ==> f == |u| || !IsE(u[f])) && (n > f ==> n == |u| || !IsDigit(u[n]))
  {
  }

  /** The scanner succeeds exactly on a number that stops, and takes it apart as the grammar does. */
  lemma {:induction false} ScanComplete(src: Input, p: nat, b: nat, i: nat, f: nat, n: nat)
    requires NumberAt(src.units, p, b, i, f, n) && Stops(src.units, i, f, n)
    ensures var r := Scan(src, p);
            && r.Ok? && r.next == n && r.value.negative == (b == p + 1) && r.value.integer == src.units[b..i]
            && r.value.fraction == (if f == i then [] else src.units[i + 1..f]) && r.value.floating == (n > i)
    ensures Scan(src, p) == Ok(TokenOf(src.units, p, b, i, f, n), n)
  {
    hide Scan, IntegerEnd, FractionEnd, ExponentEnd, DigitsEnd, IntPart, FracPart, ExpPart, Stops, ExponentValue;
    StopsAt(src.units, p, b, i, f, n);
    IntegerIs(src, b, i);
    FractionIs(src, i, f);
    ExponentIs(src, f, n);
    ExponentDigits(src, f, n);
    FractionDigits(src, i);
    ScanOf(src, p, b, i, f, n);
  }

  lemma {:induction false} ExponentDigits(src: Input, f: nat, n: nat)
    requires ExpPart(src.units, f, n) && ExponentEnd(src, f).Ok? && ExponentEnd(src, f).next == n
    ensures ExponentEnd(src, f).value == ExponentValue(src.units, f, n)
  {
    hide I.ExponentOf, DigitsEnd;
    if f < n { DigitsEndIs(src, ExpDigits(src.units, f)); }
  }

  lemma {:induction false} FractionDigits(src: Input, i: nat)
    requires i <= |src.units|
    ensures var r := FractionEnd(src, i); r.Ok? ==> r.value == if r.next == i then [] else src.units[i + 1..r.next]
  {
  }

  lemma {:induction false} ScanSound(src: Input, p: nat) returns (b: nat, i: nat, f: nat)
    requires p < |src.units| && Scan(src, p).Ok?
    ensures NumberAt(src.units, p, b, i, f, Scan(src, p).next) && Stops(src.units, i, f, Scan(src, p).next)
  {
    b := if src.units[p] == '-' as int then p + 1 else p;
    i := IntegerEnd(src, b).next;
    f := FractionEnd(src, i).next;
    IntegerIs(src, b, i);
    FractionIs(src, i, f);
    ExponentIs(src, f, Scan(src, p).next);
    hide IntegerEnd, FractionEnd, ExponentEnd, DigitsEnd;
  }

  /** `scan_number` succeeds if and only if a number begins here that nothing continues. */
  lemma {:induction false} ScanIff(src: Input, p: nat)
    requires p < |src.units|
    ensures Scan(src, p).Ok? <==>
              exists b: nat, i: nat, f: nat, n: nat :: NumberAt(src.units, p, b, i, f, n) && Stops(src.units, i, f, n)
  {
    hide Scan, NumberAt, Stops;
    if Scan(src, p).Ok? {
      var b, i, f := ScanSound(src, p);
      assert NumberAt(src.units, p, b, i, f, Scan(src, p).next);
    }
    forall b: nat, i: nat, f: nat, n: nat | NumberAt(src.units, p, b, i, f, n) && Stops(src.units, i, f, n)
      ensures Scan(src, p).Ok?
    {
      ScanComplete(src, p, b, i, f, n);
    }
  }

  /** What it takes is the longest number that begins here. */
  lemma {:induction false} ScanLongest(src: Input, p: nat, b: nat, i: nat, f: nat, n: nat)
    requires NumberAt(src.units, p, b, i, f, n) && Scan(src, p).Ok?
    ensures n <= Scan(src, p).next
  {
    var b', i', f' := ScanSound(src, p);
    var u, n' := src.units, Scan(src, p).next;
    IntegerIs(src, b, i');
    FractionIs(src, i', f');
    ExponentIs(src, f', n');
    hide Scan, IntegerEnd, FractionEnd, ExponentEnd, DigitsEnd;
    assert b' == b;
    if i < i' {
      assert IsDigit(u[i]);
    } else if f < f' && f > i {
      assert IsDigit(u[f]);
    }
  }

  /** A number may begin here although the scanner fails: it does not go back from what looks like a continuation. */
  lemma {:induction false} ScanNoBacktrack(src: Input)
    requires src.units == ['1' as int, '.' as int]
    ensures NumberAt(src.units, 0, 0, 1, 1, 1) && Scan(src, 0).Err?
  {
    IntegerIs(src, 0, 1);
    assert FractionEnd(src, 1).Err?;
  }
}
