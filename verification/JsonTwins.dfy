// One text in its two encodings: the JSON reader takes both or neither, builds the same value from both, and
// stops at corresponding places.

module JsonTwins {
  import opened Options
  import opened Unicode
  import I = Integers
  import opened JsonString
  import opened JsonGrammar
  import opened JsonWalk
  import A = JsonAgreement

  /** The same text, options and conversion to floats. */
  ghost predicate Twins(text: Text, s: Input, t: Input) {
    && s.units == Utf8(text) && !s.utf16 && t.units == Utf16(text) && t.utf16 && Valid(s) && Valid(t)
    && s.allowComments == t.allowComments && s.rejectIntegerOverflow == t.rejectIntegerOverflow
    && s.rejectDuplicateKeys == t.rejectDuplicateKeys && s.convert == t.convert
  }

  /** In front of the same character of the text. */
  ghost predicate Place(text: Text, p: nat, q: nat) {
    exists k: nat :: k <= |text| && p == A.Off(false, text, k) && q == A.Off(true, text, k)
  }

  ghost predicate Same<T(!new)>(text: Text, r: Outcome<T>, r': Outcome<T>) {
    if r.Ok? then r'.Ok? && r'.value == r.value && Place(text, r.next, r'.next) else r'.Err?
  }

  ghost predicate SameWalk<T(!new)>(text: Text, w: Walk<T>, w': Walk<T>) {
    Same(text, w.out, w'.out) && (w.out.Ok? ==> w'.depth == w.depth)
  }

  // ---------- single characters ----------

  /** At one place both encodings end, or show the same ASCII character, or both show another. */
  lemma {:induction false} Peek(text: Text, s: Input, t: Input, p: nat, q: nat)
    requires Twins(text, s, t) && Place(text, p, q)
    ensures p <= |s.units| && q <= |t.units| && (p == |s.units| <==> q == |t.units|)
    ensures p < |s.units| ==> (s.units[p] < 0x80 || t.units[q] < 0x80 ==> s.units[p] == t.units[q] && Place(text, p + 1, q + 1))
  {
    var k: nat :| k <= |text| && p == A.Off(false, text, k) && q == A.Off(true, text, k);
    hide A.Off, Utf8, Utf16;
    AtEnd(false, text, k);
    AtEnd(true, text, k);
    if k < |text| {
      A.At(false, text, k);
      A.At(true, text, k);
      assert k + 1 <= |text|;
    }
  }

  lemma {:induction false} AtEnd(wide: bool, text: Text, k: nat)
    requires k <= |text|
    ensures A.Off(wide, text, k) <= |A.Units(wide, text)| && (k == |text| <==> A.Off(wide, text, k) == |A.Units(wide, text)|)
  {
    A.Slice(wide, text, k, |text|);
    if k < |text| {
      A.At(wide, text, k);
    }
  }

  /** The place behind one character. */
  lemma {:induction false} Advance(text: Text, s: Input, t: Input, p: nat, q: nat) returns (n: nat, m: nat)
    requires Twins(text, s, t) && Place(text, p, q) && p < |s.units|
    ensures p < n <= |s.units| && q < m <= |t.units| && Place(text, n, m)
    ensures s.units[p] < 0x80 ==> n == p + 1 && m == q + 1
    ensures s.units[p] >= 0x80 ==> (forall i :: p <= i < n ==> s.units[i] >= 0x80) && forall i :: q <= i < m ==> t.units[i] >= 0x80
  {
    var k: nat :| k <= |text| && p == A.Off(false, text, k) && q == A.Off(true, text, k);
    hide A.Off, Utf8, Utf16;
    AtEnd(false, text, k);
    A.At(false, text, k);
    A.At(true, text, k);
    n, m := A.Off(false, text, k + 1), A.Off(true, text, k + 1);
  }

  // ---------- blanks ----------

  lemma {:induction false} LineSkip(src: Input, p: nat, n: nat)
    requires p <= n <= |src.units| && forall i :: p <= i < n ==> src.units[i] != NEWLINE
    ensures LineEnd(src, p) == LineEnd(src, n)
    decreases n - p
  {
    if p < n { LineSkip(src, p + 1, n); }
  }

  lemma {:induction false} LineTwin(text: Text, s: Input, t: Input, p: nat, q: nat)
    requires Twins(text, s, t) && Place(text, p, q)
    ensures p <= |s.units| && q <= |t.units| && Place(text, LineEnd(s, p), LineEnd(t, q))
    decreases |s.units| - p
  {
    hide Twins, Place;
    Peek(text, s, t, p, q);
    if p < |s.units| && s.units[p] != NEWLINE {
      var n, m := Advance(text, s, t, p, q);
      LineSkip(s, p, n);
      LineSkip(t, q, m);
      hide LineEnd;
      LineTwin(text, s, t, n, m);
    }
  }

  lemma {:induction false} BlockSkip(src: Input, p: nat, n: nat)
    requires p <= n <= |src.units| && forall i :: p <= i < n ==> src.units[i] != STAR
    ensures BlockEnd(src, p) == BlockEnd(src, n)
    decreases n - p
  {
    if p < n { BlockSkip(src, p + 1, n); }
  }

  /** A star is the end of the comment, or just a star. */
  lemma {:induction false} BlockStar(src: Input, p: nat)
    requires p < |src.units| && src.units[p] == STAR
    ensures BlockEnd(src, p) == if At(src, p + 1) == SLASH then Some(p + 2) else BlockEnd(src, p + 1)
  {
  }

  /** A second ASCII character, seen by both or by neither. */
  lemma {:induction false} Second(text: Text, s: Input, t: Input, p: nat, q: nat, c: nat)
    requires Twins(text, s, t) && Place(text, p, q) && p < |s.units| && s.units[p] < 0x80 && 0 < c < 0x80
    ensures At(s, p + 1) == c <==> At(t, q + 1) == c
    ensures At(s, p + 1) == c ==> Place(text, p + 2, q + 2)
  {
    hide Twins, Place;
    Peek(text, s, t, p, q);
    Peek(text, s, t, p + 1, q + 1);
  }

  lemma {:induction false} BlockTwin(text: Text, s: Input, t: Input, p: nat, q: nat)
    requires Twins(text, s, t) && Place(text, p, q)
    ensures p <= |s.units| && q <= |t.units|
    ensures match BlockEnd(s, p) case None => BlockEnd(t, q).None? case Some(n) => BlockEnd(t, q).Some? && Place(text, n, BlockEnd(t, q).value)
    decreases |s.units| - p
  {
    hide Twins, Place;
    Peek(text, s, t, p, q);
    if p < |s.units| {
      if s.units[p] == STAR {
        Second(text, s, t, p, q, SLASH);
        BlockStar(s, p);
        BlockStar(t, q);
        hide BlockEnd;
        if At(s, p + 1) != SLASH { BlockTwin(text, s, t, p + 1, q + 1); }
      } else {
        var n, m := Advance(text, s, t, p, q);
        BlockSkip(s, p, n);
        BlockSkip(t, q, m);
        hide BlockEnd;
        BlockTwin(text, s, t, n, m);
      }
    }
  }

  lemma {:induction false} SameOptions(text: Text, s: Input, t: Input)
    requires Twins(text, s, t)
    ensures s.allowComments == t.allowComments && s.rejectIntegerOverflow == t.rejectIntegerOverflow
    ensures s.rejectDuplicateKeys == t.rejectDuplicateKeys && s.convert == t.convert && Valid(s) && Valid(t)
  {
  }

  lemma {:induction false} SpaceTwin(text: Text, s: Input, t: Input, p: nat, q: nat)
    requires Twins(text, s, t) && Place(text, p, q)
    ensures p <= |s.units| && q <= |t.units| && Same(text, Space(s, p), Space(t, q))
    decreases |s.units| - p
  {
    hide Twins, Place, LineEnd, BlockEnd;
    Peek(text, s, t, p, q);
    SameOptions(text, s, t);
    if p < |s.units| && s.units[p] < 0x80 {
      if IsSpace(s.units[p]) {
        SpaceTwin(text, s, t, p + 1, q + 1);
      } else if s.allowComments && s.units[p] == SLASH {
        Second(text, s, t, p, q, SLASH);
        Second(text, s, t, p, q, STAR);
        if At(s, p + 1) == SLASH {
          LineTwin(text, s, t, p + 2, q + 2);
          SpaceTwin(text, s, t, LineEnd(s, p + 2), LineEnd(t, q + 2));
        } else if At(s, p + 1) == STAR {
          BlockTwin(text, s, t, p + 2, q + 2);
          if BlockEnd(s, p + 2).Some? { SpaceTwin(text, s, t, BlockEnd(s, p + 2).value, BlockEnd(t, q + 2).value); }
        }
      }
    }
  }

  // ---------- scalars ----------

  lemma {:induction false} IdentTwin(text: Text, s: Input, t: Input, p: nat, q: nat, word: seq<char>, i: nat)
    requires Twins(text, s, t) && Place(text, p, q) && i <= |word| && forall j :: 0 <= j < |word| ==> word[j] as int < 0x80
    ensures p <= |s.units| && q <= |t.units| && Same(text, Ident(s, p, word, i), Ident(t, q, word, i))
    decreases |word| - i
  {
    hide Twins, Place;
    Peek(text, s, t, p, q);
    if i < |word| && p < |s.units| && s.units[p] == word[i] as int { IdentTwin(text, s, t, p + 1, q + 1, word, i + 1); }
  }

  /** As many digits, and the same ones. */
  lemma {:induction false} DigitsTwin(text: Text, s: Input, t: Input, p: nat, q: nat)
    requires Twins(text, s, t) && Place(text, p, q)
    ensures p <= |s.units| && q <= |t.units| && Place(text, DigitsEnd(s, p), DigitsEnd(t, q))
    ensures DigitsEnd(t, q) - q == DigitsEnd(s, p) - p && s.units[p..DigitsEnd(s, p)] == t.units[q..DigitsEnd(t, q)]
    decreases |s.units| - p
  {
    hide Twins, Place;
    Peek(text, s, t, p, q);
    if p < |s.units| && IsDigit(s.units[p]) {
      DigitsTwin(text, s, t, p + 1, q + 1);
      assert s.units[p..DigitsEnd(s, p)] == [s.units[p]] + s.units[p + 1..DigitsEnd(s, p)];
      assert t.units[q..DigitsEnd(t, q)] == [t.units[q]] + t.units[q + 1..DigitsEnd(t, q)];
    }
  }

  lemma {:induction false} IntegerTwin(text: Text, s: Input, t: Input, p: nat, q: nat)
    requires Twins(text, s, t) && Place(text, p, q)
    ensures p <= |s.units| && q <= |t.units|
    ensures var r, r' := IntegerEnd(s, p), IntegerEnd(t, q);
            Same(text, r, r') && (r.Ok? ==> p <= r.next <= |s.units| && q <= r'.next <= |t.units| && s.units[p..r.next] == t.units[q..r'.next])
  {
    hide Twins, Place, DigitsEnd;
    Peek(text, s, t, p, q);
    DigitsTwin(text, s, t, p, q);
    if p < |s.units| && s.units[p] < 0x80 { Peek(text, s, t, p + 1, q + 1); }
  }

  lemma {:induction false} FractionTwin(text: Text, s: Input, t: Input, p: nat, q: nat)
    requires Twins(text, s, t) && Place(text, p, q)
    ensures p <= |s.units| && q <= |t.units| && Same(text, FractionEnd(s, p), FractionEnd(t, q))
    ensures FractionEnd(s, p).Ok? ==> (FractionEnd(s, p).next == p <==> FractionEnd(t, q).next == q)
  {
    hide Twins, Place, DigitsEnd;
    Peek(text, s, t, p, q);
    if p < |s.units| && s.units[p] == '.' as int {
      Peek(text, s, t, p + 1, q + 1);
      DigitsTwin(text, s, t, p + 1, q + 1);
    }
  }

  lemma {:induction false} ExponentTwin(text: Text, s: Input, t: Input, p: nat, q: nat)
    requires Twins(text, s, t) && Place(text, p, q)
    ensures p <= |s.units| && q <= |t.units| && Same(text, ExponentEnd(s, p), ExponentEnd(t, q))
    ensures ExponentEnd(s, p).Ok? ==> (ExponentEnd(s, p).next == p <==> ExponentEnd(t, q).next == q)
  {
    hide Twins, Place, DigitsEnd, I.ExponentOf;
    Peek(text, s, t, p, q);
    if p < |s.units| && s.units[p] < 0x80 {
      Second(text, s, t, p, q, '-' as int);
      Second(text, s, t, p, q, '+' as int);
      var sign := At(s, p + 1) == '-' as int || At(s, p + 1) == '+' as int;
      var n, m := if sign then p + 2 else p + 1, if sign then q + 2 else q + 1;
      Peek(text, s, t, n, m);
      DigitsTwin(text, s, t, n, m);
    }
  }

  lemma {:induction false} ScanTwin(text: Text, s: Input, t: Input, p: nat, q: nat)
    requires Twins(text, s, t) && Place(text, p, q) && p < |s.units|
    ensures q < |t.units| && Same(text, Scan(s, p), Scan(t, q))
  {
    hide Twins, Place, IntegerEnd, FractionEnd, ExponentEnd;
    Peek(text, s, t, p, q);
    var b, b' := if s.units[p] == '-' as int then p + 1 else p, if t.units[q] == '-' as int then q + 1 else q;
    Peek(text, s, t, b, b');
    IntegerTwin(text, s, t, b, b');
    var i, i' := IntegerEnd(s, b), IntegerEnd(t, b');
    if i.Ok? {
      FractionTwin(text, s, t, i.next, i'.next);
      var f, f' := FractionEnd(s, i.next), FractionEnd(t, i'.next);
      if f.Ok? { ExponentTwin(text, s, t, f.next, f'.next); }
    }
  }

  lemma {:induction false} NumberTwin(text: Text, s: Input, t: Input, p: nat, q: nat)
    requires Twins(text, s, t) && Place(text, p, q) && p < |s.units|
    ensures q < |t.units| && Same(text, Number(s, p), Number(t, q))
  {
    hide Twins, Place, Scan, I.NumberOf;
    ScanTwin(text, s, t, p, q);
    SameOptions(text, s, t);
  }

  lemma {:induction false} StringTwin(text: Text, s: Input, t: Input, p: nat, q: nat)
    requires Twins(text, s, t) && Place(text, p, q) && p < |s.units| && s.units[p] == QUOTE
    ensures q < |t.units| && Valid(s) && Valid(t) && Same(text, String(s, p), String(t, q))
  {
    Peek(text, s, t, p, q);
    var k: nat :| k <= |text| && p + 1 == A.Off(false, text, k) && q + 1 == A.Off(true, text, k);
    A.EncodingsAgree(text, k);
    hide A.Off, Utf8, Utf16, String8, String16, Words;
  }

  lemma {:induction false} KindTwin(text: Text, s: Input, t: Input, p: nat, q: nat)
    requires Twins(text, s, t) && Place(text, p, q)
    ensures p <= |s.units| && q <= |t.units| && Same(text, ValueKind(s, p), ValueKind(t, q))
  {
    hide Twins, Place, Space;
    SpaceTwin(text, s, t, p, q);
    if Space(s, p).Ok? { Peek(text, s, t, Space(s, p).next, Space(t, q).next); }
  }

  lemma {:induction false} LeafTwin(text: Text, s: Input, t: Input, p: nat, q: nat, kind: Kind)
    requires Twins(text, s, t) && Place(text, p, q) && p < |s.units| && KindOf(s.units[p]) == Some(kind)
    requires !kind.ArrayKind? && !kind.ObjectKind?
    ensures q < |t.units| && Valid(s) && Valid(t) && Same(text, Leaf(s, p, kind), Leaf(t, q, kind))
  {
    hide Twins, Place, Ident, Number, String, Valid;
    SameOptions(text, s, t);
    Peek(text, s, t, p, q);
    match kind
    case NullKind => IdentTwin(text, s, t, p, q, "null", 0);
    case BooleanKind =>
      IdentTwin(text, s, t, p, q, "true", 0);
      IdentTwin(text, s, t, p, q, "false", 0);
    case NumberKind => NumberTwin(text, s, t, p, q);
    case StringKind => StringTwin(text, s, t, p, q);
  }

  // ---------- containers ----------

  lemma {:induction false} BeginTwin(text: Text, s: Input, t: Input, p: nat, q: nat, d: nat)
    requires Twins(text, s, t) && Place(text, p, q) && p < |s.units| && s.units[p] < 0x80
    ensures q < |t.units| && SameWalk(text, Begin(s, p, d), Begin(t, q, d))
  {
    hide Twins, Place, Space;
    Peek(text, s, t, p, q);
    SpaceTwin(text, s, t, p + 1, q + 1);
  }

  lemma {:induction false} CommaTwin(text: Text, s: Input, t: Input, p: nat, q: nat, first: bool, close: nat, expected: ErrorCode)
    requires Twins(text, s, t) && Place(text, p, q) && p < |s.units| && close < 0x80
    ensures q < |t.units| && Same(text, Comma(s, p, first, close, expected), Comma(t, q, first, close, expected))
  {
    hide Twins, Place, Space;
    Peek(text, s, t, p, q);
    if !first && s.units[p] == ',' as int {
      SpaceTwin(text, s, t, p + 1, q + 1);
      var r, r' := Space(s, p + 1), Space(t, q + 1);
      if r.Ok? { Peek(text, s, t, r.next, r'.next); }
    }
  }

  lemma {:induction false} KeyTwin(text: Text, s: Input, t: Input, p: nat, q: nat)
    requires Twins(text, s, t) && Place(text, p, q) && p < |s.units|
    ensures q < |t.units| && Valid(s) && Valid(t) && Same(text, Key(s, p), Key(t, q))
  {
    hide Twins, Place, Space, String, Valid;
    SameOptions(text, s, t);
    Peek(text, s, t, p, q);
    if s.units[p] == QUOTE {
      StringTwin(text, s, t, p, q);
      if String(s, p).Ok? { ColonTwin(text, s, t, String(s, p).next, String(t, q).next); }
    }
  }

  /** Blanks, a colon, and blanks. */
  lemma {:induction false} ColonTwin(text: Text, s: Input, t: Input, p: nat, q: nat)
    requires Twins(text, s, t) && Place(text, p, q)
    ensures p <= |s.units| && q <= |t.units| && Same(text, Space(s, p), Space(t, q))
    ensures var c, c' := Space(s, p), Space(t, q);
            c.Ok? ==>
              && (c.next == |s.units| <==> c'.next == |t.units|)
              && (c.next < |s.units| ==>
                    && (s.units[c.next] == ':' as int <==> t.units[c'.next] == ':' as int)
                    && (s.units[c.next] == ':' as int ==> Same(text, Space(s, c.next + 1), Space(t, c'.next + 1))))
  {
    hide Twins, Place, Space;
    SpaceTwin(text, s, t, p, q);
    var c, c' := Space(s, p), Space(t, q);
    if c.Ok? {
      Peek(text, s, t, c.next, c'.next);
      if c.next < |s.units| && s.units[c.next] == ':' as int { SpaceTwin(text, s, t, c.next + 1, c'.next + 1); }
    }
  }

  lemma {:induction false} NextArrayTwin(text: Text, s: Input, t: Input, p: nat, q: nat, d: nat, first: bool)
    requires Twins(text, s, t) && Place(text, p, q)
    ensures p <= |s.units| && q <= |t.units| && SameWalk(text, NextArray(s, p, d, first), NextArray(t, q, d, first))
  {
    hide Twins, Place, Space, Comma;
    SpaceTwin(text, s, t, p, q);
    var c, c' := Space(s, p), Space(t, q);
    if c.Ok? {
      Peek(text, s, t, c.next, c'.next);
      if c.next < |s.units| { CommaTwin(text, s, t, c.next, c'.next, first, ']' as int, ExpectedListCommaOrEnd); }
    }
  }

  lemma {:induction false} NextKeyTwin(text: Text, s: Input, t: Input, p: nat, q: nat, d: nat, first: bool)
    requires Twins(text, s, t) && Place(text, p, q)
    ensures p <= |s.units| && q <= |t.units| && Valid(s) && Valid(t)
    ensures SameWalk(text, NextKey(s, p, d, first), NextKey(t, q, d, first))
  {
    hide Twins, Place, Space, Comma, Key, Valid;
    SameOptions(text, s, t);
    SpaceTwin(text, s, t, p, q);
    var c, c' := Space(s, p), Space(t, q);
    if c.Ok? {
      Peek(text, s, t, c.next, c'.next);
      if c.next < |s.units| {
        CommaTwin(text, s, t, c.next, c'.next, first, '}' as int, ExpectedObjectCommaOrEnd);
        var r, r' := Comma(s, c.next, first, '}' as int, ExpectedObjectCommaOrEnd), Comma(t, c'.next, first, '}' as int, ExpectedObjectCommaOrEnd);
        if r.Ok? { KeyTwin(text, s, t, r.next, r'.next); }
      }
    }
  }

  // ---------- whole values ----------

  /**
   * Building a value from the UTF-8 and from the UTF-16 form of any text, from corresponding places: the same
   * value and corresponding ends, or a failure of both.
   */
  lemma {:induction false} ParseTwin(text: Text, s: Input, t: Input, p: nat, q: nat, d: nat)
    requires Twins(text, s, t) && Place(text, p, q)
    ensures p <= |s.units| && q <= |t.units| && Valid(s) && Valid(t)
    ensures SameWalk(text, Parse(s, p, d), Parse(t, q, d))
    decreases |s.units| - p, 1
  {
    hide Twins, Place, ValueKind, Begin, Leaf, Valid, ParseItems, ParseMembers;
    SameOptions(text, s, t);
    KindTwin(text, s, t, p, q);
    var k, k' := ValueKind(s, p), ValueKind(t, q);
    if k.Ok? {
      if k.value.ArrayKind? || k.value.ObjectKind? {
        BeginTwin(text, s, t, k.next, k'.next, d);
        var b, b' := Begin(s, k.next, d), Begin(t, k'.next, d);
        if b.out.Ok? {
          if k.value.ArrayKind? {
            ItemsTwin(text, s, t, b.out.next, b'.out.next, b.depth, true, []);
          } else {
            MembersTwin(text, s, t, b.out.next, b'.out.next, b.depth, true, map[]);
          }
        }
      } else {
        LeafTwin(text, s, t, k.next, k'.next, k.value);
      }
    }
  }

  lemma {:induction false} ItemsTwin(text: Text, s: Input, t: Input, p: nat, q: nat, d: nat, first: bool, values: seq<Value>)
    requires Twins(text, s, t) && Place(text, p, q)
    ensures p <= |s.units| && q <= |t.units| && Valid(s) && Valid(t)
    ensures SameWalk(text, ParseItems(s, p, d, first, values), ParseItems(t, q, d, first, values))
    decreases |s.units| - p, 2
  {
    hide Twins, Place, NextArray, Parse, Valid;
    SameOptions(text, s, t);
    NextArrayTwin(text, s, t, p, q, d, first);
    var n, n' := NextArray(s, p, d, first), NextArray(t, q, d, first);
    if n.out.Ok? && n.out.value {
      ParseTwin(text, s, t, n.out.next, n'.out.next, n.depth);
      var v, v' := Parse(s, n.out.next, n.depth), Parse(t, n'.out.next, n.depth);
      if v.out.Ok? { ItemsTwin(text, s, t, v.out.next, v'.out.next, v.depth, false, values + [v.out.value]); }
    }
  }

  lemma {:induction false} MembersTwin(text: Text, s: Input, t: Input, p: nat, q: nat, d: nat, first: bool, values: map<seq<int>, Value>)
    requires Twins(text, s, t) && Place(text, p, q)
    ensures p <= |s.units| && q <= |t.units| && Valid(s) && Valid(t)
    ensures SameWalk(text, ParseMembers(s, p, d, first, values), ParseMembers(t, q, d, first, values))
    decreases |s.units| - p, 2
  {
    hide Twins, Place, NextKey, Parse, Valid;
    SameOptions(text, s, t);
    NextKeyTwin(text, s, t, p, q, d, first);
    var n, n' := NextKey(s, p, d, first), NextKey(t, q, d, first);
    if n.out.Ok? && n.out.value.Some? {
      ParseTwin(text, s, t, n.out.next, n'.out.next, n.depth);
      var v, v' := Parse(s, n.out.next, n.depth), Parse(t, n'.out.next, n.depth);
      var key := n.out.value.value;
      if v.out.Ok? && !(s.rejectDuplicateKeys && key in values) {
        MembersTwin(text, s, t, v.out.next, v'.out.next, v.depth, false, values[key := v.out.value]);
      }
    }
  }

  /** The same of skipping. */
  lemma {:induction false} SkipTwin(text: Text, s: Input, t: Input, p: nat, q: nat, d: nat)
    requires Twins(text, s, t) && Place(text, p, q)
    ensures p <= |s.units| && q <= |t.units| && Valid(s) && Valid(t)
    ensures SameWalk(text, Skip(s, p, d), Skip(t, q, d))
    decreases |s.units| - p, 1
  {
    hide Twins, Place, ValueKind, Begin, Leaf, Valid, SkipItems, SkipMembers;
    SameOptions(text, s, t);
    KindTwin(text, s, t, p, q);
    var k, k' := ValueKind(s, p), ValueKind(t, q);
    if k.Ok? {
      if k.value.ArrayKind? || k.value.ObjectKind? {
        BeginTwin(text, s, t, k.next, k'.next, d);
        var b, b' := Begin(s, k.next, d), Begin(t, k'.next, d);
        if b.out.Ok? {
          SkipItemsTwin(text, s, t, b.out.next, b'.out.next, b.depth, true);
          SkipMembersTwin(text, s, t, b.out.next, b'.out.next, b.depth, true);
        }
      } else {
        LeafTwin(text, s, t, k.next, k'.next, k.value);
      }
    }
  }

  lemma {:induction false} SkipItemsTwin(text: Text, s: Input, t: Input, p: nat, q: nat, d: nat, first: bool)
    requires Twins(text, s, t) && Place(text, p, q)
    ensures p <= |s.units| && q <= |t.units| && Valid(s) && Valid(t)
    ensures SameWalk(text, SkipItems(s, p, d, first), SkipItems(t, q, d, first))
    decreases |s.units| - p, 2
  {
    hide Twins, Place, NextArray, Skip, Valid;
    SameOptions(text, s, t);
    NextArrayTwin(text, s, t, p, q, d, first);
    var n, n' := NextArray(s, p, d, first), NextArray(t, q, d, first);
    if n.out.Ok? && n.out.value {
      SkipTwin(text, s, t, n.out.next, n'.out.next, n.depth);
      var v, v' := Skip(s, n.out.next, n.depth), Skip(t, n'.out.next, n.depth);
      if v.out.Ok? { SkipItemsTwin(text, s, t, v.out.next, v'.out.next, v.depth, false); }
    }
  }

  lemma {:induction false} SkipMembersTwin(text: Text, s: Input, t: Input, p: nat, q: nat, d: nat, first: bool)
    requires Twins(text, s, t) && Place(text, p, q)
    ensures p <= |s.units| && q <= |t.units| && Valid(s) && Valid(t)
    ensures SameWalk(text, SkipMembers(s, p, d, first), SkipMembers(t, q, d, first))
    decreases |s.units| - p, 2
  {
    hide Twins, Place, NextKey, Skip, Valid;
    SameOptions(text, s, t);
    NextKeyTwin(text, s, t, p, q, d, first);
    var n, n' := NextKey(s, p, d, first), NextKey(t, q, d, first);
    if n.out.Ok? && n.out.value.Some? {
      SkipTwin(text, s, t, n.out.next, n'.out.next, n.depth);
      var v, v' := Skip(s, n.out.next, n.depth), Skip(t, n'.out.next, n.depth);
      if v.out.Ok? { SkipMembersTwin(text, s, t, v.out.next, v'.out.next, v.depth, false); }
    }
  }

  lemma {:induction false} Utf8Words(text: Text)
    ensures Words(Utf8(text))
    decreases |text|
  {
    if text != [] {
      var c := text[|text| - 1];
      Utf8Words(text[..|text| - 1]);
      assert c < 0x80 ==> Utf8Of(c) == [c];
      WordsJoin(Utf8(text[..|text| - 1]), Utf8Of(c));
      hide Utf8Of, Words;
    }
  }

  lemma {:induction false} FirstPlace(text: Text)
    ensures Place(text, 0, 0)
  {
    Utf8Push([], 0);
    Utf16Push([], 0);
    assert text[..0] == [];
    hide Utf8, Utf16;
    assert A.Off(false, text, 0) == 0 && A.Off(true, text, 0) == 0;
  }

  /** Any text, with any options: the two forms of it are built, or skipped, alike. */
  lemma {:induction false} ValuesAgree(text: Text, comments: bool, overflow: bool, duplicates: bool, convert: Token -> FloatOutcome, d: nat)
    ensures Words(Utf8(text)) && Words(Utf16(text))
    ensures var s := Input(Utf8(text), false, comments, overflow, duplicates, convert);
            var t := Input(Utf16(text), true, comments, overflow, duplicates, convert);
            SameWalk(text, Parse(s, 0, d), Parse(t, 0, d)) && SameWalk(text, Skip(s, 0, d), Skip(t, 0, d))
  {
    hide Utf8, Utf16, Words, Parse, Skip, SameWalk, Place;
    var s := Input(Utf8(text), false, comments, overflow, duplicates, convert);
    var t := Input(Utf16(text), true, comments, overflow, duplicates, convert);
    Utf8Words(text);
    Utf16Words(text);
    assert Twins(text, s, t);
    FirstPlace(text);
    hide Twins;
    ParseTwin(text, s, t, 0, 0, d);
    SkipTwin(text, s, t, 0, 0, d);
  }
}
