// The JSON texts that the walks accept (section 2 of RFC 8259): derivations, without positions of a cursor
// or a depth counter, and the proof that a value is skipped exactly if it has one that is shallow enough.

module JsonLanguage {
  import opened Options
  import opened JsonString
  import opened JsonGrammar
  import I = Integers
  import opened JsonTokens
  import opened JsonLiterals
  import opened JsonWalk

  const COMMA: nat := ',' as int
  const COLON: nat := ':' as int
  const CLOSE_LIST: nat := ']' as int
  const CLOSE_DICT: nat := '}' as int

  /** How a value is written: scalars with their values, members in their order and with their keys. */
  datatype Doc = Scalar(v: Value) | List(items: Docs) | Dict(members: Pairs)
  datatype Docs = NoDocs | Docs(head: Doc, tail: Docs)
  datatype Pairs = NoPairs | Pair(key: seq<int>, value: Doc, rest: Pairs)

  function Deeper(a: nat, b: nat): nat {
    if a < b then b else a
  }

  /** Containers inside containers. */
  function Nesting(t: Doc): nat {
    match t
    case Scalar(_) => 0
    case List(items) => 1 + NestingOf(items)
    case Dict(members) => 1 + NestingIn(members)
  }

  function NestingOf(ts: Docs): nat {
    match ts
    case NoDocs => 0
    case Docs(head, tail) => Deeper(Nesting(head), NestingOf(tail))
  }

  function NestingIn(ms: Pairs): nat {
    match ms
    case NoPairs => 0
    case Pair(_, value, rest) => Deeper(Nesting(value), NestingIn(rest))
  }

  /** Blanks from p, and then the unit c at q. */
  ghost predicate UnitAfter(src: Input, p: nat, q: nat, c: nat) {
    BlankTo(src, p, q) && Solid(src, q) && q < |src.units| && src.units[q] == c
  }

  /** Blanks from p to the beginning of something other than c. */
  ghost predicate OtherAfter(src: Input, p: nat, q: nat, c: nat) {
    BlankTo(src, p, q) && Solid(src, q) && q < |src.units| && src.units[q] != c
  }

  predicate Spells(u: seq<nat>, q: nat, word: seq<char>, n: nat) {
    n == q + |word| <= |u| && forall i :: 0 <= i < |word| ==> u[q + i] == word[i] as int
  }

  /** x is the number of the token: the integer itself if it fits u64, or i64 below zero, and otherwise its float. */
  predicate ValueOf(src: Input, token: Token, x: I.Number)
    requires forall k :: 0 <= k < |token.integer| ==> IsDigit(token.integer[k])
  {
    DigitUnits(token.integer);
    var m: int := I.Numeral(token.integer, 10);
    match x
    case Unsigned(u) => !token.floating && !token.negative && u == m < 0x1_0000_0000_0000_0000
    case Signed(i) => !token.floating && token.negative && i == -m && 0 < m <= 0x8000_0000_0000_0000
    case Floating(bits) =>
      && src.convert(token) == Finite(bits)
      && (|| token.floating || (token.negative && m == 0)
          || (!src.rejectIntegerOverflow && m >= if token.negative then 0x8000_0000_0000_0001 else 0x1_0000_0000_0000_0000))
  }

  /** A number that nothing continues, with the value x. */
  ghost predicate NumberTo(src: Input, q: nat, x: I.Number, n: nat) {
    exists b: nat, i: nat, f: nat ::
      NumberAt(src.units, q, b, i, f, n) && Stops(src.units, i, f, n) && ValueOf(src, TokenOf(src.units, q, b, i, f, n), x)
  }

  ghost predicate ScalarAt(src: Input, q: nat, v: Value, n: nat) {
    match v
    case Null => Spells(src.units, q, "null", n)
    case Bool(b) => Spells(src.units, q, if b then "true" else "false", n)
    case Num(x) => NumberTo(src, q, x, n)
    case Str(s) => LiteralAt(src, q, s, n)
    case _ => false
  }

  /** A key from q: a string, and a colon. */
  ghost predicate KeyAt(src: Input, q: nat, key: seq<int>, n: nat) {
    exists e: nat, c: nat :: LiteralAt(src, q, key, e) && UnitAfter(src, e, c, COLON) && BlankTo(src, c + 1, n) && Solid(src, n)
  }

  /** The value t is written from p to n, blanks before it included. */
  ghost predicate Written(src: Input, p: nat, t: Doc, n: nat)
    requires Valid(src)
    decreases t
  {
    exists q: nat :: BlankTo(src, p, q) && Solid(src, q) && q < |src.units| && Bare(src, q, t, n)
  }

  ghost predicate Bare(src: Input, q: nat, t: Doc, n: nat)
    requires Valid(src) && q < |src.units|
    decreases t, 0
  {
    match t
    case Scalar(v) => ScalarAt(src, q, v, n)
    case List(items) => src.units[q] == '[' as int && Elements(src, q + 1, items, true, n)
    case Dict(members) => src.units[q] == '{' as int && Members(src, q + 1, members, true, n)
  }

  /** From p: the beginning of another element, behind a comma unless it is the first. */
  ghost predicate Onward(src: Input, p: nat, first: bool, close: nat, r: nat) {
    if first then OtherAfter(src, p, r, close)
    else exists q: nat :: UnitAfter(src, p, q, COMMA) && OtherAfter(src, q + 1, r, close)
  }

  /** The rest of an array, its closing bracket included. */
  ghost predicate Elements(src: Input, p: nat, ts: Docs, first: bool, n: nat)
    requires Valid(src)
    decreases ts
  {
    match ts
    case NoDocs => n > 0 && UnitAfter(src, p, n - 1, CLOSE_LIST)
    case Docs(head, tail) =>
      exists r: nat, m: nat :: Onward(src, p, first, CLOSE_LIST, r) && Written(src, r, head, m) && Elements(src, m, tail, false, n)
  }

  ghost predicate Members(src: Input, p: nat, ms: Pairs, first: bool, n: nat)
    requires Valid(src)
    decreases ms
  {
    match ms
    case NoPairs => n > 0 && UnitAfter(src, p, n - 1, CLOSE_DICT)
    case Pair(key, value, rest) =>
      exists v: nat, m: nat :: KeyNext(src, p, first, key, v) && Written(src, v, value, m) && Members(src, m, rest, false, n)
  }

  // ---------- scalars ----------

  lemma {:induction false} SpellsIs(src: Input, q: nat, word: seq<char>, i: nat, n: nat)
    requires i <= |word| && q + i <= |src.units| && forall j :: 0 <= j < i ==> src.units[q + j] == word[j] as int
    ensures Ident(src, q + i, word, i).Ok? && Ident(src, q + i, word, i).next == n <==> Spells(src.units, q, word, n)
    decreases |word| - i
  {
    if i < |word| && q + i < |src.units| && src.units[q + i] == word[i] as int { SpellsIs(src, q, word, i + 1, n); }
  }

  /** The representation chosen is the one that the value asks for, and there is none exactly where the number is refused. */
  lemma {:induction false} ValueOfIs(src: Input, token: Token, x: I.Number)
    requires forall k :: 0 <= k < |token.integer| ==> IsDigit(token.integer[k])
    ensures (forall k :: 0 <= k < |token.integer| ==> token.integer[k] < 256) && I.AllDigits(token.integer, 10)
    ensures ValueOf(src, token, x) <==>
              match I.NumberOf(I.NumberToken(token.negative, token.integer, token.floating), src.rejectIntegerOverflow)
              case OutOfRange => false
              case ToFloat => x.Floating? && src.convert(token) == Finite(x.bits)
              case Ok(y) => x == y
  {
    DigitUnits(token.integer);
    hide I.Numeral;
  }

  lemma {:induction false} NumberToIs(src: Input, q: nat, x: I.Number, n: nat)
    requires q < |src.units|
    ensures NumberTo(src, q, x, n) <==> Number(src, q) == Ok(x, n)
  {
    hide Scan, NumberAt, Stops, I.NumberOf, TokenOf, ValueOf;
    if Number(src, q) == Ok(x, n) {
      var b, i, f := ScanSound(src, q);
      ScanComplete(src, q, b, i, f, n);
      ValueOfIs(src, TokenOf(src.units, q, b, i, f, n), x);
    }
    forall b: nat, i: nat, f: nat | NumberAt(src.units, q, b, i, f, n) && Stops(src.units, i, f, n) && ValueOf(src, TokenOf(src.units, q, b, i, f, n), x)
      ensures Number(src, q) == Ok(x, n)
    {
      ScanComplete(src, q, b, i, f, n);
      ValueOfIs(src, TokenOf(src.units, q, b, i, f, n), x);
    }
  }

  lemma {:induction false} NumberBegins(src: Input, q: nat, x: I.Number, n: nat)
    requires q < |src.units| && NumberTo(src, q, x, n)
    ensures src.units[q] == '-' as int || IsDigit(src.units[q])
  {
    hide Stops, FracPart, ExpPart, ValueOf, TokenOf;
  }

  /** The leaf v is read up to n. */
  predicate LeafTo(src: Input, q: nat, v: Value, n: nat)
    requires q < |src.units| && Valid(src)
  {
    match KindOf(src.units[q])
    case None => false
    case Some(k) => !k.ArrayKind? && !k.ObjectKind? && Leaf(src, q, k) == Ok(v, n)
  }

  lemma {:induction false} NullIff(src: Input, q: nat, n: nat)
    requires q < |src.units| && Valid(src)
    ensures Spells(src.units, q, "null", n) <==> LeafTo(src, q, Null, n)
  {
    SpellsIs(src, q, "null", 0, n);
    hide Ident, Valid, Number, String;
    if Ident(src, q, "null", 0).Ok? { OnlyEmpty(Ident(src, q, "null", 0)); }
  }

  lemma {:induction false} BoolIff(src: Input, q: nat, b: bool, n: nat)
    requires q < |src.units| && Valid(src)
    ensures Spells(src.units, q, if b then "true" else "false", n) <==> LeafTo(src, q, Bool(b), n)
  {
    SpellsIs(src, q, if b then "true" else "false", 0, n);
    hide Ident, Valid, Number, String;
  }

  lemma {:induction false} StringLeaf(src: Input, q: nat, s: seq<int>, n: nat)
    requires q < |src.units| && Valid(src)
    ensures LiteralAt(src, q, s, n) <==> LeafTo(src, q, Str(s), n)
  {
    if src.units[q] == QUOTE { StringIff(src, q, s, n); }
    hide String, Derives, Meaning, Valid, Number, Ident;
  }

  lemma {:induction false} NumberLeaf(src: Input, q: nat, x: I.Number, n: nat)
    requires q < |src.units| && Valid(src)
    ensures NumberTo(src, q, x, n) <==> LeafTo(src, q, Num(x), n)
  {
    hide Number, NumberTo, Valid, String, Ident;
    NumberToIs(src, q, x, n);
    if NumberTo(src, q, x, n) { NumberBegins(src, q, x, n); }
  }

  /** A scalar is read, up to n and as v, exactly where the grammar has one with that value. */
  lemma {:induction false} ScalarIff(src: Input, q: nat, v: Value, n: nat)
    requires q < |src.units| && Valid(src)
    ensures ScalarAt(src, q, v, n) <==> LeafTo(src, q, v, n)
  {
    hide Spells, LiteralAt, NumberTo, Valid, LeafTo;
    match v
    case Null => NullIff(src, q, n);
    case Bool(b) => BoolIff(src, q, b, n);
    case Num(x) => NumberLeaf(src, q, x, n);
    case Str(s) => StringLeaf(src, q, s, n);
    case _ => NoContainer(src, q, v, n);
  }

  lemma {:induction false} NoContainer(src: Input, q: nat, v: Value, n: nat)
    requires q < |src.units| && Valid(src) && (v.Arr? || v.Obj?)
    ensures !LeafTo(src, q, v, n)
  {
    hide Ident, Number, String, Valid;
  }

  // ---------- one step of a walk ----------

  lemma {:induction false} OnlyEmpty(r: Outcome<Empty>)
    requires r.Ok?
    ensures r == Ok(Empty, r.next)
  {
    match r.value
    case Empty =>
  }

  lemma {:induction false} UnitAfterIs(src: Input, p: nat, q: nat, c: nat)
    requires p <= |src.units|
    ensures UnitAfter(src, p, q, c) <==> Space(src, p) == Ok(Empty, q) && q < |src.units| && src.units[q] == c
    ensures OtherAfter(src, p, q, c) <==> Space(src, p) == Ok(Empty, q) && q < |src.units| && src.units[q] != c
  {
    hide Space, BlankTo, Solid;
    SpaceIff(src, p);
  }

  /** After blanks there are no more blanks. */
  lemma {:induction false} SpaceTwice(src: Input, p: nat, q: nat)
    requires p <= |src.units| && Space(src, p) == Ok(Empty, q)
    ensures q <= |src.units| && Space(src, q) == Ok(Empty, q)
  {
    hide Space, BlankTo, Solid;
    SpaceIff(src, p);
    SolidStays(src, q);
  }

  /** `Comma` with its blanks, where it succeeds. */
  lemma {:induction false} OnwardIs(src: Input, p: nat, first: bool, close: nat, expected: ErrorCode, r: nat)
    requires p <= |src.units| && close != COMMA
    ensures Onward(src, p, first, close, r) <==>
              && Space(src, p).Ok? && Space(src, p).next < |src.units| && src.units[Space(src, p).next] != close
              && Comma(src, Space(src, p).next, first, close, expected) == Ok(Empty, r)
  {
    hide Space, UnitAfter, OtherAfter;
    var s := Space(src, p);
    if s.Ok? && s.next < |src.units| {
      var q := s.next;
      OnlyEmpty(s);
      UnitAfterIs(src, p, q, COMMA);
      UnitAfterIs(src, p, r, close);
      UnitAfterIs(src, q + 1, r, close);
      if Space(src, q + 1).Ok? { OnlyEmpty(Space(src, q + 1)); }
    }
    forall q: nat | UnitAfter(src, p, q, COMMA)
      ensures s == Ok(Empty, q) && q < |src.units|
    {
      UnitAfterIs(src, p, q, COMMA);
    }
    UnitAfterIs(src, p, r, close);
  }

  lemma {:induction false} NextArrayIs(src: Input, p: nat, d: nat, first: bool, r: nat)
    requires p <= |src.units|
    ensures r > 0 ==> (NextArray(src, p, d, first) == Walk(Ok(false, r), d + 1) <==> UnitAfter(src, p, r - 1, CLOSE_LIST))
    ensures NextArray(src, p, d, first) == Walk(Ok(true, r), d) <==> Onward(src, p, first, CLOSE_LIST, r)
  {
    hide Space, UnitAfter, OtherAfter, Onward, Comma;
    OnwardIs(src, p, first, CLOSE_LIST, ExpectedListCommaOrEnd, r);
    if r > 0 { UnitAfterIs(src, p, r - 1, CLOSE_LIST); }
    var s := Space(src, p);
    if s.Ok? { OnlyEmpty(s); }
    if s.Ok? && s.next < |src.units| {
      var c := Comma(src, s.next, first, CLOSE_LIST, ExpectedListCommaOrEnd);
      if c.Ok? { OnlyEmpty(c); }
    }
  }

  lemma {:induction false} KeyIs(src: Input, q: nat, key: seq<int>, n: nat)
    requires q < |src.units| && Valid(src)
    ensures KeyAt(src, q, key, n) <==> Key(src, q) == Ok(key, n)
  {
    hide Space, UnitAfter, BlankTo, Solid, String, Derives, Meaning;
    forall s: seq<int>, e: nat
      ensures LiteralAt(src, q, s, e) <==> src.units[q] == QUOTE && String(src, q) == Ok(s, e)
    {
      if src.units[q] == QUOTE { StringIff(src, q, s, e); }
    }
    hide LiteralAt;
    if src.units[q] == QUOTE && String(src, q).Ok? {
      assert LiteralAt(src, q, String(src, q).value, String(src, q).next);
      ColonIs(src, String(src, q).next, n);
    }
  }

  /** A colon behind a key, and the blanks on both sides of it. */
  lemma {:induction false} ColonIs(src: Input, e: nat, n: nat)
    requires e <= |src.units|
    ensures (exists c: nat :: UnitAfter(src, e, c, COLON) && BlankTo(src, c + 1, n) && Solid(src, n)) <==>
              var s := Space(src, e);
              && s.Ok? && s.next < |src.units| && src.units[s.next] == COLON
              && Space(src, s.next + 1).Ok? && Space(src, s.next + 1).next == n
  {
    hide Space, UnitAfter, BlankTo, Solid;
    var s := Space(src, e);
    if s.Ok? {
      OnlyEmpty(s);
      UnitAfterIs(src, e, s.next, COLON);
      if s.next < |src.units| {
        SpaceIff(src, s.next + 1);
        var t := Space(src, s.next + 1);
        if t.Ok? { OnlyEmpty(t); }
      }
    }
    forall c: nat | UnitAfter(src, e, c, COLON)
      ensures s == Ok(Empty, c) && c < |src.units|
    {
      UnitAfterIs(src, e, c, COLON);
    }
  }

  lemma {:induction false} NextKeyEnd(src: Input, p: nat, d: nat, first: bool, n: nat)
    requires p <= |src.units| && Valid(src) && n > 0
    ensures NextKey(src, p, d, first) == Walk(Ok(None, n), d + 1) <==> UnitAfter(src, p, n - 1, CLOSE_DICT)
  {
    hide Space, UnitAfter, Comma, Key;
    UnitAfterIs(src, p, n - 1, CLOSE_DICT);
    var s := Space(src, p);
    if s.Ok? { OnlyEmpty(s); }
  }

  /** A key is next, and v is behind its colon. */
  ghost predicate KeyNext(src: Input, p: nat, first: bool, key: seq<int>, v: nat)
    requires Valid(src)
  {
    exists r: nat :: Onward(src, p, first, CLOSE_DICT, r) && KeyAt(src, r, key, v)
  }

  lemma {:induction false} NextKeyIs(src: Input, p: nat, d: nat, first: bool, key: seq<int>, v: nat)
    requires p <= |src.units| && Valid(src)
    ensures KeyNext(src, p, first, key, v) <==> NextKey(src, p, d, first) == Walk(Ok(Some(key), v), d)
  {
    hide Space, Onward, KeyAt, Key, Comma;
    var s := Space(src, p);
    forall r: nat
      ensures Onward(src, p, first, CLOSE_DICT, r) <==>
                && s.Ok? && s.next < |src.units| && src.units[s.next] != CLOSE_DICT
                && Comma(src, s.next, first, CLOSE_DICT, ExpectedObjectCommaOrEnd) == Ok(Empty, r)
      ensures r < |src.units| ==> (KeyAt(src, r, key, v) <==> Key(src, r) == Ok(key, v))
    {
      OnwardIs(src, p, first, CLOSE_DICT, ExpectedObjectCommaOrEnd, r);
      if r < |src.units| { KeyIs(src, r, key, v); }
    }
    if s.Ok? && s.next < |src.units| && src.units[s.next] != CLOSE_DICT {
      var c := Comma(src, s.next, first, CLOSE_DICT, ExpectedObjectCommaOrEnd);
      if c.Ok? { OnlyEmpty(c); }
    }
  }

  // ---------- everything written is skipped ----------

  /** Shallow enough for the remaining depth. */
  predicate Fits(nesting: nat, d: nat) {
    nesting == 0 || nesting < d
  }

  /** The blanks behind an opening bracket do not matter. */
  lemma {:induction false} SameStart(src: Input, p: nat, q: nat, d: nat)
    requires p <= |src.units| && Valid(src) && Space(src, p) == Ok(Empty, q)
    ensures q <= |src.units| && SkipItems(src, p, d, true) == SkipItems(src, q, d, true)
    ensures SkipMembers(src, p, d, true) == SkipMembers(src, q, d, true)
  {
    SpaceTwice(src, p, q);
    hide Space, Skip, Comma, Key;
    assert NextArray(src, p, d, true) == NextArray(src, q, d, true);
    assert NextKey(src, p, d, true) == NextKey(src, q, d, true);
  }

  lemma {:induction false} StartKind(src: Input, p: nat, q: nat)
    requires p <= |src.units| && BlankTo(src, p, q) && Solid(src, q) && q < |src.units|
    ensures ValueKind(src, p) == match KindOf(src.units[q]) case Some(kind) => Ok(kind, q) case None => Err(ExpectedSomeValue, q, q)
  {
    hide Space, BlankTo, Solid;
    SpaceIff(src, p);
  }

  /** A container skipped is its inside skipped, with the blanks behind the bracket or without. */
  lemma {:induction false} SkipInside(src: Input, p: nat, q: nat, d: nat)
    requires p <= |src.units| && Valid(src) && BlankTo(src, p, q) && Solid(src, q) && q < |src.units| && d > 1
    requires Space(src, q + 1).Ok? && Space(src, q + 1) == Ok(Empty, Space(src, q + 1).next)
    ensures src.units[q] == '[' as int ==> Skip(src, p, d) == SkipItems(src, q + 1, d - 1, true)
    ensures src.units[q] == '{' as int ==> Skip(src, p, d) == SkipMembers(src, q + 1, d - 1, true)
  {
    hide Space, BlankTo, Solid, Valid, SkipItems, SkipMembers, ValueKind;
    StartKind(src, p, q);
    SameStart(src, q + 1, Space(src, q + 1).next, d - 1);
  }

  lemma {:induction false} SkipLeaf(src: Input, p: nat, q: nat, v: Value, n: nat, d: nat)
    requires p <= |src.units| && Valid(src) && BlankTo(src, p, q) && Solid(src, q) && q < |src.units| && ScalarAt(src, q, v, n)
    ensures Skip(src, p, d) == Walk(Ok(Empty, n), d)
  {
    StartKind(src, p, q);
    ScalarIff(src, q, v, n);
    hide BlankTo, Solid, Valid, SkipItems, SkipMembers, ValueKind, Leaf, ScalarAt, KindOf, Begin;
  }

  lemma {:induction false} WrittenSkipped(src: Input, p: nat, t: Doc, n: nat, d: nat)
    requires p <= |src.units| && Valid(src) && Written(src, p, t, n) && Fits(Nesting(t), d)
    ensures Skip(src, p, d) == Walk(Ok(Empty, n), d)
    decreases t
  {
    hide Space, BlankTo, Solid, Elements, Members, Valid, SkipItems, SkipMembers, ScalarAt, Skip;
    var q: nat :| BlankTo(src, p, q) && Solid(src, q) && q < |src.units| && Bare(src, q, t, n);
    match t
    case Scalar(v) => SkipLeaf(src, p, q, v, n, d);
    case List(items) =>
      StartBlank(src, q + 1, items, NoPairs, n);
      SkipInside(src, p, q, d);
      ElementsSkipped(src, q + 1, items, true, n, d - 1);
    case Dict(members) =>
      StartBlank(src, q + 1, NoDocs, members, n);
      SkipInside(src, p, q, d);
      MembersSkipped(src, q + 1, members, true, n, d - 1);
  }

  lemma {:induction false} StartBlank(src: Input, p: nat, ts: Docs, ms: Pairs, n: nat)
    requires p <= |src.units| && Valid(src) && (Elements(src, p, ts, true, n) || Members(src, p, ms, true, n))
    ensures Space(src, p).Ok? && Space(src, p) == Ok(Empty, Space(src, p).next)
  {
    hide Space, UnitAfter, OtherAfter, Written, KeyAt;
    forall q: nat, c: nat | UnitAfter(src, p, q, c) || OtherAfter(src, p, q, c)
      ensures Space(src, p) == Ok(Empty, q)
    {
      UnitAfterIs(src, p, q, c);
    }
  }

  lemma {:induction false} ElementsSkipped(src: Input, p: nat, ts: Docs, first: bool, n: nat, d: nat)
    requires p <= |src.units| && Valid(src) && Elements(src, p, ts, first, n) && Fits(NestingOf(ts), d)
    ensures SkipItems(src, p, d, first) == Walk(Ok(Empty, n), d + 1)
    decreases ts
  {
    hide NextArray, Skip, Written, Onward, UnitAfter, Valid;
    match ts
    case NoDocs => NextArrayIs(src, p, d, first, n);
    case Docs(head, tail) =>
      var r: nat, m: nat :| Onward(src, p, first, CLOSE_LIST, r) && Written(src, r, head, m) && Elements(src, m, tail, false, n);
      NextArrayIs(src, p, d, first, r);
      WrittenSkipped(src, r, head, m, d);
      ElementsSkipped(src, m, tail, false, n, d);
  }

  lemma {:induction false} MembersSkipped(src: Input, p: nat, ms: Pairs, first: bool, n: nat, d: nat)
    requires p <= |src.units| && Valid(src) && Members(src, p, ms, first, n) && Fits(NestingIn(ms), d)
    ensures SkipMembers(src, p, d, first) == Walk(Ok(Empty, n), d + 1)
    decreases ms
  {
    hide NextKey, Skip, Written, KeyNext, UnitAfter, Valid;
    match ms
    case NoPairs => NextKeyEnd(src, p, d, first, n);
    case Pair(key, value, rest) =>
      var v: nat, m: nat :| KeyNext(src, p, first, key, v) && Written(src, v, value, m) && Members(src, m, rest, false, n);
      NextKeyIs(src, p, d, first, key, v);
      WrittenSkipped(src, v, value, m, d);
      MembersSkipped(src, m, rest, false, n, d);
  }

  // ---------- what is nested too deeply is refused for that ----------

  predicate TooDeep(w: Walk<Empty>) {
    w.out.Err? && w.out.code == RecursionLimitExceeded
  }

  lemma {:induction false} DeepInside(src: Input, p: nat, q: nat, d: nat)
    requires p <= |src.units| && Valid(src) && BlankTo(src, p, q) && Solid(src, q) && q < |src.units| && d <= 1
    requires src.units[q] == '[' as int || src.units[q] == '{' as int
    ensures TooDeep(Skip(src, p, d))
  {
    hide BlankTo, Solid, Valid, SkipItems, SkipMembers, ValueKind;
    StartKind(src, p, q);
  }

  /** A value that is written well, but nested too deeply for the remaining depth, is refused for its depth. */
  lemma {:induction false} WrittenTooDeep(src: Input, p: nat, t: Doc, n: nat, d: nat)
    requires p <= |src.units| && Valid(src) && Written(src, p, t, n) && !Fits(Nesting(t), d)
    ensures TooDeep(Skip(src, p, d))
    decreases t
  {
    hide Space, BlankTo, Solid, Elements, Members, Valid, SkipItems, SkipMembers, ScalarAt, Skip;
    var q: nat :| BlankTo(src, p, q) && Solid(src, q) && q < |src.units| && Bare(src, q, t, n);
    if d <= 1 {
      DeepInside(src, p, q, d);
    } else {
      match t
      case List(items) =>
        StartBlank(src, q + 1, items, NoPairs, n);
        SkipInside(src, p, q, d);
        ElementsTooDeep(src, q + 1, items, true, n, d - 1);
      case Dict(members) =>
        StartBlank(src, q + 1, NoDocs, members, n);
        SkipInside(src, p, q, d);
        MembersTooDeep(src, q + 1, members, true, n, d - 1);
    }
  }

  lemma {:induction false} ElementsTooDeep(src: Input, p: nat, ts: Docs, first: bool, n: nat, d: nat)
    requires p <= |src.units| && Valid(src) && Elements(src, p, ts, first, n) && !Fits(NestingOf(ts), d)
    ensures TooDeep(SkipItems(src, p, d, first))
    decreases ts
  {
    hide NextArray, Skip, Written, Onward, UnitAfter, Valid;
    var r: nat, m: nat :| Onward(src, p, first, CLOSE_LIST, r) && Written(src, r, ts.head, m) && Elements(src, m, ts.tail, false, n);
    NextArrayIs(src, p, d, first, r);
    if Fits(Nesting(ts.head), d) {
      WrittenSkipped(src, r, ts.head, m, d);
      ElementsTooDeep(src, m, ts.tail, false, n, d);
    } else {
      WrittenTooDeep(src, r, ts.head, m, d);
    }
  }

  lemma {:induction false} MembersTooDeep(src: Input, p: nat, ms: Pairs, first: bool, n: nat, d: nat)
    requires p <= |src.units| && Valid(src) && Members(src, p, ms, first, n) && !Fits(NestingIn(ms), d)
    ensures TooDeep(SkipMembers(src, p, d, first))
    decreases ms
  {
    hide NextKey, Skip, Written, KeyNext, UnitAfter, Valid;
    var v: nat, m: nat :| KeyNext(src, p, first, ms.key, v) && Written(src, v, ms.value, m) && Members(src, m, ms.rest, false, n);
    NextKeyIs(src, p, d, first, ms.key, v);
    if Fits(Nesting(ms.value), d) {
      WrittenSkipped(src, v, ms.value, m, d);
      MembersTooDeep(src, m, ms.rest, false, n, d);
    } else {
      WrittenTooDeep(src, v, ms.value, m, d);
    }
  }

  // ---------- everything skipped is written ----------

  lemma {:induction false} ValueStarts(src: Input, p: nat)
    requires p <= |src.units| && ValueKind(src, p).Ok?
    ensures BlankTo(src, p, ValueKind(src, p).next) && Solid(src, ValueKind(src, p).next)
  {
    hide Space, BlankTo, Solid;
    SpaceIff(src, p);
    OnlyEmpty(Space(src, p));
  }

  /** An opening bracket that is not too deep, and the rest of the container read without the blanks behind it. */
  lemma {:induction false} Entered(src: Input, q: nat, d: nat)
    requires q < |src.units| && Valid(src) && Begin(src, q, d).out.Ok?
    ensures d > 1 && SkipItems(src, Begin(src, q, d).out.next, d - 1, true) == SkipItems(src, q + 1, d - 1, true)
    ensures SkipMembers(src, Begin(src, q, d).out.next, d - 1, true) == SkipMembers(src, q + 1, d - 1, true)
  {
    hide Space, SkipItems, SkipMembers, Valid;
    OnlyEmpty(Space(src, q + 1));
    SameStart(src, q + 1, Begin(src, q, d).out.next, d - 1);
  }

  lemma {:induction false} SkippedBare(src: Input, p: nat, d: nat) returns (t: Doc)
    requires p <= |src.units| && Valid(src) && Skip(src, p, d).out.Ok?
    ensures ValueKind(src, p).Ok? && Bare(src, ValueKind(src, p).next, t, Skip(src, p, d).out.next) && Fits(Nesting(t), d)
    decreases |src.units| - p, 1
  {
    hide Space, ValueKind, Begin, Leaf, Valid, SkipItems, SkipMembers, Elements, Members, ScalarAt;
    var kind := ValueKind(src, p);
    var q := kind.next;
    if kind.value.ArrayKind? {
      Entered(src, q, d);
      var ts := SkippedElements(src, q + 1, d - 1, true);
      t := List(ts);
    } else if kind.value.ObjectKind? {
      Entered(src, q, d);
      var ts := SkippedMembers(src, q + 1, d - 1, true);
      t := Dict(ts);
    } else {
      t := Scalar(Leaf(src, q, kind.value).value);
      ScalarIff(src, q, t.v, Skip(src, p, d).out.next);
    }
  }

  lemma {:induction false} SkippedWritten(src: Input, p: nat, d: nat) returns (t: Doc)
    requires p <= |src.units| && Valid(src) && Skip(src, p, d).out.Ok?
    ensures Written(src, p, t, Skip(src, p, d).out.next) && Fits(Nesting(t), d)
    decreases |src.units| - p, 2
  {
    hide ValueKind, BlankTo, Solid, Bare, Skip, Valid;
    t := SkippedBare(src, p, d);
    ValueStarts(src, p);
  }

  lemma {:induction false} SkippedElements(src: Input, p: nat, d: nat, first: bool) returns (ts: Docs)
    requires p <= |src.units| && Valid(src) && SkipItems(src, p, d, first).out.Ok?
    ensures Elements(src, p, ts, first, SkipItems(src, p, d, first).out.next) && Fits(NestingOf(ts), d)
    decreases |src.units| - p, 3
  {
    hide NextArray, Skip, Written, Onward, UnitAfter, Valid;
    var next := NextArray(src, p, d, first);
    NextArrayIs(src, p, d, first, next.out.next);
    if next.out.value {
      var r := next.out.next;
      var head := SkippedWritten(src, r, d);
      var m := Skip(src, r, d).out.next;
      var tail := SkippedElements(src, m, d, false);
      ts := Docs(head, tail);
      assert Onward(src, p, first, CLOSE_LIST, r) && Written(src, r, head, m);
    } else {
      ts := NoDocs;
    }
  }

  lemma {:induction false} SkippedMembers(src: Input, p: nat, d: nat, first: bool) returns (ms: Pairs)
    requires p <= |src.units| && Valid(src) && SkipMembers(src, p, d, first).out.Ok?
    ensures Members(src, p, ms, first, SkipMembers(src, p, d, first).out.next) && Fits(NestingIn(ms), d)
    decreases |src.units| - p, 3
  {
    hide NextKey, Skip, Written, KeyNext, UnitAfter, Valid;
    var key := NextKey(src, p, d, first);
    if key.out.value.Some? {
      var v := key.out.next;
      NextKeyIs(src, p, d, first, key.out.value.value, v);
      var value := SkippedWritten(src, v, d);
      var m := Skip(src, v, d).out.next;
      var rest := SkippedMembers(src, m, d, false);
      ms := Pair(key.out.value.value, value, rest);
      assert KeyNext(src, p, first, key.out.value.value, v) && Written(src, v, value, m);
    } else {
      NextKeyEnd(src, p, d, first, key.out.next);
      ms := NoPairs;
    }
  }

  /** A value is skipped, up to n, if and only if a value is written there whose nesting is within the depth. */
  lemma {:induction false} SkipIff(src: Input, p: nat, d: nat, n: nat)
    requires p <= |src.units| && Valid(src)
    ensures Skip(src, p, d).out == Ok(Empty, n) <==> exists t :: Written(src, p, t, n) && Fits(Nesting(t), d)
  {
    hide Skip, Written, Fits;
    if Skip(src, p, d).out == Ok(Empty, n) {
      var t := SkippedWritten(src, p, d);
    }
    forall t | Written(src, p, t, n) && Fits(Nesting(t), d)
      ensures Skip(src, p, d).out == Ok(Empty, n)
    {
      WrittenSkipped(src, p, t, n, d);
    }
  }
}
