// What a JSON text means, by its derivation alone: arrays are their elements in order, objects keep the last of
// equal keys; and the proof that exactly this value is built (src/json/src/parser.cpp:13-84).

module JsonMeaning {
  import opened Options
  import opened JsonString
  import opened JsonGrammar
  import opened JsonTokens
  import opened JsonLiterals
  import opened JsonWalk
  import opened JsonLanguage

  // ---------- the value of a derivation ----------

  function ValueOfDoc(t: Doc): Value {
    match t
    case Scalar(v) => v
    case List(items) => Arr(ValuesOf(items))
    case Dict(members) => Obj(MapOf(members))
  }

  function ValuesOf(ts: Docs): seq<Value> {
    match ts
    case NoDocs => []
    case Docs(head, tail) => [ValueOfDoc(head)] + ValuesOf(tail)
  }

  /** Of members with equal keys the last one counts. */
  function MapOf(ms: Pairs): map<seq<int>, Value> {
    match ms
    case NoPairs => map[]
    case Pair(key, value, rest) => map[key := ValueOfDoc(value)] + MapOf(rest)
  }

  function Keys(ms: Pairs): set<seq<int>> {
    match ms
    case NoPairs => {}
    case Pair(key, _, rest) => {key} + Keys(rest)
  }

  /** No object has two members with the same key. */
  predicate Distinct(t: Doc) {
    match t
    case Scalar(_) => true
    case List(items) => DistinctAll(items)
    case Dict(members) => DistinctIn(members)
  }

  predicate DistinctAll(ts: Docs) {
    match ts
    case NoDocs => true
    case Docs(head, tail) => Distinct(head) && DistinctAll(tail)
  }

  predicate DistinctIn(ms: Pairs) {
    match ms
    case NoPairs => true
    case Pair(key, value, rest) => Distinct(value) && key !in Keys(rest) && DistinctIn(rest)
  }

  /** The value v is written from p to n, nested less deep than d, and without repeated keys if they are rejected. */
  ghost predicate Denotes(src: Input, p: nat, v: Value, n: nat, d: nat)
    requires Valid(src)
  {
    exists t :: Written(src, p, t, n) && ValueOfDoc(t) == v && Fits(Nesting(t), d) && (src.rejectDuplicateKeys ==> Distinct(t))
  }

  // ---------- members read so far ----------

  lemma {:induction false} MapOfKeys(ms: Pairs)
    ensures MapOf(ms).Keys == Keys(ms)
    decreases ms
  {
    hide ValueOfDoc;
    if ms.Pair? { MapOfKeys(ms.rest); }
  }

  // ---------- everything written is built ----------

  lemma {:induction false} ParseSame(src: Input, p: nat, q: nat, d: nat)
    requires p <= |src.units| && Valid(src) && Space(src, p) == Ok(Empty, q)
    ensures q <= |src.units| && ParseItems(src, p, d, true, []) == ParseItems(src, q, d, true, [])
    ensures ParseMembers(src, p, d, true, map[]) == ParseMembers(src, q, d, true, map[])
  {
    SpaceTwice(src, p, q);
    hide Space, Parse, Comma, Key;
    assert NextArray(src, p, d, true) == NextArray(src, q, d, true);
    assert NextKey(src, p, d, true) == NextKey(src, q, d, true);
  }

  lemma {:induction false} ParseInside(src: Input, p: nat, q: nat, d: nat)
    requires p <= |src.units| && Valid(src) && BlankTo(src, p, q) && Solid(src, q) && q < |src.units| && d > 1
    requires Space(src, q + 1).Ok? && Space(src, q + 1) == Ok(Empty, Space(src, q + 1).next)
    ensures src.units[q] == '[' as int ==> Parse(src, p, d) == ParseItems(src, q + 1, d - 1, true, [])
    ensures src.units[q] == '{' as int ==> Parse(src, p, d) == ParseMembers(src, q + 1, d - 1, true, map[])
  {
    hide Space, BlankTo, Solid, Valid, ParseItems, ParseMembers, ValueKind;
    StartKind(src, p, q);
    ParseSame(src, q + 1, Space(src, q + 1).next, d - 1);
  }

  lemma {:induction false} ParseLeaf(src: Input, p: nat, q: nat, v: Value, n: nat, d: nat)
    requires p <= |src.units| && Valid(src) && BlankTo(src, p, q) && Solid(src, q) && q < |src.units| && ScalarAt(src, q, v, n)
    ensures Parse(src, p, d) == Walk(Ok(v, n), d)
  {
    StartKind(src, p, q);
    ScalarIff(src, q, v, n);
    hide BlankTo, Solid, Valid, ParseItems, ParseMembers, ValueKind, Leaf, ScalarAt, KindOf, Begin;
  }

  /** A derivation whose keys may be repeated, or are not, is built as its value. */
  lemma {:induction false} WrittenParsed(src: Input, p: nat, t: Doc, n: nat, d: nat)
    requires p <= |src.units| && Valid(src) && Written(src, p, t, n) && Fits(Nesting(t), d) && (src.rejectDuplicateKeys ==> Distinct(t))
    ensures Parse(src, p, d) == Walk(Ok(ValueOfDoc(t), n), d)
    decreases t
  {
    hide Space, BlankTo, Solid, Elements, Members, Valid, ParseItems, ParseMembers, ScalarAt, Parse;
    var q: nat :| BlankTo(src, p, q) && Solid(src, q) && q < |src.units| && Bare(src, q, t, n);
    match t
    case Scalar(v) => ParseLeaf(src, p, q, v, n, d);
    case List(items) =>
      StartBlank(src, q + 1, items, NoPairs, n);
      ParseInside(src, p, q, d);
      ElementsParsed(src, q + 1, items, true, n, d - 1, []);
      assert [] + ValuesOf(items) == ValuesOf(items);
    case Dict(members) =>
      StartBlank(src, q + 1, NoDocs, members, n);
      ParseInside(src, p, q, d);
      MembersParsed(src, q + 1, members, true, n, d - 1, map[]);
      assert map[] + MapOf(members) == MapOf(members);
  }

  lemma {:induction false} ElementsParsed(src: Input, p: nat, ts: Docs, first: bool, n: nat, d: nat, values: seq<Value>)
    requires p <= |src.units| && Valid(src) && Elements(src, p, ts, first, n) && Fits(NestingOf(ts), d)
    requires src.rejectDuplicateKeys ==> DistinctAll(ts)
    ensures ParseItems(src, p, d, first, values) == Walk(Ok(Arr(values + ValuesOf(ts)), n), d + 1)
    decreases ts
  {
    hide NextArray, Parse, Written, Onward, UnitAfter, Valid, ValueOfDoc;
    match ts
    case NoDocs =>
      NextArrayIs(src, p, d, first, n);
      assert values + [] == values;
    case Docs(head, tail) =>
      var r: nat, m: nat :| Onward(src, p, first, CLOSE_LIST, r) && Written(src, r, head, m) && Elements(src, m, tail, false, n);
      NextArrayIs(src, p, d, first, r);
      WrittenParsed(src, r, head, m, d);
      ElementsParsed(src, m, tail, false, n, d, values + [ValueOfDoc(head)]);
      assert values + [ValueOfDoc(head)] + ValuesOf(tail) == values + ([ValueOfDoc(head)] + ValuesOf(tail));
  }

  lemma {:induction false} MapPush(a: map<seq<int>, Value>, k: seq<int>, x: Value, b: map<seq<int>, Value>)
    ensures a[k := x] + b == a + (map[k := x] + b)
  {
  }

  lemma {:induction false} KeysApart(values: map<seq<int>, Value>, key: seq<int>, x: Value, rest: Pairs)
    requires values.Keys !! {key} + Keys(rest) && key !in Keys(rest)
    ensures values[key := x].Keys !! Keys(rest) && key !in values
  {
    assert key in {key} + Keys(rest);
  }

  lemma {:induction false} MembersParsed(src: Input, p: nat, ms: Pairs, first: bool, n: nat, d: nat, values: map<seq<int>, Value>)
    requires p <= |src.units| && Valid(src) && Members(src, p, ms, first, n) && Fits(NestingIn(ms), d)
    requires src.rejectDuplicateKeys ==> DistinctIn(ms) && values.Keys !! Keys(ms)
    ensures ParseMembers(src, p, d, first, values) == Walk(Ok(Obj(values + MapOf(ms)), n), d + 1)
    decreases ms
  {
    hide NextKey, Parse, Written, KeyNext, UnitAfter, Valid, ValueOfDoc;
    match ms
    case NoPairs =>
      NextKeyEnd(src, p, d, first, n);
      assert values + map[] == values;
    case Pair(key, value, rest) =>
      var v: nat, m: nat :| KeyNext(src, p, first, key, v) && Written(src, v, value, m) && Members(src, m, rest, false, n);
      NextKeyIs(src, p, d, first, key, v);
      WrittenParsed(src, v, value, m, d);
      var x := ValueOfDoc(value);
      MapPush(values, key, x, MapOf(rest));
      if src.rejectDuplicateKeys { KeysApart(values, key, x, rest); }
      hide MapOf, Keys;
      MembersParsed(src, m, rest, false, n, d, values[key := x]);
  }

  // ---------- everything built is written ----------

  lemma {:induction false} ParseEntered(src: Input, q: nat, d: nat)
    requires q < |src.units| && Valid(src) && Begin(src, q, d).out.Ok?
    ensures d > 1 && ParseItems(src, Begin(src, q, d).out.next, d - 1, true, []) == ParseItems(src, q + 1, d - 1, true, [])
    ensures ParseMembers(src, Begin(src, q, d).out.next, d - 1, true, map[]) == ParseMembers(src, q + 1, d - 1, true, map[])
  {
    hide Space, ParseItems, ParseMembers, Valid;
    OnlyEmpty(Space(src, q + 1));
    ParseSame(src, q + 1, Begin(src, q, d).out.next, d - 1);
  }

  lemma {:induction false} ParsedBare(src: Input, p: nat, d: nat) returns (t: Doc)
    requires p <= |src.units| && Valid(src) && Parse(src, p, d).out.Ok?
    ensures ValueKind(src, p).Ok? && Bare(src, ValueKind(src, p).next, t, Parse(src, p, d).out.next) && Fits(Nesting(t), d)
    ensures ValueOfDoc(t) == Parse(src, p, d).out.value && (src.rejectDuplicateKeys ==> Distinct(t))
    decreases |src.units| - p, 1
  {
    hide Space, ValueKind, Begin, Leaf, Valid, ParseItems, ParseMembers, Elements, Members, ScalarAt;
    var kind := ValueKind(src, p);
    var q := kind.next;
    if kind.value.ArrayKind? {
      ParseEntered(src, q, d);
      var ts := ParsedElements(src, q + 1, d - 1, true, []);
      t := List(ts);
      assert [] + ValuesOf(ts) == ValuesOf(ts);
    } else if kind.value.ObjectKind? {
      ParseEntered(src, q, d);
      var ms := ParsedMembers(src, q + 1, d - 1, true, map[]);
      t := Dict(ms);
      assert map[] + MapOf(ms) == MapOf(ms);
    } else {
      t := Scalar(Leaf(src, q, kind.value).value);
      ScalarIff(src, q, t.v, Parse(src, p, d).out.next);
    }
  }

  lemma {:induction false} ParsedWritten(src: Input, p: nat, d: nat) returns (t: Doc)
    requires p <= |src.units| && Valid(src) && Parse(src, p, d).out.Ok?
    ensures Written(src, p, t, Parse(src, p, d).out.next) && Fits(Nesting(t), d)
    ensures ValueOfDoc(t) == Parse(src, p, d).out.value && (src.rejectDuplicateKeys ==> Distinct(t))
    decreases |src.units| - p, 2
  {
    hide ValueKind, BlankTo, Solid, Bare, Parse, Valid;
    t := ParsedBare(src, p, d);
    ValueStarts(src, p);
  }

  lemma {:induction false} ParsedElements(src: Input, p: nat, d: nat, first: bool, values: seq<Value>) returns (ts: Docs)
    requires p <= |src.units| && Valid(src) && ParseItems(src, p, d, first, values).out.Ok?
    ensures Elements(src, p, ts, first, ParseItems(src, p, d, first, values).out.next) && Fits(NestingOf(ts), d)
    ensures ParseItems(src, p, d, first, values).out.value == Arr(values + ValuesOf(ts)) && (src.rejectDuplicateKeys ==> DistinctAll(ts))
    decreases |src.units| - p, 3
  {
    hide NextArray, Parse, Written, Onward, UnitAfter, Valid, ValueOfDoc;
    var next := NextArray(src, p, d, first);
    NextArrayIs(src, p, d, first, next.out.next);
    if next.out.value {
      var r := next.out.next;
      var head := ParsedWritten(src, r, d);
      var x, m := Parse(src, r, d).out.value, Parse(src, r, d).out.next;
      var tail := ParsedElements(src, m, d, false, values + [x]);
      ts := Docs(head, tail);
      assert Onward(src, p, first, CLOSE_LIST, r) && Written(src, r, head, m);
      assert values + [x] + ValuesOf(tail) == values + ([x] + ValuesOf(tail));
    } else {
      ts := NoDocs;
      assert values + [] == values;
    }
  }

  lemma {:induction false} ParsedMembers(src: Input, p: nat, d: nat, first: bool, values: map<seq<int>, Value>) returns (ms: Pairs)
    requires p <= |src.units| && Valid(src) && ParseMembers(src, p, d, first, values).out.Ok?
    ensures Members(src, p, ms, first, ParseMembers(src, p, d, first, values).out.next) && Fits(NestingIn(ms), d)
    ensures ParseMembers(src, p, d, first, values).out.value == Obj(values + MapOf(ms))
    ensures src.rejectDuplicateKeys ==> DistinctIn(ms) && values.Keys !! Keys(ms)
    decreases |src.units| - p, 3
  {
    hide NextKey, Parse, Written, KeyNext, UnitAfter, Valid, ValueOfDoc;
    var next := NextKey(src, p, d, first);
    if next.out.value.Some? {
      var key, v := next.out.value.value, next.out.next;
      NextKeyIs(src, p, d, first, key, v);
      var value := ParsedWritten(src, v, d);
      var x, m := Parse(src, v, d).out.value, Parse(src, v, d).out.next;
      var rest := ParsedMembers(src, m, d, false, values[key := x]);
      ms := Pair(key, value, rest);
      assert KeyNext(src, p, first, key, v) && Written(src, v, value, m);
      MapPush(values, key, x, MapOf(rest));
      hide MapOf;
    } else {
      NextKeyEnd(src, p, d, first, next.out.next);
      ms := NoPairs;
      assert values + map[] == values;
    }
  }

  /** A value is built, up to n, if and only if the text denotes it. */
  lemma {:induction false} ParseIff(src: Input, p: nat, d: nat, v: Value, n: nat)
    requires p <= |src.units| && Valid(src)
    ensures Parse(src, p, d).out == Ok(v, n) <==> Denotes(src, p, v, n, d)
  {
    hide Parse, Written, Fits, ValueOfDoc, Distinct;
    if Parse(src, p, d).out == Ok(v, n) {
      var t := ParsedWritten(src, p, d);
    }
    forall t | Written(src, p, t, n) && ValueOfDoc(t) == v && Fits(Nesting(t), d) && (src.rejectDuplicateKeys ==> Distinct(t))
      ensures Parse(src, p, d).out == Ok(v, n)
    {
      WrittenParsed(src, p, t, n, d);
    }
  }

  /** The whole text is a document: a value, and blanks to the end. */
  ghost predicate IsDocument(src: Input, v: Value, d: nat)
    requires Valid(src)
  {
    exists n: nat :: Denotes(src, 0, v, n, d) && BlankTo(src, n, |src.units|)
  }

  /** `from_str` gives v exactly for the documents that denote v. */
  lemma {:induction false} DocumentIff(src: Input, d: nat, v: Value)
    requires Valid(src)
    ensures Document(src, d) == Ok(v, |src.units|) <==> IsDocument(src, v, d)
    ensures Document(src, d).Ok? ==> Document(src, d).next == |src.units|
  {
    hide Parse, Space, Denotes, BlankTo;
    EndSolid(src);
    forall n: nat | Denotes(src, 0, v, n, d)
      ensures Parse(src, 0, d).out == Ok(v, n) && n <= |src.units|
      ensures BlankTo(src, n, |src.units|) ==> Space(src, n) == Ok(Empty, |src.units|)
    {
      ParseIff(src, 0, d, v, n);
      SpaceIff(src, n);
    }
    var r := Parse(src, 0, d).out;
    if r.Ok? {
      ParseIff(src, 0, d, r.value, r.next);
      SpaceIff(src, r.next);
      if Space(src, r.next).Ok? { OnlyEmpty(Space(src, r.next)); }
    }
  }

  lemma {:induction false} EndSolid(src: Input)
    ensures Solid(src, |src.units|)
  {
  }

  // ---------- repeated keys ----------

  lemma {:induction false} HexCode(u: seq<nat>, p: nat, left: nat, value: nat)
    requires p <= |u|
    ensures Hex(u, p, left, value).Err? ==> Hex(u, p, left, value).code != DuplicateKey
    decreases left
  {
    hide HexDigit;
    if left > 0 && p < |u| && HexDigit(u[p]).Some? { HexCode(u, p + 1, left - 1, value * 16 + HexDigit(u[p]).value); }
  }

  lemma {:induction false} EscapeCode(u: seq<nat>, p: nat)
    requires p <= |u|
    ensures UnicodeEscape(u, p).Err? ==> UnicodeEscape(u, p).code != DuplicateKey
  {
    hide Hex;
    HexCode(u, p, 4, 0);
    if p + 6 <= |u| { HexCode(u, p + 6, 4, 0); }
  }

  lemma {:induction false} String8Code(b: seq<nat>, p: nat, out: seq<int>)
    requires p <= |b|
    ensures String8(b, p, out).Err? ==> String8(b, p, out).code != DuplicateKey
    decreases |b| - p
  {
    var q := ChunkEnd(b, p);
    if q + 2 <= |b| { EscapeCode(b, q + 2); }
    hide UnicodeEscape, Escape, TextOf, ChunkEnd;
    var t := Turn8(b, p, out);
    if t.More? { String8Code(b, t.at, t.out); }
  }

  lemma {:induction false} Units16Code(u: seq<nat>, p: nat, out: seq<nat>)
    requires p <= |u|
    ensures Units16(u, p, out).Err? ==> Units16(u, p, out).code != DuplicateKey
    decreases |u| - p
  {
    var q := ChunkEnd(u, p);
    if q + 2 <= |u| { HexCode(u, q + 2, 4, 0); }
    hide Hex, Escape, ChunkEnd;
    var t := Turn16(u, p, out);
    if t.More? { Units16Code(u, t.at, t.out); }
  }

  lemma {:induction false} StringCode(src: Input, p: nat)
    requires p < |src.units| && Valid(src)
    ensures String(src, p).Err? ==> String(src, p).code != DuplicateKey
  {
    if src.utf16 { Units16Code(src.units, p + 1, []); } else { String8Code(src.units, p + 1, []); }
    hide Units16, String8;
  }

  lemma {:induction false} SpaceCode(src: Input, p: nat)
    requires p <= |src.units|
    ensures Space(src, p).Err? ==> Space(src, p).code != DuplicateKey
    decreases |src.units| - p
  {
    if p < |src.units| {
      if IsSpace(src.units[p]) {
        SpaceCode(src, p + 1);
      } else if src.allowComments && src.units[p] == SLASH {
        if At(src, p + 1) == SLASH {
          SpaceCode(src, LineEnd(src, p + 2));
        } else if At(src, p + 1) == STAR && BlockEnd(src, p + 2).Some? {
          SpaceCode(src, BlockEnd(src, p + 2).value);
        }
      }
    }
  }

  lemma {:induction false} IdentCode(src: Input, p: nat, word: seq<char>, i: nat)
    requires p <= |src.units| && i <= |word|
    ensures Ident(src, p, word, i).Err? ==> Ident(src, p, word, i).code != DuplicateKey
    decreases |word| - i
  {
    if i < |word| && p < |src.units| && src.units[p] == word[i] as int { IdentCode(src, p + 1, word, i + 1); }
  }

  lemma {:induction false} NumberCode(src: Input, p: nat)
    requires p < |src.units|
    ensures Number(src, p).Err? ==> Number(src, p).code != DuplicateKey
  {
  }

  lemma {:induction false} LeafCode(src: Input, q: nat, kind: Kind)
    requires q < |src.units| && Valid(src) && !kind.ArrayKind? && !kind.ObjectKind?
    ensures Leaf(src, q, kind).Err? ==> Leaf(src, q, kind).code != DuplicateKey
  {
    IdentCode(src, q, "null", 0);
    IdentCode(src, q, "true", 0);
    IdentCode(src, q, "false", 0);
    NumberCode(src, q);
    if kind.StringKind? { StringCode(src, q); }
    hide Ident, Number, String;
  }

  lemma {:induction false} CommaCode(src: Input, q: nat, first: bool, close: nat, expected: ErrorCode)
    requires q < |src.units| && expected != DuplicateKey
    ensures Comma(src, q, first, close, expected).Err? ==> Comma(src, q, first, close, expected).code != DuplicateKey
  {
    hide Space;
    SpaceCode(src, q + 1);
  }

  lemma {:induction false} KeyCode(src: Input, q: nat)
    requires q < |src.units| && Valid(src)
    ensures Key(src, q).Err? ==> Key(src, q).code != DuplicateKey
  {
    hide Space, String;
    if src.units[q] == QUOTE {
      StringCode(src, q);
      if String(src, q).Ok? {
        var r := String(src, q).next;
        SpaceCode(src, r);
        if Space(src, r).Ok? && Space(src, r).next < |src.units| { SpaceCode(src, Space(src, r).next + 1); }
      }
    }
  }

  lemma {:induction false} NextCode(src: Input, p: nat, d: nat, first: bool)
    requires p <= |src.units| && Valid(src)
    ensures NextArray(src, p, d, first).out.Err? ==> NextArray(src, p, d, first).out.code != DuplicateKey
    ensures NextKey(src, p, d, first).out.Err? ==> NextKey(src, p, d, first).out.code != DuplicateKey
    ensures ValueKind(src, p).Err? ==> ValueKind(src, p).code != DuplicateKey
  {
    hide Space, Comma, Key;
    SpaceCode(src, p);
    var s := Space(src, p);
    if s.Ok? && s.next < |src.units| {
      CommaCode(src, s.next, first, ']' as int, ExpectedListCommaOrEnd);
      CommaCode(src, s.next, first, '}' as int, ExpectedObjectCommaOrEnd);
      var c := Comma(src, s.next, first, '}' as int, ExpectedObjectCommaOrEnd);
      if c.Ok? { KeyCode(src, c.next); }
    }
  }

  /** The members ms are written from p to r, and there may be more. */
  ghost predicate Front(src: Input, p: nat, ms: Pairs, first: bool, r: nat)
    requires Valid(src)
    decreases ms
  {
    match ms
    case NoPairs => r == p
    case Pair(key, value, rest) =>
      exists v: nat, m: nat :: KeyNext(src, p, first, key, v) && Written(src, v, value, m) && Front(src, m, rest, false, r)
  }

  /** The elements ts are written from p to r, and there may be more. */
  ghost predicate FrontItems(src: Input, p: nat, ts: Docs, first: bool, r: nat)
    requires Valid(src)
    decreases ts
  {
    match ts
    case NoDocs => r == p
    case Docs(head, tail) =>
      exists v: nat, m: nat :: Onward(src, p, first, CLOSE_LIST, v) && Written(src, v, head, m) && FrontItems(src, m, tail, false, r)
  }

  /** From a value to one inside it: behind some elements of an array, or some members of an object. */
  datatype Way = Here | InList(items: Docs, deeper: Way) | InDict(members: Pairs, key: seq<int>, deeper: Way)

  /** The way leads from the value at p to the one that begins at q. */
  ghost predicate Leads(src: Input, p: nat, way: Way, q: nat)
    requires Valid(src)
    decreases way
  {
    exists o: nat :: BlankTo(src, p, o) && Solid(src, o) && o < |src.units| && LeadsFrom(src, o, way, q)
  }

  ghost predicate LeadsFrom(src: Input, o: nat, way: Way, q: nat)
    requires Valid(src) && o < |src.units|
    decreases way, 0
  {
    match way
    case Here => q == o
    case InList(items, deeper) =>
      src.units[o] == '[' as int
      && exists r: nat, v: nat :: FrontItems(src, o + 1, items, true, r) && Onward(src, r, items.NoDocs?, CLOSE_LIST, v) && Leads(src, v, deeper, q)
    case InDict(members, key, deeper) =>
      src.units[o] == '{' as int
      && exists r: nat, v: nat :: Front(src, o + 1, members, true, r) && KeyNext(src, r, members.NoPairs?, key, v) && Leads(src, v, deeper, q)
  }

  /** Some object in the value at p has two members with the same key, whatever comes behind them. */
  ghost predicate Repeats(src: Input, p: nat)
    requires Valid(src)
  {
    exists way, q: nat, ms, r: nat :: RepeatAt(src, p, way, q, ms, r)
  }

  ghost predicate RepeatAt(src: Input, p: nat, way: Way, q: nat, ms: Pairs, r: nat)
    requires Valid(src)
  {
    Leads(src, p, way, q) && q < |src.units| && src.units[q] == '{' as int && Front(src, q + 1, ms, true, r) && Twice(ms)
  }

  /** Two of the members have the same key. */
  predicate Twice(ms: Pairs) {
    match ms
    case NoPairs => false
    case Pair(key, _, rest) => key in Keys(rest) || Twice(rest)
  }

  // ---------- one more member, one more element ----------

  function Push(ms: Pairs, key: seq<int>, value: Doc): Pairs {
    match ms
    case NoPairs => Pair(key, value, NoPairs)
    case Pair(k, v, rest) => Pair(k, v, Push(rest, key, value))
  }

  function PushItem(ts: Docs, t: Doc): Docs {
    match ts
    case NoDocs => Docs(t, NoDocs)
    case Docs(head, tail) => Docs(head, PushItem(tail, t))
  }

  lemma {:induction false} PushTwice(ms: Pairs, key: seq<int>, value: Doc)
    ensures Keys(Push(ms, key, value)) == Keys(ms) + {key}
    ensures key in Keys(ms) ==> Twice(Push(ms, key, value))
    decreases ms
  {
    if ms.Pair? { PushTwice(ms.rest, key, value); }
  }

  lemma {:induction false} FrontPush(src: Input, p: nat, ms: Pairs, first: bool, r: nat, key: seq<int>, v: nat, value: Doc, m: nat)
    requires Valid(src) && Front(src, p, ms, first, r) && KeyNext(src, r, first && ms.NoPairs?, key, v) && Written(src, v, value, m)
    ensures Front(src, p, Push(ms, key, value), first, m)
    decreases ms
  {
    hide KeyNext, Written, Valid;
    match ms
    case NoPairs =>
      assert Front(src, m, NoPairs, false, m);
    case Pair(k, x, rest) =>
      var w: nat, o: nat :| KeyNext(src, p, first, k, w) && Written(src, w, x, o) && Front(src, o, rest, false, r);
      FrontPush(src, o, rest, false, r, key, v, value, m);
  }

  lemma {:induction false} FrontItemsPush(src: Input, p: nat, ts: Docs, first: bool, r: nat, v: nat, t: Doc, m: nat)
    requires Valid(src) && FrontItems(src, p, ts, first, r) && Onward(src, r, first && ts.NoDocs?, CLOSE_LIST, v) && Written(src, v, t, m)
    ensures FrontItems(src, p, PushItem(ts, t), first, m)
    decreases ts
  {
    hide Onward, Written, Valid;
    match ts
    case NoDocs =>
      assert FrontItems(src, m, NoDocs, false, m);
    case Docs(head, tail) =>
      var w: nat, o: nat :| Onward(src, p, first, CLOSE_LIST, w) && Written(src, w, head, o) && FrontItems(src, o, tail, false, r);
      FrontItemsPush(src, o, tail, false, r, v, t, m);
  }

  // ---------- the error is only given for repeated keys ----------

  lemma {:induction false} DeeperList(src: Input, p: nat, o: nat, items: Docs, r: nat, v: nat)
    requires Valid(src) && BlankTo(src, p, o) && Solid(src, o) && o < |src.units| && src.units[o] == '[' as int
    requires FrontItems(src, o + 1, items, true, r) && Onward(src, r, items.NoDocs?, CLOSE_LIST, v) && Repeats(src, v)
    ensures Repeats(src, p)
  {
    hide BlankTo, Solid, FrontItems, Onward, Front, Twice, Valid;
    var way, q: nat, ms, end: nat :| RepeatAt(src, v, way, q, ms, end);
    hide Leads;
    assert LeadsFrom(src, o, InList(items, way), q);
    LeadsHere(src, p, o, InList(items, way), q);
    assert RepeatAt(src, p, InList(items, way), q, ms, end);
  }

  lemma {:induction false} DeeperDict(src: Input, p: nat, o: nat, members: Pairs, r: nat, key: seq<int>, v: nat)
    requires Valid(src) && BlankTo(src, p, o) && Solid(src, o) && o < |src.units| && src.units[o] == '{' as int
    requires Front(src, o + 1, members, true, r) && KeyNext(src, r, members.NoPairs?, key, v) && Repeats(src, v)
    ensures Repeats(src, p)
  {
    hide BlankTo, Solid, FrontItems, KeyNext, Front, Twice, Valid;
    var way, q: nat, ms, end: nat :| RepeatAt(src, v, way, q, ms, end);
    hide Leads;
    assert LeadsFrom(src, o, InDict(members, key, way), q);
    LeadsHere(src, p, o, InDict(members, key, way), q);
    assert RepeatAt(src, p, InDict(members, key, way), q, ms, end);
  }

  lemma {:induction false} LeadsHere(src: Input, p: nat, o: nat, way: Way, q: nat)
    requires Valid(src) && BlankTo(src, p, o) && Solid(src, o) && o < |src.units| && LeadsFrom(src, o, way, q)
    ensures Leads(src, p, way, q)
  {
    hide BlankTo, Solid, LeadsFrom;
  }

  /** `DuplicateKey` is reported only if keys must not be repeated, and two members of one object have the same. */
  lemma {:induction false} DuplicateOnly(src: Input, p: nat, d: nat)
    requires p <= |src.units| && Valid(src) && Parse(src, p, d).out.Err? && Parse(src, p, d).out.code == DuplicateKey
    ensures src.rejectDuplicateKeys && Repeats(src, p)
    decreases |src.units| - p, 1
  {
    hide Space, ValueKind, Leaf, Valid, ParseItems, ParseMembers, Repeats, BlankTo, Solid, NextArray, NextKey, Begin, Front, FrontItems;
    NextCode(src, p, d, true);
    var kind := ValueKind(src, p);
    if kind.Ok? {
      var o := kind.next;
      ValueStarts(src, p);
      if kind.value.ArrayKind? || kind.value.ObjectKind? {
        BeginCode(src, o, d);
        ParseEntered(src, o, d);
        NothingYet(src, o + 1);
        if kind.value.ArrayKind? {
          ItemsOnly(src, p, o, NoDocs, o + 1, d - 1, []);
        } else {
          MembersOnly(src, p, o, NoPairs, o + 1, d - 1, map[]);
        }
      } else {
        LeafCode(src, o, kind.value);
      }
    }
  }

  lemma {:induction false} BeginCode(src: Input, q: nat, d: nat)
    requires q < |src.units|
    ensures Begin(src, q, d).out.Err? ==> Begin(src, q, d).out.code != DuplicateKey
  {
    hide Space;
    SpaceCode(src, q + 1);
  }

  lemma {:induction false} NothingYet(src: Input, p: nat)
    requires Valid(src)
    ensures FrontItems(src, p, NoDocs, true, p) && Front(src, p, NoPairs, true, p)
  {
  }

  lemma {:induction false} ItemsOnly(src: Input, p: nat, o: nat, items: Docs, r: nat, d: nat, values: seq<Value>)
    requires Valid(src) && BlankTo(src, p, o) && Solid(src, o) && o < |src.units| && src.units[o] == '[' as int
    requires p <= o < r <= |src.units| && FrontItems(src, o + 1, items, true, r)
    requires ParseItems(src, r, d, items.NoDocs?, values).out.Err? && ParseItems(src, r, d, items.NoDocs?, values).out.code == DuplicateKey
    ensures src.rejectDuplicateKeys && Repeats(src, p)
    decreases |src.units| - r, 2
  {
    hide NextArray, Parse, Written, Onward, Valid, BlankTo, Solid, Repeats, FrontItems;
    var first := items.NoDocs?;
    NextCode(src, r, d, first);
    var next := NextArray(src, r, d, first);
    var v := next.out.next;
    NextArrayIs(src, r, d, first, v);
    if Parse(src, v, d).out.Err? {
      DuplicateOnly(src, v, d);
      DeeperList(src, p, o, items, r, v);
    } else {
      var t := ParsedWritten(src, v, d);
      var m := Parse(src, v, d).out.next;
      FrontItemsPush(src, o + 1, items, true, r, v, t, m);
      ItemsOnly(src, p, o, PushItem(items, t), m, d, values + [Parse(src, v, d).out.value]);
    }
  }

  lemma {:induction false} MembersOnly(src: Input, p: nat, o: nat, members: Pairs, r: nat, d: nat, values: map<seq<int>, Value>)
    requires Valid(src) && BlankTo(src, p, o) && Solid(src, o) && o < |src.units| && src.units[o] == '{' as int
    requires p <= o < r <= |src.units| && Front(src, o + 1, members, true, r) && values.Keys == Keys(members)
    requires ParseMembers(src, r, d, members.NoPairs?, values).out.Err? && ParseMembers(src, r, d, members.NoPairs?, values).out.code == DuplicateKey
    ensures src.rejectDuplicateKeys && Repeats(src, p)
    decreases |src.units| - r, 2
  {
    hide NextKey, Parse, Written, KeyNext, Valid, BlankTo, Solid, Repeats, Front, Keys;
    var first := members.NoPairs?;
    NextCode(src, r, d, first);
    var next := NextKey(src, r, d, first);
    var key, v := next.out.value.value, next.out.next;
    NextKeyIs(src, r, d, first, key, v);
    if Parse(src, v, d).out.Err? {
      DuplicateOnly(src, v, d);
      DeeperDict(src, p, o, members, r, key, v);
    } else {
      var t := ParsedWritten(src, v, d);
      var x, m := Parse(src, v, d).out.value, Parse(src, v, d).out.next;
      FrontPush(src, o + 1, members, true, r, key, v, t, m);
      PushTwice(members, key, t);
      if src.rejectDuplicateKeys && key in values {
        RepeatHere(src, p, o, Push(members, key, t), m);
      } else {
        MembersOnly(src, p, o, Push(members, key, t), m, d, values[key := x]);
      }
    }
  }

  lemma {:induction false} RepeatHere(src: Input, p: nat, o: nat, ms: Pairs, r: nat)
    requires Valid(src) && BlankTo(src, p, o) && Solid(src, o) && o < |src.units| && src.units[o] == '{' as int
    requires Front(src, o + 1, ms, true, r) && Twice(ms)
    ensures Repeats(src, p)
  {
    hide BlankTo, Solid, Front, Twice, Valid;
    LeadsHere(src, p, o, Here, o);
    hide Leads;
    assert RepeatAt(src, p, Here, o, ms, r);
  }

  // ---------- a text has one derivation ----------

  lemma {:induction false} OneStart(src: Input, p: nat, q: nat, r: nat)
    requires p <= |src.units| && BlankTo(src, p, q) && Solid(src, q) && BlankTo(src, p, r) && Solid(src, r)
    ensures q == r
  {
    hide BlankTo, Solid, Space;
    SpaceIff(src, p);
  }

  lemma {:induction false} ScalarKind(src: Input, q: nat, v: Value, n: nat)
    requires q < |src.units| && Valid(src) && ScalarAt(src, q, v, n)
    ensures src.units[q] != '[' as int && src.units[q] != '{' as int && n <= |src.units|
    ensures forall w, m: nat :: ScalarAt(src, q, w, m) ==> w == v && m == n
  {
    hide ScalarAt, Leaf, Valid;
    ScalarIff(src, q, v, n);
    forall w, m: nat | ScalarAt(src, q, w, m)
      ensures w == v && m == n
    {
      ScalarIff(src, q, w, m);
    }
  }

  /** The derivation of a text is determined, and so is its end. */
  lemma {:induction false} Unique(src: Input, p: nat, t: Doc, n: nat, u: Doc, m: nat)
    requires p <= |src.units| && Valid(src) && Written(src, p, t, n) && Written(src, p, u, m)
    ensures t == u && n == m && n <= |src.units|
    decreases t
  {
    hide BlankTo, Solid, Elements, Members, ScalarAt, Valid;
    var q: nat :| BlankTo(src, p, q) && Solid(src, q) && q < |src.units| && Bare(src, q, t, n);
    var r: nat :| BlankTo(src, p, r) && Solid(src, r) && r < |src.units| && Bare(src, r, u, m);
    OneStart(src, p, q, r);
    if t.Scalar? { ScalarKind(src, q, t.v, n); }
    if u.Scalar? { ScalarKind(src, q, u.v, m); }
    match t
    case Scalar(_) =>
    case List(items) => UniqueItems(src, q + 1, items, true, n, u.items, m);
    case Dict(members) => UniqueMembers(src, q + 1, members, true, n, u.members, m);
  }

  lemma {:induction false} UniqueItems(src: Input, p: nat, ts: Docs, first: bool, n: nat, us: Docs, m: nat)
    requires p <= |src.units| && Valid(src) && Elements(src, p, ts, first, n) && Elements(src, p, us, first, m)
    ensures ts == us && n == m && n <= |src.units|
    decreases ts
  {
    hide NextArray, Written, Onward, Valid, UnitAfter;
    if ts.NoDocs? { NextArrayIs(src, p, 0, first, n); }
    if us.NoDocs? { NextArrayIs(src, p, 0, first, m); }
    if ts.Docs? {
      var r: nat, o: nat :| Onward(src, p, first, CLOSE_LIST, r) && Written(src, r, ts.head, o) && Elements(src, o, ts.tail, false, n);
      NextArrayIs(src, p, 0, first, r);
      if us.Docs? {
        var r': nat, o': nat :| Onward(src, p, first, CLOSE_LIST, r') && Written(src, r', us.head, o') && Elements(src, o', us.tail, false, m);
        NextArrayIs(src, p, 0, first, r');
        Unique(src, r, ts.head, o, us.head, o');
        UniqueItems(src, o, ts.tail, false, n, us.tail, m);
      }
    } else if us.Docs? {
      var r': nat, o': nat :| Onward(src, p, first, CLOSE_LIST, r') && Written(src, r', us.head, o') && Elements(src, o', us.tail, false, m);
      NextArrayIs(src, p, 0, first, r');
    }
  }

  lemma {:induction false} UniqueMembers(src: Input, p: nat, ts: Pairs, first: bool, n: nat, us: Pairs, m: nat)
    requires p <= |src.units| && Valid(src) && Members(src, p, ts, first, n) && Members(src, p, us, first, m)
    ensures ts == us && n == m && n <= |src.units|
    decreases ts
  {
    hide NextKey, Written, KeyNext, Valid, UnitAfter;
    if ts.NoPairs? { NextKeyEnd(src, p, 0, first, n); }
    if us.NoPairs? { NextKeyEnd(src, p, 0, first, m); }
    if ts.Pair? {
      var v: nat, o: nat :| KeyNext(src, p, first, ts.key, v) && Written(src, v, ts.value, o) && Members(src, o, ts.rest, false, n);
      NextKeyIs(src, p, 0, first, ts.key, v);
      if us.Pair? {
        var v': nat, o': nat :| KeyNext(src, p, first, us.key, v') && Written(src, v', us.value, o') && Members(src, o', us.rest, false, m);
        NextKeyIs(src, p, 0, first, us.key, v');
        Unique(src, v, ts.value, o, us.value, o');
        UniqueMembers(src, o, ts.rest, false, n, us.rest, m);
      }
    } else if us.Pair? {
      var v': nat, o': nat :| KeyNext(src, p, first, us.key, v') && Written(src, v', us.value, o') && Members(src, o', us.rest, false, m);
      NextKeyIs(src, p, 0, first, us.key, v');
    }
  }

  // ---------- a whole value with repeated keys gives it ----------

  /** A value that is written well but repeats a key is refused for that. */
  lemma {:induction false} WrittenRepeats(src: Input, p: nat, t: Doc, n: nat, d: nat)
    requires p <= |src.units| && Valid(src) && Written(src, p, t, n) && Fits(Nesting(t), d) && src.rejectDuplicateKeys && !Distinct(t)
    ensures Parse(src, p, d).out.Err? && Parse(src, p, d).out.code == DuplicateKey
  {
    hide Written, Fits, Distinct, Parse, Skip;
    WrittenSkipped(src, p, t, n, d);
    WalksAgree(src, p, d);
    if Parse(src, p, d).out.Ok? {
      var u := ParsedWritten(src, p, d);
      Unique(src, p, t, n, u, Parse(src, p, d).out.next);
    }
  }
}
