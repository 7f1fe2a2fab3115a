// The serde token stream: the recogniser of src/serde/src/token.cpp:415-474, and the count of open
// compounds kept by the writing side (131-141, 175-197).

module TokenStream {
  import opened Options

  datatype Kind =
    | Null | Unit | Bool | I64 | U64 | F64 | String | Bytes
    | SomeStart | SomeEnd | SequenceStart | SequenceEnd | MapStart | MapEnd | EnumStart | EnumEnd

  predicate IsScalar(k: Kind) {
    k.Null? || k.Unit? || k.Bool? || k.I64? || k.U64? || k.F64? || k.String? || k.Bytes?
  }

  predicate IsEnd(k: Kind) {
    k.SomeEnd? || k.SequenceEnd? || k.MapEnd? || k.EnumEnd?
  }

  type Scalar = k: Kind | IsScalar(k) witness Null

  // ---------- the grammar ----------

  /** A serialised value. */
  datatype Tree =
    | Leaf(kind: Scalar)
    | Present(inner: Tree)
    | Sequence(items: List)
    | Map(pairs: Entries)
    | Variant(payload: Tree)

  datatype List = Nil | Cons(head: Tree, tail: List)
  datatype Entries = NoEntries | Entry(key: Tree, value: Tree, more: Entries)

  function Flatten(t: Tree): seq<Kind>
  {
    match t
    case Leaf(k) => [k]
    case Present(inner) => [SomeStart] + Flatten(inner) + [SomeEnd]
    case Sequence(items) => [SequenceStart] + FlattenItems(items) + [SequenceEnd]
    case Map(pairs) => [MapStart] + FlattenPairs(pairs) + [MapEnd]
    case Variant(payload) => [EnumStart, String] + Flatten(payload) + [EnumEnd]
  }

  function FlattenItems(items: List): seq<Kind> {
    match items
    case Nil => []
    case Cons(head, tail) => Flatten(head) + FlattenItems(tail)
  }

  function FlattenPairs(pairs: Entries): seq<Kind> {
    match pairs
    case NoEntries => []
    case Entry(key, value, more) => Flatten(key) + (Flatten(value) + FlattenPairs(more))
  }

  // ---------- the recogniser, as a function that also says what it saw ----------

  datatype Seen<T> = Seen(what: T, next: nat)

  predicate At(ts: seq<Kind>, p: nat, k: Kind) {
    p < |ts| && ts[p] == k
  }

  function Value(ts: seq<Kind>, p: nat): (r: Option<Seen<Tree>>)
    requires p <= |ts|
    ensures r.Some? ==> p < r.value.next <= |ts|
    decreases |ts| - p, 1
  {
    if p == |ts| then None
    else if IsScalar(ts[p]) then Some(Seen(Leaf(ts[p]), p + 1))
    else match ts[p]
      case SomeStart =>
        match Value(ts, p + 1) {
          case None => None
          case Some(v) =>
            if At(ts, v.next, SomeEnd) then
              Some(Seen(Present(v.what), v.next + 1))
            else None
        }
      case SequenceStart =>
        match Items(ts, p + 1) {
          case None => None
          case Some(v) =>
            if At(ts, v.next, SequenceEnd) then
              Some(Seen(Sequence(v.what), v.next + 1))
            else None
        }
      case MapStart =>
        match Pairs(ts, p + 1) {
          case None => None
          case Some(v) =>
            if At(ts, v.next, MapEnd) then
              Some(Seen(Map(v.what), v.next + 1))
            else None
        }
      case EnumStart =>
        if At(ts, p + 1, String) then
          match Value(ts, p + 2) {
            case None => None
            case Some(v) =>
              if At(ts, v.next, EnumEnd) then
                Some(Seen(Variant(v.what), v.next + 1))
              else None
          }
        else None
      case _ => None
  }

  function Items(ts: seq<Kind>, p: nat): (r: Option<Seen<List>>)
    requires p <= |ts|
    ensures r.Some? ==> p <= r.value.next <= |ts|
    decreases |ts| - p, 2
  {
    if p == |ts| || ts[p].SequenceEnd? then Some(Seen(Nil, p))
    else
      match Value(ts, p)
      case None => None
      case Some(v) =>
        match Items(ts, v.next)
        case None => None
        case Some(rest) =>
          Some(Seen(Cons(v.what, rest.what), rest.next))
  }

  function Pairs(ts: seq<Kind>, p: nat): (r: Option<Seen<Entries>>)
    requires p <= |ts|
    ensures r.Some? ==> p <= r.value.next <= |ts|
    decreases |ts| - p, 2
  {
    if p == |ts| || ts[p].MapEnd? then Some(Seen(NoEntries, p))
    else
      match Value(ts, p)
      case None => None
      case Some(k) =>
        match Value(ts, k.next)
        case None => None
        case Some(v) =>
          match Pairs(ts, v.next)
          case None => None
          case Some(rest) =>
            Some(Seen(Entry(k.what, v.what, rest.what), rest.next))
  }

  // ---------- where and how it fails ----------

  datatype ValueKind =
    | NullValue | UnitValue | Boolean | SignedInteger | UnsignedInteger | Float | Text | Binary
    | SequenceValue | MapValue | EnumValue

  /** `actual_kind` */
  function ActualKind(k: Kind): ValueKind {
    match k
    case Null => NullValue
    case Unit => UnitValue
    case Bool => Boolean
    case I64 => SignedInteger
    case U64 => UnsignedInteger
    case F64 => Float
    case String => Text
    case Bytes => Binary
    case SequenceStart | SequenceEnd => SequenceValue
    case MapStart | MapEnd => MapValue
    case SomeStart | SomeEnd | EnumStart | EnumEnd => EnumValue
  }

  datatype Fault = UnexpectedEnd | TypeMismatch(expected: ValueKind, actual: ValueKind) | UnexpectedCompoundEnd

  datatype Failure = Failure(fault: Fault, at: nat)

  /** `take` where the expected token is not. */
  function TakeFailure(ts: seq<Kind>, p: nat, wanted: ValueKind): Failure
    requires p <= |ts|
  {
    Failure(if p == |ts| then UnexpectedEnd else TypeMismatch(wanted, ActualKind(ts[p])), p)
  }

  function ValueFailure(ts: seq<Kind>, p: nat): (f: Failure)
    requires p <= |ts| && Value(ts, p).None?
    ensures p <= f.at <= |ts|
    decreases |ts| - p, 1
  {
    if p == |ts| then Failure(UnexpectedEnd, p)
    else match ts[p]
      case SomeStart =>
        if Value(ts, p + 1).None? then ValueFailure(ts, p + 1)
        else TakeFailure(ts, Value(ts, p + 1).value.next, EnumValue)
      case SequenceStart =>
        if Items(ts, p + 1).None? then ItemsFailure(ts, p + 1)
        else TakeFailure(ts, Items(ts, p + 1).value.next, SequenceValue)
      case MapStart =>
        if Pairs(ts, p + 1).None? then PairsFailure(ts, p + 1)
        else TakeFailure(ts, Pairs(ts, p + 1).value.next, MapValue)
      case EnumStart =>
        if !At(ts, p + 1, String) then TakeFailure(ts, p + 1, Text)
        else if Value(ts, p + 2).None? then ValueFailure(ts, p + 2)
        else TakeFailure(ts, Value(ts, p + 2).value.next, EnumValue)
      case _ => Failure(UnexpectedCompoundEnd, p)
  }

  function ItemsFailure(ts: seq<Kind>, p: nat): (f: Failure)
    requires p <= |ts| && Items(ts, p).None?
    ensures p <= f.at <= |ts|
    decreases |ts| - p, 2
  {
    match Value(ts, p)
    case None => ValueFailure(ts, p)
    case Some(v) => ItemsFailure(ts, v.next)
  }

  function PairsFailure(ts: seq<Kind>, p: nat): (f: Failure)
    requires p <= |ts| && Pairs(ts, p).None?
    ensures p <= f.at <= |ts|
    decreases |ts| - p, 2
  {
    match Value(ts, p)
    case None => ValueFailure(ts, p)
    case Some(k) =>
      match Value(ts, k.next)
      case None => ValueFailure(ts, k.next)
      case Some(v) => PairsFailure(ts, v.next)
  }

  // ---------- what is recognised is a value of the grammar ----------

  /** The tokens from p on are w, and then more. */
  predicate Has(ts: seq<Kind>, p: nat, w: seq<Kind>) {
    p + |w| <= |ts| && ts[p..p + |w|] == w
  }

  lemma {:induction false} HasJoin(ts: seq<Kind>, p: nat, u: seq<Kind>, v: seq<Kind>)
    requires Has(ts, p, u) && Has(ts, p + |u|, v)
    ensures Has(ts, p, u + v)
  {
    assert ts[p..p + |u + v|] == ts[p..p + |u|] + ts[p + |u|..p + |u| + |v|];
  }

  lemma {:induction false} HasSplit(ts: seq<Kind>, p: nat, u: seq<Kind>, v: seq<Kind>)
    requires Has(ts, p, u + v)
    ensures Has(ts, p, u) && Has(ts, p + |u|, v)
  {
    var w := u + v;
    assert ts[p..p + |u|] == ts[p..p + |w|][..|u|];
    assert ts[p + |u|..p + |w|] == ts[p..p + |w|][|u|..];
  }

  lemma {:induction false} HasOne(ts: seq<Kind>, p: nat, k: Kind)
    ensures Has(ts, p, [k]) <==> At(ts, p, k)
  {
    if p < |ts| { assert ts[p..p + 1] == [ts[p]]; }
  }

  lemma {:induction false} HasHead(ts: seq<Kind>, p: nat, w: seq<Kind>)
    requires Has(ts, p, w) && w != []
    ensures p < |ts| && ts[p] == w[0]
  {
    assert ts[p..p + |w|][0] == ts[p];
  }

  /** A compound: an opening token, a body, a closing token. */
  lemma {:induction false} Bracketed(ts: seq<Kind>, p: nat, open: Kind, body: seq<Kind>, close: Kind)
    ensures Has(ts, p, [open] + body + [close]) <==> At(ts, p, open) && Has(ts, p + 1, body) && At(ts, p + 1 + |body|, close)
  {
    hide Has, At;
    HasOne(ts, p, open);
    HasOne(ts, p + 1 + |body|, close);
    if Has(ts, p, [open] + body + [close]) {
      HasSplit(ts, p, [open] + body, [close]);
      HasSplit(ts, p, [open], body);
    }
    if At(ts, p, open) && Has(ts, p + 1, body) && At(ts, p + 1 + |body|, close) {
      HasJoin(ts, p, [open], body);
      HasJoin(ts, p, [open] + body, [close]);
    }
  }

  lemma {:induction false} VariantBracketed(ts: seq<Kind>, p: nat, body: seq<Kind>)
    ensures Has(ts, p, [EnumStart, String] + body + [EnumEnd]) <==>
              At(ts, p, EnumStart) && At(ts, p + 1, String) && Has(ts, p + 2, body) && At(ts, p + 2 + |body|, EnumEnd)
  {
    Bracketed(ts, p, EnumStart, [String] + body, EnumEnd);
    assert [EnumStart] + ([String] + body) + [EnumEnd] == [EnumStart, String] + body + [EnumEnd];
    HasOne(ts, p + 1, String);
    if Has(ts, p + 1, [String] + body) { HasSplit(ts, p + 1, [String], body); }
    if At(ts, p + 1, String) && Has(ts, p + 2, body) { HasJoin(ts, p + 1, [String], body); }
  }

  lemma {:induction false} ValueSound(ts: seq<Kind>, p: nat)
    requires p <= |ts| && Value(ts, p).Some?
    ensures var v := Value(ts, p).value; Has(ts, p, Flatten(v.what)) && v.next == p + |Flatten(v.what)|
    decreases |ts| - p, 1
  {
    hide Has, Items, Pairs, FlattenItems, FlattenPairs;
    if IsScalar(ts[p]) {
      HasOne(ts, p, ts[p]);
    } else {
      CompoundSound(ts, p);
    }
  }

  lemma {:induction false} CompoundSound(ts: seq<Kind>, p: nat)
    requires p < |ts| && Value(ts, p).Some? && !IsScalar(ts[p])
    ensures var v := Value(ts, p).value; Has(ts, p, Flatten(v.what)) && v.next == p + |Flatten(v.what)|
    decreases |ts| - p, 0
  {
    hide Has, IsScalar, Items, Pairs, FlattenItems, FlattenPairs;
    match ts[p]
    case SomeStart =>
      ValueSound(ts, p + 1);
      Bracketed(ts, p, SomeStart, Flatten(Value(ts, p + 1).value.what), SomeEnd);
    case SequenceStart =>
      ItemsSound(ts, p + 1);
      Bracketed(ts, p, SequenceStart, FlattenItems(Items(ts, p + 1).value.what), SequenceEnd);
    case MapStart =>
      PairsSound(ts, p + 1);
      Bracketed(ts, p, MapStart, FlattenPairs(Pairs(ts, p + 1).value.what), MapEnd);
    case EnumStart =>
      ValueSound(ts, p + 2);
      VariantBracketed(ts, p, Flatten(Value(ts, p + 2).value.what));
    case _ =>
  }

  lemma {:induction false} ItemsSound(ts: seq<Kind>, p: nat)
    requires p <= |ts| && Items(ts, p).Some?
    ensures var v := Items(ts, p).value; Has(ts, p, FlattenItems(v.what)) && v.next == p + |FlattenItems(v.what)|
    decreases |ts| - p, 2
  {
    if p != |ts| && !ts[p].SequenceEnd? {
      hide Has, Flatten, Value;
      ValueSound(ts, p);
      var v := Value(ts, p).value;
      ItemsSound(ts, v.next);
      var rest := Items(ts, v.next).value.what;
      HasJoin(ts, p, Flatten(v.what), FlattenItems(rest));
    }
  }

  lemma {:induction false} PairsSound(ts: seq<Kind>, p: nat)
    requires p <= |ts| && Pairs(ts, p).Some?
    ensures var v := Pairs(ts, p).value; Has(ts, p, FlattenPairs(v.what)) && v.next == p + |FlattenPairs(v.what)|
    decreases |ts| - p, 2
  {
    if p != |ts| && !ts[p].MapEnd? {
      hide Has, Flatten, Value;
      ValueSound(ts, p);
      var k := Value(ts, p).value;
      ValueSound(ts, k.next);
      var v := Value(ts, k.next).value;
      PairsSound(ts, v.next);
      var rest := Pairs(ts, v.next).value.what;
      HasJoin(ts, k.next, Flatten(v.what), FlattenPairs(rest));
      HasJoin(ts, p, Flatten(k.what), Flatten(v.what) + FlattenPairs(rest));
    }
  }

  // ---------- whatever the grammar allows is recognised, as itself ----------

  lemma {:induction false} PresentStep(ts: seq<Kind>, p: nat, v: Seen<Tree>)
    requires At(ts, p, SomeStart) && Value(ts, p + 1) == Some(v) && At(ts, v.next, SomeEnd)
    ensures Value(ts, p) == Some(Seen(Present(v.what), v.next + 1))
  {
  }

  lemma {:induction false} SequenceStep(ts: seq<Kind>, p: nat, v: Seen<List>)
    requires At(ts, p, SequenceStart) && Items(ts, p + 1) == Some(v) && At(ts, v.next, SequenceEnd)
    ensures Value(ts, p) == Some(Seen(Sequence(v.what), v.next + 1))
  {
  }

  lemma {:induction false} MapStep(ts: seq<Kind>, p: nat, v: Seen<Entries>)
    requires At(ts, p, MapStart) && Pairs(ts, p + 1) == Some(v) && At(ts, v.next, MapEnd)
    ensures Value(ts, p) == Some(Seen(Map(v.what), v.next + 1))
  {
  }

  lemma {:induction false} VariantStep(ts: seq<Kind>, p: nat, v: Seen<Tree>)
    requires At(ts, p, EnumStart) && At(ts, p + 1, String) && Value(ts, p + 2) == Some(v) && At(ts, v.next, EnumEnd)
    ensures Value(ts, p) == Some(Seen(Variant(v.what), v.next + 1))
  {
  }

  lemma {:induction false} LeafStep(ts: seq<Kind>, p: nat, k: Scalar)
    requires At(ts, p, k)
    ensures Value(ts, p) == Some(Seen(Leaf(k), p + 1))
  {
  }

  lemma {:induction false} ItemsFlat(items: List)
    requires items.Cons?
    ensures FlattenItems(items) == Flatten(items.head) + FlattenItems(items.tail)
  {
  }

  lemma {:induction false} PairsFlat(pairs: Entries)
    requires pairs.Entry?
    ensures FlattenPairs(pairs) == Flatten(pairs.key) + (Flatten(pairs.value) + FlattenPairs(pairs.more))
  {
  }

  lemma {:induction false} NoItems()
    ensures FlattenItems(Nil) == [] && FlattenPairs(NoEntries) == []
  {
  }

  lemma {:induction false} ItemsEnd(ts: seq<Kind>, p: nat)
    requires At(ts, p, SequenceEnd)
    ensures p < |ts| && Items(ts, p) == Some(Seen(Nil, p))
  {
  }

  lemma {:induction false} PairsEnd(ts: seq<Kind>, p: nat)
    requires At(ts, p, MapEnd)
    ensures p < |ts| && Pairs(ts, p) == Some(Seen(NoEntries, p))
  {
  }

  lemma {:induction false} ItemsStep(ts: seq<Kind>, p: nat, v: Seen<Tree>, rest: Seen<List>)
    requires p < |ts| && !IsEnd(ts[p]) && Value(ts, p) == Some(v) && Items(ts, v.next) == Some(rest)
    ensures Items(ts, p) == Some(Seen(Cons(v.what, rest.what), rest.next))
  {
  }

  lemma {:induction false} PairsStep(ts: seq<Kind>, p: nat, k: Seen<Tree>, v: Seen<Tree>, rest: Seen<Entries>)
    requires p < |ts| && !IsEnd(ts[p]) && Value(ts, p) == Some(k) && Value(ts, k.next) == Some(v) && Pairs(ts, v.next) == Some(rest)
    ensures Pairs(ts, p) == Some(Seen(Entry(k.what, v.what, rest.what), rest.next))
  {
  }

  lemma {:induction false} ValueComplete(ts: seq<Kind>, p: nat, t: Tree)
    requires Has(ts, p, Flatten(t))
    ensures p < |ts| && Value(ts, p) == Some(Seen(t, p + |Flatten(t)|))
    decreases t, 1
  {
    match t
    case Leaf(k) => LeafComplete(ts, p, t);
    case Present(_) => PresentComplete(ts, p, t);
    case Sequence(_) => SequenceComplete(ts, p, t);
    case Map(_) => MapComplete(ts, p, t);
    case Variant(_) => VariantComplete(ts, p, t);
  }

  lemma {:induction false} LeafComplete(ts: seq<Kind>, p: nat, t: Tree)
    requires t.Leaf? && Has(ts, p, Flatten(t))
    ensures p < |ts| && Value(ts, p) == Some(Seen(t, p + |Flatten(t)|))
    decreases t, 0
  {
    hide Has, At, Value, Items, Pairs, FlattenItems, FlattenPairs;
    HasOne(ts, p, t.kind);
    FlattenHead(ts, p, t);
    LeafStep(ts, p, t.kind);
  }

  lemma {:induction false} PresentComplete(ts: seq<Kind>, p: nat, t: Tree)
    requires t.Present? && Has(ts, p, Flatten(t))
    ensures p < |ts| && Value(ts, p) == Some(Seen(t, p + |Flatten(t)|))
    decreases t, 0
  {
    hide Has, At, Value, Items, Pairs, FlattenItems, FlattenPairs;
    FlattenHead(ts, p, t);
    Bracketed(ts, p, SomeStart, Flatten(t.inner), SomeEnd);
    ValueComplete(ts, p + 1, t.inner);
    PresentStep(ts, p, Value(ts, p + 1).value);
  }

  lemma {:induction false} SequenceComplete(ts: seq<Kind>, p: nat, t: Tree)
    requires t.Sequence? && Has(ts, p, Flatten(t))
    ensures p < |ts| && Value(ts, p) == Some(Seen(t, p + |Flatten(t)|))
    decreases t, 0
  {
    hide Has, At, Value, Items, Pairs, FlattenItems, FlattenPairs;
    FlattenHead(ts, p, t);
    Bracketed(ts, p, SequenceStart, FlattenItems(t.items), SequenceEnd);
    ItemsComplete(ts, p + 1, t.items);
    SequenceStep(ts, p, Items(ts, p + 1).value);
  }

  lemma {:induction false} MapComplete(ts: seq<Kind>, p: nat, t: Tree)
    requires t.Map? && Has(ts, p, Flatten(t))
    ensures p < |ts| && Value(ts, p) == Some(Seen(t, p + |Flatten(t)|))
    decreases t, 0
  {
    hide Has, At, Value, Items, Pairs, FlattenItems, FlattenPairs;
    FlattenHead(ts, p, t);
    Bracketed(ts, p, MapStart, FlattenPairs(t.pairs), MapEnd);
    PairsComplete(ts, p + 1, t.pairs);
    MapStep(ts, p, Pairs(ts, p + 1).value);
  }

  lemma {:induction false} VariantComplete(ts: seq<Kind>, p: nat, t: Tree)
    requires t.Variant? && Has(ts, p, Flatten(t))
    ensures p < |ts| && Value(ts, p) == Some(Seen(t, p + |Flatten(t)|))
    decreases t, 0
  {
    hide Has, At, Value, Items, Pairs, FlattenItems, FlattenPairs;
    FlattenHead(ts, p, t);
    VariantBracketed(ts, p, Flatten(t.payload));
    ValueComplete(ts, p + 2, t.payload);
    VariantStep(ts, p, Value(ts, p + 2).value);
  }

  lemma {:induction false} ItemsComplete(ts: seq<Kind>, p: nat, items: List)
    requires Has(ts, p, FlattenItems(items)) && At(ts, p + |FlattenItems(items)|, SequenceEnd)
    ensures p <= |ts| && Items(ts, p) == Some(Seen(items, p + |FlattenItems(items)|))
    decreases items
  {
    hide Has, Flatten, Value, Items, At, FlattenItems;
    if items.Nil? {
      NoItems();
      ItemsEnd(ts, p);
    } else {
      ItemsFlat(items);
      HasSplit(ts, p, Flatten(items.head), FlattenItems(items.tail));
      FlattenHead(ts, p, items.head);
      ValueComplete(ts, p, items.head);
      ItemsComplete(ts, p + |Flatten(items.head)|, items.tail);
      ItemsStep(ts, p, Value(ts, p).value, Items(ts, p + |Flatten(items.head)|).value);
    }
  }

  /** A value does not begin with an end token. */
  lemma {:induction false} FlattenHead(ts: seq<Kind>, p: nat, t: Tree)
    requires Has(ts, p, Flatten(t))
    ensures p < |ts| && !IsEnd(ts[p]) && p + |Flatten(t)| <= |ts| && ts[p] == Flatten(t)[0]
  {
    assert Flatten(t) != [] && !IsEnd(Flatten(t)[0]) by {
      hide Has;
    }
    HasHead(ts, p, Flatten(t));
  }

  lemma {:induction false} PairsComplete(ts: seq<Kind>, p: nat, pairs: Entries)
    requires Has(ts, p, FlattenPairs(pairs)) && At(ts, p + |FlattenPairs(pairs)|, MapEnd)
    ensures p <= |ts| && Pairs(ts, p) == Some(Seen(pairs, p + |FlattenPairs(pairs)|))
    decreases pairs
  {
    hide Has, Flatten, Value, Pairs, At, FlattenPairs;
    if pairs.NoEntries? {
      NoItems();
      PairsEnd(ts, p);
    } else {
      PairsFlat(pairs);
      var k, v := Flatten(pairs.key), Flatten(pairs.value);
      HasSplit(ts, p, k, v + FlattenPairs(pairs.more));
      HasSplit(ts, p + |k|, v, FlattenPairs(pairs.more));
      FlattenHead(ts, p, pairs.key);
      ValueComplete(ts, p, pairs.key);
      ValueComplete(ts, p + |k|, pairs.value);
      PairsComplete(ts, p + |k| + |v|, pairs.more);
      PairsStep(ts, p, Value(ts, p).value, Value(ts, p + |k|).value, Pairs(ts, p + |k| + |v|).value);
    }
  }

  /** Recognised if and only if the tokens begin with a value; and then that value is the only one. */
  lemma {:induction false} RecognisedIff(ts: seq<Kind>, p: nat)
    requires p <= |ts|
    ensures Value(ts, p).Some? <==> exists t :: Has(ts, p, Flatten(t))
    ensures forall t :: Has(ts, p, Flatten(t)) ==> Value(ts, p) == Some(Seen(t, p + |Flatten(t)|))
  {
    forall t | Has(ts, p, Flatten(t))
      ensures Value(ts, p) == Some(Seen(t, p + |Flatten(t)|))
    {
      ValueComplete(ts, p, t);
    }
    if Value(ts, p).Some? {
      ValueSound(ts, p);
      assert Has(ts, p, Flatten(Value(ts, p).value.what));
    }
  }

  /** The grammar is prefix-free, and Flatten loses nothing. */
  lemma {:induction false} PrefixFree(t: Tree, u: Tree, rest: seq<Kind>)
    requires Flatten(t) + rest == Flatten(u)
    ensures t == u && rest == []
  {
    var ts := Flatten(u);
    assert ts[0..|ts|] == ts;
    assert ts[0..|Flatten(t)|] == Flatten(t);
    ValueComplete(ts, 0, t);
    ValueComplete(ts, 0, u);
  }

  // ---------- reading ----------

  class TokenDeserializer {
    const tokens: seq<Kind>
    var position: nat

    ghost predicate Valid()
      reads this
    {
      position <= |tokens|
    }

    constructor (tokens: seq<Kind>)
      ensures Valid() && position == 0 && this.tokens == tokens
    {
      this.tokens, this.position := tokens, 0;
    }

    /** Takes the expected token, or says what is there instead. */
    method Take(expected: Kind, wanted: ValueKind) returns (r: Option<Fault>)
      requires Valid()
      modifies this
      ensures Valid() && (r.None? <==> At(tokens, old(position), expected))
      ensures position == if r.None? then old(position) + 1 else old(position)
      ensures r.Some? ==> TakeFailure(tokens, position, wanted) == Failure(r.value, position)
    {
      if position >= |tokens| {
        return Some(UnexpectedEnd);
      }
      if tokens[position] != expected {
        return Some(TypeMismatch(wanted, ActualKind(tokens[position])));
      }
      position := position + 1;
      r := None;
    }

    /**
      * Succeeds exactly if a value begins here, and moves over it; never past the end. A failure leaves the
      * position where `ValueFailure` puts it.
      */
    method IgnoreValue() returns (r: Option<Fault>)
      requires Valid()
      modifies this
      ensures Valid() && old(position) <= position
      ensures r.None? <==> Value(tokens, old(position)).Some?
      ensures r.None? ==> position == Value(tokens, old(position)).value.next
      ensures r.Some? ==> ValueFailure(tokens, old(position)) == Failure(r.value, position)
      decreases |tokens| - position, 0
    {
      if position >= |tokens| {
        return Some(UnexpectedEnd);
      }
      var k := tokens[position];
      if IsScalar(k) {
        position := position + 1;
        return None;
      }
      match k {
        case SomeStart =>
          position := position + 1;
          r := IgnoreValue();
          if r.None? {
            r := Take(SomeEnd, EnumValue);
          }
        case SequenceStart =>
          position := position + 1;
          r := IgnoreItems();
          if r.None? {
            r := Take(SequenceEnd, SequenceValue);
          }
        case MapStart =>
          position := position + 1;
          r := IgnorePairs();
          if r.None? {
            r := Take(MapEnd, MapValue);
          }
        case EnumStart =>
          position := position + 1;
          r := Take(String, Text);
          if r.None? {
            r := IgnoreValue();
            if r.None? {
              r := Take(EnumEnd, EnumValue);
            }
          }
        case _ =>
          r := Some(UnexpectedCompoundEnd);
      }
    }

    /** The loop over the items of a sequence. */
    method IgnoreItems() returns (r: Option<Fault>)
      requires Valid()
      modifies this
      ensures Valid() && old(position) <= position
      ensures r.None? <==> Items(tokens, old(position)).Some?
      ensures r.None? ==> position == Items(tokens, old(position)).value.next
      ensures r.Some? ==> ItemsFailure(tokens, old(position)) == Failure(r.value, position)
      decreases |tokens| - position, 1
    {
      ghost var start := position;
      while position < |tokens| && tokens[position] != SequenceEnd
        invariant start <= position <= |tokens|
        invariant Items(tokens, start).Some? <==> Items(tokens, position).Some?
        invariant Items(tokens, start).Some? ==> Items(tokens, start).value.next == Items(tokens, position).value.next
        invariant Items(tokens, start).None? ==> ItemsFailure(tokens, start) == ItemsFailure(tokens, position)
        decreases |tokens| - position
      {
        r := IgnoreValue();
        if r.Some? {
          return;
        }
      }
      r := None;
    }

    /** The loop over the keys and values of a map. */
    method IgnorePairs() returns (r: Option<Fault>)
      requires Valid()
      modifies this
      ensures Valid() && old(position) <= position
      ensures r.None? <==> Pairs(tokens, old(position)).Some?
      ensures r.None? ==> position == Pairs(tokens, old(position)).value.next
      ensures r.Some? ==> PairsFailure(tokens, old(position)) == Failure(r.value, position)
      decreases |tokens| - position, 1
    {
      ghost var start := position;
      while position < |tokens| && tokens[position] != MapEnd
        invariant start <= position <= |tokens|
        invariant Pairs(tokens, start).Some? <==> Pairs(tokens, position).Some?
        invariant Pairs(tokens, start).Some? ==> Pairs(tokens, start).value.next == Pairs(tokens, position).value.next
        invariant Pairs(tokens, start).None? ==> PairsFailure(tokens, start) == PairsFailure(tokens, position)
        decreases |tokens| - position
      {
        r := IgnoreValue();
        if r.Some? {
          return;
        }
        r := IgnoreValue();
        if r.Some? {
          return;
        }
      }
      r := None;
    }
  }

  // ---------- writing ----------

  function Weight(k: Kind): int {
    if k.SequenceStart? || k.MapStart? then 1 else if k.SequenceEnd? || k.MapEnd? then -1 else 0
  }

  /** Sequence and map starts, less their ends. */
  function Balance(ts: seq<Kind>): int {
    if ts == [] then 0 else Balance(ts[..|ts| - 1]) + Weight(ts[|ts| - 1])
  }

  lemma {:induction false} BalancePush(ts: seq<Kind>, k: Kind)
    ensures Balance(ts + [k]) == Balance(ts) + Weight(k)
  {
    assert (ts + [k])[..|ts|] == ts;
  }

  lemma {:induction false} BalanceSum(u: seq<Kind>, v: seq<Kind>)
    ensures Balance(u + v) == Balance(u) + Balance(v)
    decreases |v|
  {
    if v == [] {
      assert u + v == u;
    } else {
      var w := v[..|v| - 1];
      assert u + v == (u + w) + [v[|v| - 1]];
      assert v == w + [v[|v| - 1]];
      BalancePush(u + w, v[|v| - 1]);
      BalanceSum(u, w);
    }
  }

  lemma {:induction false} BalanceOne(k: Kind)
    ensures Balance([k]) == Weight(k)
  {
    BalancePush([], k);
    assert [] + [k] == [k];
  }

  /** A whole value opens as many compounds as it closes. */
  lemma {:induction false} FlattenBalanced(t: Tree)
    ensures Balance(Flatten(t)) == 0
  {
    hide Balance;
    match t
    case Leaf(k) =>
      BalanceOne(k);
    case Present(inner) =>
      FlattenBalanced(inner);
      BalanceBracketed(SomeStart, Flatten(inner), SomeEnd);
    case Sequence(items) =>
      ItemsBalanced(items);
      BalanceBracketed(SequenceStart, FlattenItems(items), SequenceEnd);
    case Map(pairs) =>
      PairsBalanced(pairs);
      BalanceBracketed(MapStart, FlattenPairs(pairs), MapEnd);
    case Variant(payload) =>
      FlattenBalanced(payload);
      BalanceBracketed(EnumStart, [String] + Flatten(payload), EnumEnd);
      BalanceSum([String], Flatten(payload));
      BalanceOne(String);
      assert [EnumStart] + ([String] + Flatten(payload)) + [EnumEnd] == Flatten(t);
  }

  lemma {:induction false} BalanceBracketed(open: Kind, body: seq<Kind>, close: Kind)
    ensures Balance([open] + body + [close]) == Weight(open) + Balance(body) + Weight(close)
  {
    BalanceSum([open], body);
    BalanceOne(open);
    BalancePush([open] + body, close);
  }

  lemma {:induction false} ItemsBalanced(items: List)
    ensures Balance(FlattenItems(items)) == 0
  {
    if items.Cons? {
      FlattenBalanced(items.head);
      ItemsBalanced(items.tail);
      BalanceSum(Flatten(items.head), FlattenItems(items.tail));
    }
  }

  lemma {:induction false} PairsBalanced(pairs: Entries)
    ensures Balance(FlattenPairs(pairs)) == 0
  {
    if pairs.Entry? {
      hide Balance;
      FlattenBalanced(pairs.key);
      FlattenBalanced(pairs.value);
      PairsBalanced(pairs.more);
      BalanceSum(Flatten(pairs.value), FlattenPairs(pairs.more));
      BalanceSum(Flatten(pairs.key), Flatten(pairs.value) + FlattenPairs(pairs.more));
    }
  }

  /** A TokenSequence or TokenMap that has been handed out. */
  datatype Compound = Compound(isMap: bool, pending: bool, ended: bool)

  function OpenCount(cs: seq<Compound>): nat {
    if cs == [] then 0 else OpenCount(cs[..|cs| - 1]) + (if cs[|cs| - 1].ended then 0 else 1)
  }

  lemma {:induction false} OpenCountSet(cs: seq<Compound>, i: nat, c: Compound)
    requires i < |cs|
    ensures OpenCount(cs[i := c]) == OpenCount(cs) + (if cs[i].ended then 1 else 0) - (if c.ended then 1 else 0)
    decreases |cs|
  {
    var n := |cs| - 1;
    if i < n {
      OpenCountSet(cs[..n], i, c);
      assert cs[i := c][..n] == cs[..n][i := c];
    } else {
      assert cs[i := c][..n] == cs[..n];
    }
  }

  lemma {:induction false} OpenCountPush(cs: seq<Compound>, c: Compound)
    ensures OpenCount(cs + [c]) == OpenCount(cs) + (if c.ended then 0 else 1)
  {
    assert (cs + [c])[..|cs|] == cs;
  }

  lemma {:induction false} OpenCountZero(cs: seq<Compound>)
    ensures OpenCount(cs) == 0 <==> forall i :: 0 <= i < |cs| ==> cs[i].ended
    decreases |cs|
  {
    if cs != [] {
      var n := |cs| - 1;
      OpenCountZero(cs[..n]);
      assert forall i :: 0 <= i < n ==> cs[..n][i] == cs[i];
    }
  }

  /** A TokenSerializer with the compounds begun from it, which share its token list and counter. */
  class TokenSerializer {
    var tokens: seq<Kind>
    var openCompounds: nat
    var compounds: seq<Compound>

    /** The counter is the number of compounds begun and not ended, and of starts without an end. */
    ghost predicate Valid()
      reads this
    {
      openCompounds == OpenCount(compounds) && openCompounds == Balance(tokens)
    }

    constructor ()
      ensures Valid() && tokens == [] && compounds == []
    {
      tokens, openCompounds, compounds := [], 0, [];
    }

    /** `is_complete`: every compound begun has been ended. */
    method IsComplete() returns (r: bool)
      requires Valid()
      ensures r <==> forall i :: 0 <= i < |compounds| ==> compounds[i].ended
      ensures r <==> Balance(tokens) == 0
    {
      OpenCountZero(compounds);
      r := openCompounds == 0;
    }

    /** A whole value, written by a serializer of its own over the same list and counter. */
    method Serialize(t: Tree)
      requires Valid()
      modifies this`tokens
      ensures Valid() && tokens == old(tokens) + Flatten(t)
    {
      FlattenBalanced(t);
      BalanceSum(tokens, Flatten(t));
      tokens := tokens + Flatten(t);
    }

    method Begin(isMap: bool) returns (id: nat)
      requires Valid()
      modifies this
      ensures Valid() && id == |old(compounds)| && compounds == old(compounds) + [Compound(isMap, false, false)]
      ensures tokens == old(tokens) + [if isMap then MapStart else SequenceStart]
    {
      hide Balance, OpenCount;
      var start := if isMap then MapStart else SequenceStart;
      BalancePush(tokens, start);
      OpenCountPush(compounds, Compound(isMap, false, false));
      tokens := tokens + [start];
      openCompounds := openCompounds + 1;
      id := |compounds|;
      compounds := compounds + [Compound(isMap, false, false)];
    }

    /** `TokenSequence::element`, `TokenMap::key` and `TokenMap::value`. */
    method Part(id: nat, t: Tree, isKey: bool) returns (ok: bool)
      requires Valid() && id < |compounds|
      modifies this
      ensures Valid() && ok == old(!compounds[id].ended && (compounds[id].isMap ==> compounds[id].pending != isKey))
      ensures !ok ==> tokens == old(tokens) && compounds == old(compounds)
      ensures ok ==> tokens == old(tokens) + Flatten(t)
      ensures ok ==> compounds == old(compounds)[id := old(compounds[id]).(pending := old(compounds[id]).isMap && isKey)]
    {
      hide Balance, OpenCount;
      var c := compounds[id];
      if c.ended || (c.isMap && c.pending == isKey) {
        return false;
      }
      Serialize(t);
      var c' := c.(pending := c.isMap && isKey);
      OpenCountSet(compounds, id, c');
      compounds := compounds[id := c'];
      ok := true;
    }

    /** `TokenSequence::end` and `TokenMap::end`: the counter is above zero when it is taken down. */
    method End(id: nat) returns (ok: bool)
      requires Valid() && id < |compounds|
      modifies this
      ensures Valid() && ok == old(!compounds[id].ended && !compounds[id].pending)
      ensures !ok ==> tokens == old(tokens) && compounds == old(compounds)
      ensures ok ==> tokens == old(tokens) + [if old(compounds[id]).isMap then MapEnd else SequenceEnd]
      ensures ok ==> compounds == old(compounds)[id := old(compounds[id]).(ended := true)]
    {
      hide Balance, OpenCount;
      var c := compounds[id];
      if c.ended || c.pending {
        return false;
      }
      var end := if c.isMap then MapEnd else SequenceEnd;
      OpenCountSet(compounds, id, c.(ended := true));
      compounds := compounds[id := c.(ended := true)];
      assert openCompounds > 0;
      openCompounds := openCompounds - 1;
      BalancePush(tokens, end);
      tokens := tokens + [end];
      ok := true;
    }
  }
}
