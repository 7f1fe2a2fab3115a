// The two recursive walks over JSON input: building a value (src/json/src/parser.cpp:13-84) and skipping
// one (src/json/src/reader.cpp:425-556), as functions of position and remaining depth.

module JsonWalk {
  import opened Options
  import I = Integers
  import opened JsonString
  import opened JsonGrammar

  /** An outcome, and the remaining depth after it. */
  datatype Walk<T> = Walk(out: Outcome<T>, depth: nat)

  datatype Value =
    | Null
    | Bool(b: bool)
    | Num(n: I.Number)
    | Str(s: seq<int>)
    | Arr(items: seq<Value>)
    | Obj(members: map<seq<int>, Value>)

  // ---------- containers ----------

  /** `begin_array` and `begin_object` at the opening bracket. */
  function Begin(src: Input, q: nat, d: nat): (w: Walk<Empty>)
    requires q < |src.units|
    ensures q <= w.out.next <= |src.units|
    ensures w.out.Ok? ==> q < w.out.next && d > 1 && w.depth == d - 1
  {
    if d <= 1 then Walk(Err(RecursionLimitExceeded, q, q), d)
    else Walk(Space(src, q + 1), d - 1)
  }

  /** The comma before the next element, and what must not follow it. */
  function Comma(src: Input, q: nat, first: bool, close: nat, expected: ErrorCode): (r: Outcome<Empty>)
    requires q < |src.units|
    ensures q <= r.next <= |src.units| && (r.Ok? ==> r.next < |src.units|)
  {
    if first then Ok(Empty, q)
    else if src.units[q] != ',' as int then Err(expected, q, q)
    else
      match Space(src, q + 1)
      case Err(code, at, n) => Err(code, at, n)
      case Ok(_, r) =>
        if r == |src.units| then Err(EofWhileParsingValue, r, r)
        else if src.units[r] == close then Err(TrailingComma, r, r)
        else Ok(Empty, r)
  }

  /** `next_array` */
  function NextArray(src: Input, p: nat, d: nat, first: bool): (w: Walk<bool>)
    requires p <= |src.units|
    ensures p <= w.out.next <= |src.units|
    ensures w.out.Ok? ==> if w.out.value then w.depth == d else w.depth == d + 1 && p < w.out.next
  {
    match Space(src, p)
    case Err(code, at, n) => Walk(Err(code, at, n), d)
    case Ok(_, q) =>
      if q == |src.units| then Walk(Err(EofWhileParsingList, q, q), d)
      else if src.units[q] == ']' as int then Walk(Ok(false, q + 1), d + 1)
      else
        match Comma(src, q, first, ']' as int, ExpectedListCommaOrEnd)
        case Err(code, at, n) => Walk(Err(code, at, n), d)
        case Ok(_, r) => Walk(Ok(true, r), d)
  }

  /** A key from its opening quote to behind its colon. */
  function Key(src: Input, q: nat): (r: Outcome<seq<int>>)
    requires q < |src.units| && Valid(src)
    ensures q <= r.next <= |src.units| && (r.Ok? ==> q < r.next)
  {
    if src.units[q] != QUOTE then Err(KeyMustBeAString, q, q)
    else
      match String(src, q)
      case Err(code, at, n) => Err(code, at, n)
      case Ok(key, r) =>
        match Space(src, r)
        case Err(code, at, n) => Err(code, at, n)
        case Ok(_, c) =>
          if c == |src.units| then Err(EofWhileParsingObject, c, c)
          else if src.units[c] != ':' as int then Err(ExpectedColon, c, c)
          else
            match Space(src, c + 1)
            case Err(code, at, n) => Err(code, at, n)
            case Ok(_, n) => Ok(key, n)
  }

  /** `next_object_key` */
  function NextKey(src: Input, p: nat, d: nat, first: bool): (w: Walk<Option<seq<int>>>)
    requires p <= |src.units| && Valid(src)
    ensures p <= w.out.next <= |src.units|
    ensures w.out.Ok? ==> p < w.out.next && w.depth == if w.out.value.Some? then d else d + 1
  {
    match Space(src, p)
    case Err(code, at, n) => Walk(Err(code, at, n), d)
    case Ok(_, q) =>
      if q == |src.units| then Walk(Err(EofWhileParsingObject, q, q), d)
      else if src.units[q] == '}' as int then Walk(Ok(None, q + 1), d + 1)
      else
        match Comma(src, q, first, '}' as int, ExpectedObjectCommaOrEnd)
        case Err(code, at, n) => Walk(Err(code, at, n), d)
        case Ok(_, r) =>
          match Key(src, r)
          case Err(code, at, n) => Walk(Err(code, at, n), d)
          case Ok(key, n) => Walk(Ok(Some(key), n), d)
  }

  /** A value that is not a container, from its first unit. */
  function Leaf(src: Input, q: nat, kind: Kind): (r: Outcome<Value>)
    requires q < |src.units| && Valid(src) && !kind.ArrayKind? && !kind.ObjectKind?
    ensures q <= r.next <= |src.units| && (r.Ok? ==> q < r.next)
  {
    match kind
    case NullKind => (match Ident(src, q, "null", 0) case Ok(_, n) => Ok(Null, n) case Err(code, at, n) => Err(code, at, n))
    case BooleanKind =>
      var t := src.units[q] == 't' as int;
      (match Ident(src, q, if t then "true" else "false", 0)
       case Ok(_, n) => Ok(Bool(t), n)
       case Err(code, at, n) => Err(code, at, n))
    case NumberKind => (match Number(src, q) case Ok(x, n) => Ok(Num(x), n) case Err(code, at, n) => Err(code, at, n))
    case StringKind => (match String(src, q) case Ok(s, n) => Ok(Str(s), n) case Err(code, at, n) => Err(code, at, n))
  }

  function Dropped<T>(r: Outcome<T>): Outcome<Empty> {
    match r
    case Ok(_, n) => Ok(Empty, n)
    case Err(code, at, n) => Err(code, at, n)
  }

  // ---------- skipping ----------

  /** `skip_value`: on success the position has advanced and the depth is as before. */
  function Skip(src: Input, p: nat, d: nat): (w: Walk<Empty>)
    requires p <= |src.units| && Valid(src)
    ensures p <= w.out.next <= |src.units|
    ensures w.out.Ok? ==> p < w.out.next && w.depth == d
    decreases |src.units| - p, 1
  {
    match ValueKind(src, p)
    case Err(code, at, n) => Walk(Err(code, at, n), d)
    case Ok(kind, q) =>
      if kind.ArrayKind? || kind.ObjectKind? then
        var begun := Begin(src, q, d);
        if begun.out.Err? then begun
        else if kind.ArrayKind? then SkipItems(src, begun.out.next, begun.depth, true)
        else SkipMembers(src, begun.out.next, begun.depth, true)
      else Walk(Dropped(Leaf(src, q, kind)), d)
  }

  function SkipItems(src: Input, p: nat, d: nat, first: bool): (w: Walk<Empty>)
    requires p <= |src.units| && Valid(src)
    ensures p <= w.out.next <= |src.units|
    ensures w.out.Ok? ==> p < w.out.next && w.depth == d + 1
    decreases |src.units| - p, 2
  {
    var next := NextArray(src, p, d, first);
    if next.out.Err? || !next.out.value then Walk(Dropped(next.out), next.depth)
    else
      var item := Skip(src, next.out.next, next.depth);
      if item.out.Err? then item else SkipItems(src, item.out.next, item.depth, false)
  }

  function SkipMembers(src: Input, p: nat, d: nat, first: bool): (w: Walk<Empty>)
    requires p <= |src.units| && Valid(src)
    ensures p <= w.out.next <= |src.units|
    ensures w.out.Ok? ==> p < w.out.next && w.depth == d + 1
    decreases |src.units| - p, 2
  {
    var key := NextKey(src, p, d, first);
    if key.out.Err? || key.out.value.None? then Walk(Dropped(key.out), key.depth)
    else
      var item := Skip(src, key.out.next, key.depth);
      if item.out.Err? then item else SkipMembers(src, item.out.next, item.depth, false)
  }

  // ---------- building ----------

  function Failed<S, T>(w: Walk<S>): Walk<T>
    requires w.out.Err?
  {
    Walk(Err(w.out.code, w.out.at, w.out.next), w.depth)
  }

  /** `parse_value` */
  function Parse(src: Input, p: nat, d: nat): (w: Walk<Value>)
    requires p <= |src.units| && Valid(src)
    ensures p <= w.out.next <= |src.units|
    ensures w.out.Ok? ==> p < w.out.next && w.depth == d
    decreases |src.units| - p, 1
  {
    match ValueKind(src, p)
    case Err(code, at, n) => Walk(Err(code, at, n), d)
    case Ok(kind, q) =>
      if kind.ArrayKind? || kind.ObjectKind? then
        var begun := Begin(src, q, d);
        if begun.out.Err? then Failed(begun)
        else if kind.ArrayKind? then ParseItems(src, begun.out.next, begun.depth, true, [])
        else ParseMembers(src, begun.out.next, begun.depth, true, map[])
      else Walk(Leaf(src, q, kind), d)
  }

  function ParseItems(src: Input, p: nat, d: nat, first: bool, values: seq<Value>): (w: Walk<Value>)
    requires p <= |src.units| && Valid(src)
    ensures p <= w.out.next <= |src.units|
    ensures w.out.Ok? ==> p < w.out.next && w.depth == d + 1
    decreases |src.units| - p, 2
  {
    var next := NextArray(src, p, d, first);
    if next.out.Err? then Failed(next)
    else if !next.out.value then Walk(Ok(Arr(values), next.out.next), next.depth)
    else
      var item := Parse(src, next.out.next, next.depth);
      if item.out.Err? then item else ParseItems(src, item.out.next, item.depth, false, values + [item.out.value])
  }

  function ParseMembers(src: Input, p: nat, d: nat, first: bool, values: map<seq<int>, Value>): (w: Walk<Value>)
    requires p <= |src.units| && Valid(src)
    ensures p <= w.out.next <= |src.units|
    ensures w.out.Ok? ==> p < w.out.next && w.depth == d + 1
    decreases |src.units| - p, 2
  {
    var next := NextKey(src, p, d, first);
    if next.out.Err? then Failed(next)
    else
      match next.out.value
      case None => Walk(Ok(Obj(values), next.out.next), next.depth)
      case Some(key) =>
        var item := Parse(src, next.out.next, next.depth);
        if item.out.Err? then item
        else if src.rejectDuplicateKeys && key in values then
          Walk(Err(DuplicateKey, item.out.next, item.out.next), item.depth)
        else ParseMembers(src, item.out.next, item.depth, false, values[key := item.out.value])
  }

  /** `Parser::parse`: a value, and nothing behind it but blanks. */
  function Document(src: Input, d: nat): (r: Outcome<Value>)
    requires Valid(src)
  {
    match Parse(src, 0, d).out
    case Err(code, at, n) => Err(code, at, n)
    case Ok(v, n) =>
      match Space(src, n)
      case Err(code, at, m) => Err(code, at, m)
      case Ok(_, m) => if m == |src.units| then Ok(v, m) else Err(TrailingCharacters, m, m)
  }

  // ---------- the two walks agree ----------

  /** The same success or the same error, at the same position and depth; building may also object to a repeated key. */
  predicate Agree(src: Input, built: Walk<Value>, skipped: Walk<Empty>) {
    || (src.rejectDuplicateKeys && built.out.Err? && built.out.code == DuplicateKey)
    || (Dropped(built.out) == skipped.out && built.depth == skipped.depth)
  }

  lemma {:induction false} WalksAgree(src: Input, p: nat, d: nat)
    requires p <= |src.units| && Valid(src)
    ensures Agree(src, Parse(src, p, d), Skip(src, p, d))
    decreases |src.units| - p, 1
  {
    hide ValueKind, Begin, Leaf, Valid;
    var kind := ValueKind(src, p);
    if kind.Ok? && (kind.value.ArrayKind? || kind.value.ObjectKind?) {
      var begun := Begin(src, kind.next, d);
      if begun.out.Ok? {
        ItemsAgree(src, begun.out.next, begun.depth, true, []);
        MembersAgree(src, begun.out.next, begun.depth, true, map[]);
        hide ParseItems, SkipItems, ParseMembers, SkipMembers;
      }
    }
  }

  lemma {:induction false} ItemsAgree(src: Input, p: nat, d: nat, first: bool, values: seq<Value>)
    requires p <= |src.units| && Valid(src)
    ensures Agree(src, ParseItems(src, p, d, first, values), SkipItems(src, p, d, first))
    decreases |src.units| - p, 2
  {
    hide NextArray, Parse, Skip, Valid;
    var next := NextArray(src, p, d, first);
    if next.out.Ok? && next.out.value {
      WalksAgree(src, next.out.next, next.depth);
      var item := Parse(src, next.out.next, next.depth);
      if item.out.Ok? { ItemsAgree(src, item.out.next, item.depth, false, values + [item.out.value]); }
    }
  }

  lemma {:induction false} MembersAgree(src: Input, p: nat, d: nat, first: bool, values: map<seq<int>, Value>)
    requires p <= |src.units| && Valid(src)
    ensures Agree(src, ParseMembers(src, p, d, first, values), SkipMembers(src, p, d, first))
    decreases |src.units| - p, 2
  {
    hide NextKey, Parse, Skip, Valid;
    var next := NextKey(src, p, d, first);
    if next.out.Ok? && next.out.value.Some? {
      WalksAgree(src, next.out.next, next.depth);
      var item := Parse(src, next.out.next, next.depth);
      if item.out.Ok? && !(src.rejectDuplicateKeys && next.out.value.value in values) {
        MembersAgree(src, item.out.next, item.depth, false, values[next.out.value.value := item.out.value]);
      }
    }
  }

  /** With duplicate keys allowed, skipping a value and building it come to the same. */
  lemma {:induction false} SkipEqualsParse(src: Input, p: nat, d: nat)
    requires p <= |src.units| && Valid(src) && !src.rejectDuplicateKeys
    ensures Dropped(Parse(src, p, d).out) == Skip(src, p, d).out && Parse(src, p, d).depth == Skip(src, p, d).depth
  {
    WalksAgree(src, p, d);
    hide Parse, Skip;
  }

  // ---------- nesting ----------

  /** Containers are nested at most n deep. */
  ghost predicate Nested(v: Value, n: int)
    decreases v
  {
    match v
    case Arr(items) => n >= 1 && forall i :: 0 <= i < |items| ==> Nested(items[i], n - 1)
    case Obj(members) => n >= 1 && forall k :: k in members ==> Nested(members[k], n - 1)
    case _ => true
  }

  /** Containers are nested less deep than the limit. */
  lemma {:induction false} DepthHeld(src: Input, p: nat, d: nat)
    requires p <= |src.units| && Valid(src)
    ensures Parse(src, p, d).out.Ok? ==> Nested(Parse(src, p, d).out.value, d - 1)
    decreases |src.units| - p, 1
  {
    hide ValueKind, Begin, Valid, Leaf, ParseItems, ParseMembers, Nested;
    var kind := ValueKind(src, p);
    if kind.Ok? {
      if kind.value.ArrayKind? || kind.value.ObjectKind? {
        var begun := Begin(src, kind.next, d);
        if begun.out.Ok? {
          if kind.value.ArrayKind? {
            ItemsDepth(src, begun.out.next, begun.depth, true, []);
          } else {
            MembersDepth(src, begun.out.next, begun.depth, true, map[]);
          }
        }
      } else {
        LeafNested(src, kind.next, kind.value, d - 1);
      }
    }
  }

  lemma {:induction false} LeafNested(src: Input, q: nat, kind: Kind, n: int)
    requires q < |src.units| && Valid(src) && !kind.ArrayKind? && !kind.ObjectKind?
    ensures Leaf(src, q, kind).Ok? ==> Nested(Leaf(src, q, kind).value, n)
  {
  }

  lemma {:induction false} ItemsDepth(src: Input, p: nat, d: nat, first: bool, values: seq<Value>)
    requires p <= |src.units| && Valid(src) && d >= 1 && forall i :: 0 <= i < |values| ==> Nested(values[i], d - 1)
    ensures var w := ParseItems(src, p, d, first, values); w.out.Ok? ==> Nested(w.out.value, d)
    decreases |src.units| - p, 2
  {
    hide NextArray, Parse, Valid;
    var next := NextArray(src, p, d, first);
    if next.out.Ok? && next.out.value {
      DepthHeld(src, next.out.next, next.depth);
      var item := Parse(src, next.out.next, next.depth);
      if item.out.Ok? { ItemsDepth(src, item.out.next, item.depth, false, values + [item.out.value]); }
    }
  }

  lemma {:induction false} MembersDepth(src: Input, p: nat, d: nat, first: bool, values: map<seq<int>, Value>)
    requires p <= |src.units| && Valid(src) && d >= 1 && forall k :: k in values ==> Nested(values[k], d - 1)
    ensures var w := ParseMembers(src, p, d, first, values); w.out.Ok? ==> Nested(w.out.value, d)
    decreases |src.units| - p, 2
  {
    hide NextKey, Parse, Valid;
    var next := NextKey(src, p, d, first);
    if next.out.Ok? && next.out.value.Some? {
      DepthHeld(src, next.out.next, next.depth);
      var item := Parse(src, next.out.next, next.depth);
      if item.out.Ok? && !(src.rejectDuplicateKeys && next.out.value.value in values) {
        MembersDepth(src, item.out.next, item.depth, false, values[next.out.value.value := item.out.value]);
      }
    }
  }
}
