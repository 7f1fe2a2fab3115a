// The JSON reader's steps as functions of the input and a position (src/json/src/reader.cpp:52-110,
// 161-195, 303-356, 425-510; RFC 8259).

module JsonGrammar {
  import opened Options
  import U = Unicode
  import I = Integers
  import opened JsonString

  /** What decimal-to-float conversion says about a number: it is not modelled further. */
  datatype FloatOutcome = Finite(bits: nat) | Overflow | Malformed

  datatype Token = Token(negative: bool, integer: seq<nat>, fraction: seq<nat>, exponent: int, floating: bool)

  /** The input, in units of its encoding, and the options; the conversion to floats is a parameter. */
  datatype Input = Input(
    units: seq<nat>, utf16: bool, allowComments: bool, rejectIntegerOverflow: bool, rejectDuplicateKeys: bool,
    convert: Token -> FloatOutcome)

  predicate Valid(src: Input) {
    U.Words(src.units)
  }

  datatype Kind = NullKind | BooleanKind | NumberKind | StringKind | ArrayKind | ObjectKind

  datatype Empty = Empty

  function At(src: Input, p: nat): nat {
    if p < |src.units| then src.units[p] else 0
  }

  // ---------- white space and comments ----------

  predicate IsSpace(c: nat) {
    c == ' ' as int || c == '\n' as int || c == '\r' as int || c == '\t' as int
  }

  const SLASH: nat := '/' as int
  const STAR: nat := '*' as int
  const NEWLINE: nat := '\n' as int

  function LineEnd(src: Input, p: nat): (r: nat)
    requires p <= |src.units|
    ensures p <= r <= |src.units|
    decreases |src.units| - p
  {
    if p < |src.units| && src.units[p] != NEWLINE then LineEnd(src, p + 1) else p
  }

  /** The end of a block comment, if it has one. */
  function BlockEnd(src: Input, p: nat): (r: Option<nat>)
    requires p <= |src.units|
    ensures r.Some? ==> p < r.value <= |src.units|
    decreases |src.units| - p
  {
    if p == |src.units| then None
    else if src.units[p] == STAR && At(src, p + 1) == SLASH then Some(p + 2)
    else BlockEnd(src, p + 1)
  }

  /** `consume_whitespace` */
  function Space(src: Input, p: nat): (r: Outcome<Empty>)
    requires p <= |src.units|
    ensures p <= r.next <= |src.units|
    decreases |src.units| - p
  {
    if p == |src.units| then Ok(Empty, p)
    else if IsSpace(src.units[p]) then Space(src, p + 1)
    else if !src.allowComments || src.units[p] != SLASH then Ok(Empty, p)
    else if At(src, p + 1) == SLASH then Space(src, LineEnd(src, p + 2))
    else if At(src, p + 1) == STAR then
      match BlockEnd(src, p + 2)
      case None => Err(EofWhileParsingComment, |src.units|, |src.units|)
      case Some(q) => Space(src, q)
    else Ok(Empty, p)
  }

  // ---------- leaves ----------

  predicate IsDigit(c: nat) {
    '0' as int <= c <= '9' as int
  }

  /** The kind of value that a unit announces. */
  function KindOf(c: nat): Option<Kind> {
    if c == 'n' as int then Some(NullKind)
    else if c == 't' as int || c == 'f' as int then Some(BooleanKind)
    else if c == QUOTE then Some(StringKind)
    else if c == '[' as int then Some(ArrayKind)
    else if c == '{' as int then Some(ObjectKind)
    else if c == '-' as int || IsDigit(c) then Some(NumberKind)
    else None
  }

  /** `value_kind`: at the first unit of a value, or a failure. */
  function ValueKind(src: Input, p: nat): (r: Outcome<Kind>)
    requires p <= |src.units|
    ensures p <= r.next <= |src.units|
    ensures r.Ok? ==> r.next < |src.units| && KindOf(src.units[r.next]) == Some(r.value)
  {
    match Space(src, p)
    case Err(code, at, q) => Err(code, at, q)
    case Ok(_, q) =>
      if q == |src.units| then Err(EofWhileParsingValue, q, q)
      else
        match KindOf(src.units[q])
        case None => Err(ExpectedSomeValue, q, q)
        case Some(kind) => Ok(kind, q)
  }

  /** `consume_ident` from character i of the word on. */
  function Ident(src: Input, p: nat, word: seq<char>, i: nat): (r: Outcome<Empty>)
    requires p <= |src.units| && i <= |word|
    ensures p <= r.next <= |src.units| && (r.Ok? ==> r.next == p + (|word| - i))
    decreases |word| - i
  {
    if i == |word| then Ok(Empty, p)
    else if p == |src.units| then Err(EofWhileParsingValue, p, p)
    else if src.units[p] != word[i] as int then Err(ExpectedSomeIdent, p, p)
    else Ident(src, p + 1, word, i + 1)
  }

  function DigitsEnd(src: Input, p: nat): (r: nat)
    requires p <= |src.units|
    ensures p <= r <= |src.units| && (forall i :: p <= i < r ==> IsDigit(src.units[i]))
    decreases |src.units| - p
  {
    if p < |src.units| && IsDigit(src.units[p]) then DigitsEnd(src, p + 1) else p
  }

  /** Units that are digits, as digits. */
  lemma {:induction false} DigitUnits(s: seq<nat>)
    requires forall i :: 0 <= i < |s| ==> IsDigit(s[i])
    ensures (forall i :: 0 <= i < |s| ==> 0 <= s[i] < 256) && I.AllDigits(s, 10)
  {
  }

  /** The integer part of `scan_number`. */
  function IntegerEnd(src: Input, p: nat): (r: Outcome<Empty>)
    requires p <= |src.units|
    ensures p <= r.next <= |src.units|
    ensures r.Ok? ==> p < r.next && forall i :: p <= i < r.next ==> IsDigit(src.units[i])
  {
    if At(src, p) == '0' as int && p < |src.units| then
      if p + 1 < |src.units| && IsDigit(src.units[p + 1]) then Err(InvalidNumber, p + 1, p + 1) else Ok(Empty, p + 1)
    else if p < |src.units| && IsDigit(src.units[p]) then Ok(Empty, DigitsEnd(src, p))
    else Err(InvalidNumber, p, p)
  }

  /** The fraction, empty if there is none. */
  function FractionEnd(src: Input, p: nat): (r: Outcome<seq<nat>>)
    requires p <= |src.units|
    ensures p <= r.next <= |src.units|
  {
    if p == |src.units| || src.units[p] != '.' as int then Ok([], p)
    else if p + 1 == |src.units| then Err(EofWhileParsingValue, p + 1, p + 1)
    else
      var q := DigitsEnd(src, p + 1);
      if q == p + 1 then Err(InvalidNumber, q, q) else Ok(src.units[p + 1..q], q)
  }

  /** The exponent, with its sign; 0 if there is none. */
  function ExponentEnd(src: Input, p: nat): (r: Outcome<int>)
    requires p <= |src.units|
    ensures p <= r.next <= |src.units|
  {
    if p == |src.units| || (src.units[p] != 'e' as int && src.units[p] != 'E' as int) then Ok(0, p)
    else
      var negative := At(src, p + 1) == '-' as int && p + 1 < |src.units|;
      var signed := negative || (At(src, p + 1) == '+' as int && p + 1 < |src.units|);
      var q := if signed then p + 2 else p + 1;
      if q == |src.units| then Err(EofWhileParsingValue, q, q)
      else if !IsDigit(src.units[q]) then Err(InvalidNumber, q, q)
      else
        var n := DigitsEnd(src, q);
        DigitUnits(src.units[q..n]);
        var e: int := I.ExponentOf(src.units[q..n]);
        Ok(if negative then -e else e, n)
  }

  /** `scan_number` from the first unit of the number. */
  function Scan(src: Input, p: nat): (r: Outcome<Token>)
    requires p < |src.units|
    ensures p <= r.next <= |src.units|
    ensures r.Ok? ==> p < r.next && forall i :: 0 <= i < |r.value.integer| ==> IsDigit(r.value.integer[i])
  {
    var negative := src.units[p] == '-' as int;
    var b := if negative then p + 1 else p;
    if b == |src.units| then Err(EofWhileParsingValue, b, b)
    else
      match IntegerEnd(src, b)
      case Err(code, at, n) => Err(code, at, n)
      case Ok(_, i) =>
        match FractionEnd(src, i)
        case Err(code, at, n) => Err(code, at, n)
        case Ok(fraction, f) =>
          match ExponentEnd(src, f)
          case Err(code, at, n) => Err(code, at, n)
          case Ok(e, n) => Ok(Token(negative, src.units[b..i], fraction, e, n > i), n)
  }

  /** `parse_number` from the first unit of the number; a float stands for whatever the conversion gives. */
  function Number(src: Input, p: nat): (r: Outcome<I.Number>)
    requires p < |src.units|
    ensures p <= r.next <= |src.units| && (r.Ok? ==> p < r.next)
  {
    match Scan(src, p)
    case Err(code, at, n) => Err(code, at, n)
    case Ok(token, n) =>
      DigitUnits(token.integer);
      match I.NumberOf(I.NumberToken(token.negative, token.integer, token.floating), src.rejectIntegerOverflow)
      case OutOfRange => Err(NumberOutOfRange, n, n)
      case ToFloat =>
        (match src.convert(token)
         case Finite(bits) => Ok(I.Floating(bits), n)
         case Overflow => Err(NumberOutOfRange, n, n)
         case Malformed => Err(InvalidNumber, n, n))
      case Ok(exact) => Ok(exact, n)
  }

  /** `parse_string` from the opening quote. */
  function String(src: Input, p: nat): (r: Outcome<seq<int>>)
    requires p < |src.units| && Valid(src)
    ensures p < r.next <= |src.units|
  {
    if src.utf16 then String16(src.units, p + 1) else String8(src.units, p + 1, [])
  }
}
