// JSON string literals over UTF-8 bytes and over UTF-16 units (src/json/src/reader.cpp:107-159, 197-299;
// section 7 of RFC 8259). The first joins surrogate escapes as it meets them, the second collects units
// and joins them at the end.

module JsonString {
  import opened Options
  import opened Unicode
  import I = Integers

  datatype ErrorCode =
    | EofWhileParsingString | InvalidEscape | LoneLeadingSurrogateInHexEscape | UnexpectedEndOfHexEscape
    | ControlCharacterWhileParsingString | InvalidUnicodeCodePoint
    | EofWhileParsingValue | EofWhileParsingList | EofWhileParsingObject | EofWhileParsingComment
    | ExpectedSomeValue | ExpectedSomeIdent | InvalidNumber | NumberOutOfRange | RecursionLimitExceeded
    | UnwrapFailed
    | ExpectedListCommaOrEnd | ExpectedObjectCommaOrEnd | TrailingComma | KeyMustBeAString | ExpectedColon | DuplicateKey
    | TrailingCharacters

  /** The result of reading, and where the cursor is afterwards; an error also has its own position. */
  datatype Outcome<T> = Ok(value: T, next: nat) | Err(code: ErrorCode, at: int, next: nat)

  const QUOTE: nat := 34
  const BACKSLASH: nat := 92
  const LETTER_U: nat := 117

  /** A unit that stands for itself. */
  predicate Plain(c: nat) {
    c != QUOTE && c != BACKSLASH && c >= 0x20
  }

  function ChunkEnd(u: seq<nat>, p: nat): (r: nat)
    requires p <= |u|
    ensures p <= r <= |u| && (r < |u| ==> !Plain(u[r]))
    decreases |u| - p
  {
    if p < |u| && Plain(u[p]) then ChunkEnd(u, p + 1) else p
  }

  function HexDigit(c: nat): Option<nat> {
    if c < 256 then I.DigitValue(c, 16) else None
  }

  /** `parse_hex_escape`, with `left` digits to go. */
  function Hex(u: seq<nat>, p: nat, left: nat, value: nat): (r: Outcome<nat>)
    requires p <= |u|
    ensures r.Ok? ==> r.next == p + left <= |u|
    ensures r.Err? ==> p <= r.next <= |u|
    decreases left
  {
    if left == 0 then Ok(value, p)
    else if p == |u| then Err(EofWhileParsingString, p, p)
    else
      match HexDigit(u[p])
      case None => Err(InvalidEscape, p, p)
      case Some(d) => Hex(u, p + 1, left - 1, value * 16 + d)
  }

  lemma {:induction false} Hex4Bound(u: seq<nat>, p: nat)
    requires p <= |u| && Hex(u, p, 4, 0).Ok?
    ensures Hex(u, p, 4, 0).value < 0x10000
  {
    var a := HexDigit(u[p]).value;
    assert Hex(u, p, 4, 0) == Hex(u, p + 1, 3, a);
    var b := HexDigit(u[p + 1]).value;
    assert Hex(u, p + 1, 3, a) == Hex(u, p + 2, 2, a * 16 + b);
    var c := HexDigit(u[p + 2]).value;
    assert Hex(u, p + 2, 2, a * 16 + b) == Hex(u, p + 3, 1, (a * 16 + b) * 16 + c);
    var d := HexDigit(u[p + 3]).value;
    assert Hex(u, p + 3, 1, (a * 16 + b) * 16 + c) == Ok(((a * 16 + b) * 16 + c) * 16 + d, p + 4);
  }

  /** The single-character escapes. */
  function Escape(c: nat): (r: Option<nat>)
    ensures r.Some? ==> r.value < 0x80
    ensures c >= 0x80 ==> r.None?
  {
    if c == '"' as int then Some('"' as int)
    else if c == '\\' as int then Some('\\' as int)
    else if c == '/' as int then Some('/' as int)
    else if c == 'b' as int then Some(8)
    else if c == 'f' as int then Some(12)
    else if c == 'n' as int then Some(10)
    else if c == 'r' as int then Some(13)
    else if c == 't' as int then Some(9)
    else None
  }

  /** `parse_unicode_escape` into a String: a scalar, or both halves of a surrogate pair. */
  function UnicodeEscape(u: seq<nat>, p: nat): (r: Outcome<nat>)
    requires p <= |u|
    ensures r.Ok? ==> p + 4 <= r.next <= |u|
    ensures r.Err? ==> p <= r.next <= |u|
  {
    match Hex(u, p, 4, 0)
    case Ok(first, q) =>
      if IsLow(first) then Err(LoneLeadingSurrogateInHexEscape, q - 1, q)
      else if !IsHigh(first) then Ok(first, q)
      else SecondHalf(u, q, first)
    case Err(code, at, n) => Err(code, at, n)
  }

  function SecondHalf(u: seq<nat>, q: nat, first: nat): (r: Outcome<nat>)
    requires q <= |u| && IsHigh(first)
    ensures r.Ok? ==> q <= r.next <= |u|
    ensures r.Err? ==> q <= r.next <= |u|
  {
    if q == |u| then Err(EofWhileParsingString, q, q)
    else if u[q] != BACKSLASH then Err(UnexpectedEndOfHexEscape, q, q)
    else if q + 1 == |u| then Err(EofWhileParsingString, q + 1, q + 1)
    else if u[q + 1] != LETTER_U then Err(UnexpectedEndOfHexEscape, q + 1, q + 1)
    else
      match Hex(u, q + 2, 4, 0)
      case Ok(second, n) =>
        if IsLow(second) then Ok(Pair(first, second), n) else Err(LoneLeadingSurrogateInHexEscape, n - 1, n)
      case Err(code, at, n) => Err(code, at, n)
  }

  /** `cursor_.text(span)` */
  function TextOf(b: seq<nat>, p: nat, q: nat): Option<Text>
    requires p <= q <= |b|
  {
    if Boundary(b, p) && Boundary(b, q) then Decode8(b[p..q]) else None
  }

  /** One turn of the loop of `read_string`: an end, or more output and a new position. */
  datatype Turn<T> = Done(outcome: Outcome<T>) | More(out: T, at: nat)

  /** What follows a chunk over UTF-8. */
  function After8(b: seq<nat>, q: nat, out: seq<int>): (t: Turn<seq<int>>)
    requires q <= |b|
    ensures t.Done? ==> q <= t.outcome.next <= |b| && (t.outcome.Ok? ==> q < t.outcome.next)
    ensures t.More? ==> q < t.at <= |b|
  {
    if q == |b| then Done(Err(EofWhileParsingString, q, q))
    else if b[q] == QUOTE then Done(Ok(out, q + 1))
    else if b[q] < 0x20 then Done(Err(ControlCharacterWhileParsingString, q, q + 1))
    else if q + 1 == |b| then Done(Err(EofWhileParsingString, q + 1, q + 1))
    else
      match Escape(b[q + 1])
      case Some(x) => More(out + [x], q + 2)
      case None =>
        if b[q + 1] != LETTER_U then Done(Err(InvalidEscape, q + 1, q + 2))
        else
          match UnicodeEscape(b, q + 2)
          case Ok(c, n) => More(out + [c], n)
          case Err(code, at, n) => Done(Err(code, at, n))
  }

  /** A chunk and an escape over UTF-8. */
  function Turn8(b: seq<nat>, p: nat, out: seq<int>): (t: Turn<seq<int>>)
    requires p <= |b|
    ensures t.Done? ==> p <= t.outcome.next <= |b| && (t.outcome.Ok? ==> p < t.outcome.next)
    ensures t.More? ==> p < t.at <= |b|
  {
    var q := ChunkEnd(b, p);
    match TextOf(b, p, q)
    case None => Done(Err(UnwrapFailed, p, q))
    case Some(raw) => After8(b, q, out + raw)
  }

  /** `read_string<String>` over UTF-8, after the opening quote. */
  function String8(b: seq<nat>, p: nat, out: seq<int>): (r: Outcome<seq<int>>)
    requires p <= |b|
    ensures p <= r.next <= |b| && (r.Ok? ==> p < r.next)
    decreases |b| - p
  {
    match Turn8(b, p, out)
    case Done(r) => r
    case More(o, n) => String8(b, n, o)
  }

  /** What follows a chunk over UTF-16. */
  function After16(u: seq<nat>, q: nat, out: seq<nat>): (t: Turn<seq<nat>>)
    requires q <= |u|
    ensures t.Done? ==> q <= t.outcome.next <= |u| && (t.outcome.Ok? ==> q < t.outcome.next)
    ensures t.More? ==> q < t.at <= |u|
  {
    if q == |u| then Done(Err(EofWhileParsingString, q, q))
    else if u[q] == QUOTE then Done(Ok(out, q + 1))
    else if u[q] < 0x20 then Done(Err(ControlCharacterWhileParsingString, q, q + 1))
    else if q + 1 == |u| then Done(Err(EofWhileParsingString, q + 1, q + 1))
    else
      match Escape(u[q + 1])
      case Some(x) => More(out + [x], q + 2)
      case None =>
        if u[q + 1] != LETTER_U then Done(Err(InvalidEscape, q + 1, q + 2))
        else
          match Hex(u, q + 2, 4, 0)
          case Ok(c, n) => More(out + [c], n)
          case Err(code, at, n) => Done(Err(code, at, n))
  }

  /** A chunk and an escape over UTF-16. */
  function Turn16(u: seq<nat>, p: nat, out: seq<nat>): (t: Turn<seq<nat>>)
    requires p <= |u|
    ensures t.Done? ==> p <= t.outcome.next <= |u| && (t.outcome.Ok? ==> p < t.outcome.next)
    ensures t.More? ==> p < t.at <= |u|
  {
    var q := ChunkEnd(u, p);
    After16(u, q, out + u[p..q])
  }

  /** `read_string<Vec<u16>>` over UTF-16, after the opening quote. */
  function Units16(u: seq<nat>, p: nat, out: seq<nat>): (r: Outcome<seq<nat>>)
    requires p <= |u|
    ensures p <= r.next <= |u| && (r.Ok? ==> p < r.next)
    decreases |u| - p
  {
    match Turn16(u, p, out)
    case Done(r) => r
    case More(o, n) => Units16(u, n, o)
  }

  lemma {:induction false} WordsJoin(a: seq<nat>, b: seq<nat>)
    requires Words(a) && Words(b)
    ensures Words(a + b)
  {
  }

  lemma {:induction false} WordsChunk(u: seq<nat>, p: nat, q: nat)
    requires Words(u) && p <= q <= |u|
    ensures Words(u[p..q])
  {
  }

  /** What a turn leaves is units again, and begins with what was there. */
  lemma {:induction false} Turn16Words(u: seq<nat>, p: nat, out: seq<nat>)
    requires p <= |u| && Words(u) && Words(out)
    ensures var t := Turn16(u, p, out);
            && (t.More? ==> Words(t.out) && out <= t.out)
            && (t.Done? && t.outcome.Ok? ==> Words(t.outcome.value) && out <= t.outcome.value)
  {
    var q := ChunkEnd(u, p);
    WordsChunk(u, p, q);
    WordsJoin(out, u[p..q]);
    hide ChunkEnd, Words, After16;
    After16Words(u, q, out + u[p..q]);
  }

  lemma {:induction false} After16Words(u: seq<nat>, q: nat, out: seq<nat>)
    requires q <= |u| && Words(out)
    ensures var t := After16(u, q, out);
            && (t.More? ==> Words(t.out) && out <= t.out)
            && (t.Done? && t.outcome.Ok? ==> Words(t.outcome.value) && out <= t.outcome.value)
  {
    hide Hex, Escape;
    if q + 2 <= |u| && Hex(u, q + 2, 4, 0).Ok? { Hex4Bound(u, q + 2); }
  }

  lemma {:induction false} Units16Words(u: seq<nat>, p: nat, out: seq<nat>)
    requires p <= |u| && Words(u) && Words(out)
    ensures var r := Units16(u, p, out); r.Ok? ==> Words(r.value) && out <= r.value
    decreases |u| - p
  {
    Turn16Words(u, p, out);
    hide Turn16, Words;
    var t := Turn16(u, p, out);
    if t.More? {
      Units16Words(u, t.at, t.out);
      var r := Units16(u, t.at, t.out);
      if r.Ok? { assert r.value[..|out|] == t.out[..|out|]; }
    }
  }

  /** `parse_string` over UTF-16: collect, then join. */
  function String16(u: seq<nat>, p: nat): (r: Outcome<seq<int>>)
    requires p <= |u| && Words(u)
  {
    Units16Words(u, p, []);
    match Units16(u, p, [])
    case Ok(units, n) => (match Join(units) case Some(s) => Ok(s, n) case None => Err(InvalidUnicodeCodePoint, n, n))
    case Err(code, at, n) => Err(code, at, n)
  }
}
