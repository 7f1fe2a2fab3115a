// The JSON reader and parser with their cursor and depth counter (src/json/src/reader.cpp,
// src/json/src/parser.cpp:10-84): every method moves the cursor as the functions of JsonGrammar and
// JsonWalk say.

module JsonReader {
  import opened Options
  import U = Unicode
  import I = Integers
  import opened JsonString
  import G = JsonGrammar
  import opened JsonWalk

  /** At the first unit of a value there is no more white space to skip. */
  lemma {:induction false} KindAgain(src: G.Input, q: nat)
    requires q < |src.units| && G.KindOf(src.units[q]).Some?
    ensures G.ValueKind(src, q) == Ok(G.KindOf(src.units[q]).value, q)
  {
  }

  /** `append_utf16` */
  method AppendUtf16(units: seq<nat>) returns (r: Option<U.Text>)
    requires U.Words(units)
    ensures r == U.Join(units)
  {
    var index := 0;
    var out: U.Text := [];
    assert units[0..] == units;
    U.PrependNothing(U.Join(units));
    while index < |units|
      invariant 0 <= index <= |units| && U.Words(units[index..])
      invariant U.Join(units) == U.Prepend(out, U.Join(units[index..]))
      decreases |units| - index
    {
      var value := units[index];
      var scalar: int := value;
      var next := index + 1;
      ghost var u := units[index..];
      assert u[0] == value && (next < |units| ==> u[1] == units[next]);
      if U.IsHigh(value) {
        if next == |units| || !U.IsLow(units[next]) {
          U.PrependStep(out, u);
          return None;
        }
        scalar := 0x10000 + (value - 0xD800) * 1024 + (units[next] - 0xDC00);
        next := next + 1;
      } else if U.IsLow(value) {
        U.PrependStep(out, u);
        return None;
      }
      assert U.Front16(u) == Some((scalar, next - index));
      hide U.Join, U.Prepend, U.Front16;
      U.PrependStep(out, u);
      assert u[next - index..] == units[next..];
      out := out + [scalar];
      index := next;
    }
    assert units[|units|..] == [];
    U.PrependEnd(out);
    r := Some(out);
  }

  class Reader {
    const src: G.Input
    var position: nat
    var remainingDepth: nat

    ghost predicate Valid()
      reads this
    {
      position <= |src.units| && G.Valid(src)
    }

    constructor (src: G.Input, maxDepth: nat)
      requires G.Valid(src)
      ensures Valid() && position == 0 && remainingDepth == maxDepth && this.src == src
    {
      this.src, this.position, this.remainingDepth := src, 0, maxDepth;
    }

    method Fail<T>(code: ErrorCode) returns (r: Outcome<T>)
      requires Valid()
      ensures r == Err(code, position, position)
    {
      r := Err(code, position, position);
    }

    // ---------- white space ----------

    method ConsumeWhitespace() returns (r: Outcome<G.Empty>)
      requires Valid()
      modifies this`position
      ensures Valid() && r == G.Space(src, old(position)) && position == r.next
    {
      while position < |src.units|
        invariant position <= |src.units| && G.Space(src, old(position)) == G.Space(src, position)
        decreases |src.units| - position
      {
        var c := src.units[position];
        if G.IsSpace(c) {
          position := position + 1;
        } else if !src.allowComments || c != G.SLASH {
          return Ok(G.Empty, position);
        } else if G.At(src, position + 1) == G.SLASH {
          position := position + 2;
          SkipLine();
        } else if G.At(src, position + 1) == G.STAR {
          position := position + 2;
          var closed := SkipBlock();
          if !closed {
            return Err(EofWhileParsingComment, position, position);
          }
        } else {
          return Ok(G.Empty, position);
        }
      }
      r := Ok(G.Empty, position);
    }

    method SkipLine()
      requires Valid()
      modifies this`position
      ensures Valid() && position == G.LineEnd(src, old(position))
    {
      while position < |src.units| && src.units[position] != G.NEWLINE
        invariant position <= |src.units| && G.LineEnd(src, old(position)) == G.LineEnd(src, position)
        decreases |src.units| - position
      {
        position := position + 1;
      }
    }

    method SkipBlock() returns (closed: bool)
      requires Valid()
      modifies this`position
      ensures Valid() && closed == G.BlockEnd(src, old(position)).Some?
      ensures position == if closed then G.BlockEnd(src, old(position)).value else |src.units|
    {
      while position < |src.units|
        invariant position <= |src.units| && G.BlockEnd(src, old(position)) == G.BlockEnd(src, position)
        decreases |src.units| - position
      {
        if src.units[position] == G.STAR && G.At(src, position + 1) == G.SLASH {
          position := position + 2;
          return true;
        }
        position := position + 1;
      }
      closed := false;
    }

    // ---------- leaves ----------

    method ValueKind() returns (r: Outcome<G.Kind>)
      requires Valid()
      modifies this`position
      ensures Valid() && r == G.ValueKind(src, old(position)) && position == r.next
    {
      var space := ConsumeWhitespace();
      if space.Err? {
        return Err(space.code, space.at, space.next);
      }
      if position == |src.units| {
        r := Fail(EofWhileParsingValue);
        return;
      }
      match G.KindOf(src.units[position]) {
        case None => r := Fail(ExpectedSomeValue);
        case Some(kind) => r := Ok(kind, position);
      }
    }

    method ConsumeIdent(word: seq<char>) returns (r: Outcome<G.Empty>)
      requires Valid()
      modifies this`position
      ensures Valid() && r == G.Ident(src, old(position), word, 0) && position == r.next
    {
      for i := 0 to |word|
        invariant position <= |src.units| && G.Ident(src, old(position), word, 0) == G.Ident(src, position, word, i)
      {
        if position == |src.units| {
          r := Fail(EofWhileParsingValue);
          return;
        }
        if src.units[position] != word[i] as int {
          r := Fail(ExpectedSomeIdent);
          return;
        }
        position := position + 1;
      }
      r := Ok(G.Empty, position);
    }

    // ---------- strings ----------

    method ParseHexEscape() returns (r: Outcome<nat>)
      requires Valid()
      modifies this`position
      ensures Valid() && r == Hex(src.units, old(position), 4, 0) && position == r.next
    {
      var value: nat := 0;
      for index := 0 to 4
        invariant position <= |src.units|
        invariant Hex(src.units, old(position), 4, 0) == Hex(src.units, position, 4 - index, value)
      {
        if position == |src.units| {
          r := Fail(EofWhileParsingString);
          return;
        }
        var digit := HexDigit(src.units[position]);
        if digit.None? {
          r := Fail(InvalidEscape);
          return;
        }
        position := position + 1;
        value := value * 16 + digit.value;
      }
      r := Ok(value, position);
    }

    method ParseUnicodeEscape() returns (r: Outcome<nat>)
      requires Valid()
      modifies this`position
      ensures Valid() && r == UnicodeEscape(src.units, old(position)) && position == r.next
    {
      hide Hex;
      var first := ParseHexEscape();
      if first.Err? {
        return first;
      }
      if U.IsLow(first.value) {
        return Err(LoneLeadingSurrogateInHexEscape, position - 1, position);
      }
      if !U.IsHigh(first.value) {
        return first;
      }
      if position == |src.units| {
        r := Fail(EofWhileParsingString);
        return;
      }
      if src.units[position] != BACKSLASH {
        r := Fail(UnexpectedEndOfHexEscape);
        return;
      }
      position := position + 1;
      if position == |src.units| {
        r := Fail(EofWhileParsingString);
        return;
      }
      if src.units[position] != LETTER_U {
        r := Fail(UnexpectedEndOfHexEscape);
        return;
      }
      position := position + 1;
      var second := ParseHexEscape();
      if second.Err? {
        return second;
      }
      if !U.IsLow(second.value) {
        return Err(LoneLeadingSurrogateInHexEscape, position - 1, position);
      }
      r := Ok(U.Pair(first.value, second.value), position);
    }

    method TakeChunk() returns (begin: nat)
      requires Valid()
      modifies this`position
      ensures Valid() && begin == old(position) && position == ChunkEnd(src.units, begin)
    {
      begin := position;
      while position < |src.units| && src.units[position] != QUOTE && src.units[position] != BACKSLASH && src.units[position] >= 0x20
        invariant position <= |src.units| && ChunkEnd(src.units, begin) == ChunkEnd(src.units, position)
        decreases |src.units| - position
      {
        position := position + 1;
      }
    }

    /** One turn of `read_string<String>` after its chunk has been taken. */
    method FinishTurn8(out: seq<int>) returns (t: Turn<seq<int>>)
      requires Valid()
      modifies this`position
      ensures Valid() && t == After8(src.units, old(position), out)
      ensures position == if t.Done? then t.outcome.next else t.at
    {
      if position == |src.units| {
        return Done(Err(EofWhileParsingString, position, position));
      }
      var c := src.units[position];
      position := position + 1;
      if c == QUOTE {
        return Done(Ok(out, position));
      }
      if c < 0x20 {
        return Done(Err(ControlCharacterWhileParsingString, position - 1, position));
      }
      if position == |src.units| {
        return Done(Err(EofWhileParsingString, position, position));
      }
      var escaped := src.units[position];
      position := position + 1;
      var simple := Escape(escaped);
      if simple.Some? {
        return More(out + [simple.value], position);
      }
      if escaped != LETTER_U {
        return Done(Err(InvalidEscape, position - 1, position));
      }
      var decoded := ParseUnicodeEscape();
      t := if decoded.Ok? then More(out + [decoded.value], position) else Done(Err(decoded.code, decoded.at, decoded.next));
    }

    /** `read_string<String>` over UTF-8, after the opening quote. */
    method ReadString8() returns (r: Outcome<seq<int>>)
      requires Valid()
      modifies this`position
      ensures Valid() && r == String8(src.units, old(position), []) && position == r.next
    {
      hide After8, ChunkEnd, TextOf;
      var out: seq<int> := [];
      while true
        invariant position <= |src.units| && String8(src.units, old(position), []) == String8(src.units, position, out)
        decreases |src.units| - position
      {
        var begin := TakeChunk();
        var raw := TextOf(src.units, begin, position);
        if raw.None? {
          return Err(UnwrapFailed, begin, position);
        }
        var t := FinishTurn8(out + raw.value);
        if t.Done? {
          return t.outcome;
        }
        out := t.out;
      }
    }

    /** One turn of `read_string<Vec<u16>>` after its chunk has been taken. */
    method FinishTurn16(out: seq<nat>) returns (t: Turn<seq<nat>>)
      requires Valid()
      modifies this`position
      ensures Valid() && t == After16(src.units, old(position), out)
      ensures position == if t.Done? then t.outcome.next else t.at
    {
      if position == |src.units| {
        return Done(Err(EofWhileParsingString, position, position));
      }
      var c := src.units[position];
      position := position + 1;
      if c == QUOTE {
        return Done(Ok(out, position));
      }
      if c < 0x20 {
        return Done(Err(ControlCharacterWhileParsingString, position - 1, position));
      }
      if position == |src.units| {
        return Done(Err(EofWhileParsingString, position, position));
      }
      var escaped := src.units[position];
      position := position + 1;
      var simple := Escape(escaped);
      if simple.Some? {
        return More(out + [simple.value], position);
      }
      if escaped != LETTER_U {
        return Done(Err(InvalidEscape, position - 1, position));
      }
      var unit := ParseHexEscape();
      t := if unit.Ok? then More(out + [unit.value], position) else Done(Err(unit.code, unit.at, unit.next));
    }

    /** `read_string<Vec<u16>>` over UTF-16, after the opening quote. */
    method ReadUnits16() returns (r: Outcome<seq<nat>>)
      requires Valid()
      modifies this`position
      ensures Valid() && r == Units16(src.units, old(position), []) && position == r.next
    {
      hide After16, ChunkEnd;
      var out: seq<nat> := [];
      while true
        invariant position <= |src.units| && Units16(src.units, old(position), []) == Units16(src.units, position, out)
        decreases |src.units| - position
      {
        var begin := TakeChunk();
        var t := FinishTurn16(out + src.units[begin..position]);
        if t.Done? {
          return t.outcome;
        }
        out := t.out;
      }
    }

    /** `parse_string` at its opening quote. */
    method ParseString() returns (r: Outcome<seq<int>>)
      requires Valid() && position < |src.units| && src.units[position] == QUOTE
      modifies this`position
      ensures Valid() && r == G.String(src, old(position)) && position == r.next
    {
      hide String8, Units16;
      var kind := ValueKind();
      KindAgain(src, old(position));
      position := position + 1;
      if !src.utf16 {
        r := ReadString8();
      } else {
        Units16Words(src.units, position, []);
        var units := ReadUnits16();
        if units.Err? {
          return Err(units.code, units.at, units.next);
        }
        var joined := AppendUtf16(units.value);
        r := if joined.Some? then Ok(joined.value, position) else Err(InvalidUnicodeCodePoint, position, position);
      }
    }

    // ---------- numbers ----------

    method TakeDigits() returns (begin: nat)
      requires Valid()
      modifies this`position
      ensures Valid() && begin == old(position) && position == G.DigitsEnd(src, begin)
    {
      begin := position;
      while position < |src.units| && G.IsDigit(src.units[position])
        invariant begin <= position <= |src.units| && G.DigitsEnd(src, begin) == G.DigitsEnd(src, position)
        decreases |src.units| - position
      {
        position := position + 1;
      }
    }

    method ScanInteger() returns (r: Outcome<G.Empty>)
      requires Valid()
      modifies this`position
      ensures Valid() && r == G.IntegerEnd(src, old(position)) && position == r.next
    {
      var c := G.At(src, position);
      if position < |src.units| && c == '0' as int {
        position := position + 1;
        if position < |src.units| && G.IsDigit(src.units[position]) {
          r := Fail(InvalidNumber);
          return;
        }
      } else if position < |src.units| && '1' as int <= c <= '9' as int {
        var begin := TakeDigits();
      } else {
        r := Fail(InvalidNumber);
        return;
      }
      r := Ok(G.Empty, position);
    }

    method ScanFraction() returns (r: Outcome<seq<nat>>)
      requires Valid()
      modifies this`position
      ensures Valid() && r == G.FractionEnd(src, old(position)) && position == r.next
    {
      if position == |src.units| || src.units[position] != '.' as int {
        return Ok([], position);
      }
      position := position + 1;
      if position == |src.units| {
        r := Fail(EofWhileParsingValue);
        return;
      }
      var begin := TakeDigits();
      if position == begin {
        r := Fail(InvalidNumber);
        return;
      }
      r := Ok(src.units[begin..position], position);
    }

    method ScanExponent() returns (r: Outcome<int>)
      requires Valid()
      modifies this`position
      ensures Valid() && r == G.ExponentEnd(src, old(position)) && position == r.next
    {
      if position == |src.units| || (src.units[position] != 'e' as int && src.units[position] != 'E' as int) {
        return Ok(0, position);
      }
      position := position + 1;
      var negative := false;
      if position < |src.units| && (src.units[position] == '+' as int || src.units[position] == '-' as int) {
        negative := src.units[position] == '-' as int;
        position := position + 1;
      }
      if position == |src.units| {
        r := Fail(EofWhileParsingValue);
        return;
      }
      if !G.IsDigit(src.units[position]) {
        r := Fail(InvalidNumber);
        return;
      }
      var begin := TakeDigits();
      var digits := src.units[begin..position];
      G.DigitUnits(digits);
      var exponent: int := I.Exponent(digits);
      r := Ok(if negative then -exponent else exponent, position);
    }

    /** `scan_number` at its first unit. */
    method ScanNumber() returns (r: Outcome<G.Token>)
      requires Valid() && position < |src.units|
      modifies this`position
      ensures Valid() && r == G.Scan(src, old(position)) && position == r.next
    {
      hide G.IntegerEnd, G.FractionEnd, G.ExponentEnd;
      var negative := src.units[position] == '-' as int;
      if negative {
        position := position + 1;
        if position == |src.units| {
          r := Fail(EofWhileParsingValue);
          return;
        }
      }
      var begin := position;
      var integer := ScanInteger();
      if integer.Err? {
        return Err(integer.code, integer.at, integer.next);
      }
      var end := position;
      var fraction := ScanFraction();
      if fraction.Err? {
        return Err(fraction.code, fraction.at, fraction.next);
      }
      var exponent := ScanExponent();
      if exponent.Err? {
        return Err(exponent.code, exponent.at, exponent.next);
      }
      r := Ok(G.Token(negative, src.units[begin..end], fraction.value, exponent.value, position > end), position);
    }

    /** `parse_number` at its first unit. */
    method ParseNumber() returns (r: Outcome<I.Number>)
      requires Valid() && position < |src.units|
      modifies this`position
      ensures Valid() && r == G.Number(src, old(position)) && position == r.next
    {
      hide G.Scan, I.NumberOf;
      var scanned := ScanNumber();
      if scanned.Err? {
        return Err(scanned.code, scanned.at, scanned.next);
      }
      var token := scanned.value;
      G.DigitUnits(token.integer);
      var number := I.ParseNumber(I.NumberToken(token.negative, token.integer, token.floating), src.rejectIntegerOverflow);
      match number {
        case OutOfRange => r := Fail(NumberOutOfRange);
        case ToFloat =>
          match src.convert(token) {
            case Finite(bits) => r := Ok(I.Floating(bits), position);
            case Overflow => r := Fail(NumberOutOfRange);
            case Malformed => r := Fail(InvalidNumber);
          }
        case Ok(exact) => r := Ok(exact, position);
      }
    }

    /** `parse_null`, `parse_bool`, `parse_number` or `parse_string`, by kind. */
    method ParseLeaf(kind: G.Kind) returns (r: Outcome<Value>)
      requires Valid() && position < |src.units| && G.KindOf(src.units[position]) == Some(kind)
      requires !kind.ArrayKind? && !kind.ObjectKind?
      modifies this`position
      ensures Valid() && r == Leaf(src, old(position), kind) && position == r.next
    {
      hide G.Number, G.String, G.Ident;
      match kind {
        case NullKind =>
          var done := ConsumeIdent("null");
          r := if done.Ok? then Ok(Null, position) else Err(done.code, done.at, done.next);
        case BooleanKind =>
          var value := src.units[position] == 't' as int;
          var done := ConsumeIdent(if value then "true" else "false");
          r := if done.Ok? then Ok(Bool(value), position) else Err(done.code, done.at, done.next);
        case NumberKind =>
          var number := ParseNumber();
          r := if number.Ok? then Ok(Num(number.value), position) else Err(number.code, number.at, number.next);
        case StringKind =>
          var text := ParseString();
          r := if text.Ok? then Ok(Str(text.value), position) else Err(text.code, text.at, text.next);
      }
    }

    // ---------- containers ----------

    /** `begin_array` and `begin_object` at the opening bracket. */
    method BeginContainer() returns (r: Outcome<G.Empty>)
      requires Valid() && position < |src.units|
      modifies this
      ensures Valid() && Walk(r, remainingDepth) == Begin(src, old(position), old(remainingDepth)) && position == r.next
    {
      if remainingDepth <= 1 {
        r := Fail(RecursionLimitExceeded);
        return;
      }
      remainingDepth := remainingDepth - 1;
      position := position + 1;
      r := ConsumeWhitespace();
    }

    method TakeComma(first: bool, close: nat, expected: ErrorCode) returns (r: Outcome<G.Empty>)
      requires Valid() && position < |src.units|
      modifies this`position
      ensures Valid() && r == Comma(src, old(position), first, close, expected) && position == r.next
    {
      if first {
        return Ok(G.Empty, position);
      }
      if src.units[position] != ',' as int {
        r := Fail(expected);
        return;
      }
      position := position + 1;
      r := ConsumeWhitespace();
      if r.Err? {
        return;
      }
      if position == |src.units| {
        r := Fail(EofWhileParsingValue);
      } else if src.units[position] == close {
        r := Fail(TrailingComma);
      } else {
        r := Ok(G.Empty, position);
      }
    }

    method NextArrayElement(first: bool) returns (r: Outcome<bool>)
      requires Valid()
      modifies this
      ensures Valid() && Walk(r, remainingDepth) == NextArray(src, old(position), old(remainingDepth), first) && position == r.next
    {
      hide G.Space, Comma;
      var space := ConsumeWhitespace();
      if space.Err? {
        return Err(space.code, space.at, space.next);
      }
      if position == |src.units| {
        r := Fail(EofWhileParsingList);
        return;
      }
      if src.units[position] == ']' as int {
        position, remainingDepth := position + 1, remainingDepth + 1;
        return Ok(false, position);
      }
      var comma := TakeComma(first, ']' as int, ExpectedListCommaOrEnd);
      r := if comma.Ok? then Ok(true, position) else Err(comma.code, comma.at, comma.next);
    }

    method TakeKey() returns (r: Outcome<seq<int>>)
      requires Valid() && position < |src.units|
      modifies this`position
      ensures Valid() && r == Key(src, old(position)) && position == r.next
    {
      hide G.Space, G.String;
      if src.units[position] != QUOTE {
        r := Fail(KeyMustBeAString);
        return;
      }
      var key := ParseString();
      if key.Err? {
        return key;
      }
      var space := ConsumeWhitespace();
      if space.Err? {
        return Err(space.code, space.at, space.next);
      }
      if position == |src.units| {
        r := Fail(EofWhileParsingObject);
        return;
      }
      if src.units[position] != ':' as int {
        r := Fail(ExpectedColon);
        return;
      }
      position := position + 1;
      space := ConsumeWhitespace();
      r := if space.Ok? then Ok(key.value, position) else Err(space.code, space.at, space.next);
    }

    method NextObjectKey(first: bool) returns (r: Outcome<Option<seq<int>>>)
      requires Valid()
      modifies this
      ensures Valid() && Walk(r, remainingDepth) == NextKey(src, old(position), old(remainingDepth), first) && position == r.next
    {
      hide G.Space, Comma, Key;
      var space := ConsumeWhitespace();
      if space.Err? {
        return Err(space.code, space.at, space.next);
      }
      if position == |src.units| {
        r := Fail(EofWhileParsingObject);
        return;
      }
      if src.units[position] == '}' as int {
        position, remainingDepth := position + 1, remainingDepth + 1;
        return Ok(None, position);
      }
      var comma := TakeComma(first, '}' as int, ExpectedObjectCommaOrEnd);
      if comma.Err? {
        return Err(comma.code, comma.at, comma.next);
      }
      var key := TakeKey();
      r := if key.Ok? then Ok(Some(key.value), position) else Err(key.code, key.at, key.next);
    }

    // ---------- the two walks ----------

    /** `skip_value` */
    method SkipValue() returns (r: Outcome<G.Empty>)
      requires Valid()
      modifies this
      ensures Valid() && Walk(r, remainingDepth) == Skip(src, old(position), old(remainingDepth)) && position == r.next
      decreases |src.units| - position, 1
    {
      hide G.ValueKind, Begin, Leaf;
      var kind := ValueKind();
      if kind.Err? {
        return Err(kind.code, kind.at, kind.next);
      }
      if kind.value.ArrayKind? || kind.value.ObjectKind? {
        var begun := BeginContainer();
        if begun.Err? {
          return begun;
        }
        if kind.value.ArrayKind? {
          r := SkipElements();
        } else {
          r := SkipEntries();
        }
      } else {
        var leaf := ParseLeaf(kind.value);
        r := Dropped(leaf);
      }
    }

    /** The array loop of `skip_value`. */
    method SkipElements() returns (r: Outcome<G.Empty>)
      requires Valid()
      modifies this
      ensures Valid() && Walk(r, remainingDepth) == SkipItems(src, old(position), old(remainingDepth), true) && position == r.next
      decreases |src.units| - position, 2
    {
      hide NextArray, Skip;
      var first := true;
      while true
        invariant Valid() && old(position) <= position
        invariant SkipItems(src, old(position), old(remainingDepth), true) == SkipItems(src, position, remainingDepth, first)
        decreases |src.units| - position
      {
        var next := NextArrayElement(first);
        if next.Err? || !next.value {
          return Dropped(next);
        }
        first := false;
        r := SkipValue();
        if r.Err? {
          return;
        }
      }
    }

    /** The object loop of `skip_value`. */
    method SkipEntries() returns (r: Outcome<G.Empty>)
      requires Valid()
      modifies this
      ensures Valid() && Walk(r, remainingDepth) == SkipMembers(src, old(position), old(remainingDepth), true) && position == r.next
      decreases |src.units| - position, 2
    {
      hide NextKey, Skip;
      var first := true;
      while true
        invariant Valid() && old(position) <= position
        invariant SkipMembers(src, old(position), old(remainingDepth), true) == SkipMembers(src, position, remainingDepth, first)
        decreases |src.units| - position
      {
        var key := NextObjectKey(first);
        if key.Err? || key.value.None? {
          return Dropped(key);
        }
        first := false;
        r := SkipValue();
        if r.Err? {
          return;
        }
      }
    }

    /** `Parser::parse_value` */
    method ParseValue() returns (r: Outcome<Value>)
      requires Valid()
      modifies this
      ensures Valid() && Walk(r, remainingDepth) == Parse(src, old(position), old(remainingDepth)) && position == r.next
      decreases |src.units| - position, 1
    {
      hide G.ValueKind, Begin, Leaf;
      var kind := ValueKind();
      if kind.Err? {
        return Err(kind.code, kind.at, kind.next);
      }
      if kind.value.ArrayKind? || kind.value.ObjectKind? {
        var begun := BeginContainer();
        if begun.Err? {
          return Err(begun.code, begun.at, begun.next);
        }
        if kind.value.ArrayKind? {
          r := ParseArray();
        } else {
          r := ParseObject();
        }
      } else {
        r := ParseLeaf(kind.value);
      }
    }

    /** `Parser::parse_array`, inside the brackets. */
    method ParseArray() returns (r: Outcome<Value>)
      requires Valid()
      modifies this
      ensures Valid() && Walk(r, remainingDepth) == ParseItems(src, old(position), old(remainingDepth), true, []) && position == r.next
      decreases |src.units| - position, 2
    {
      hide NextArray, Parse;
      var values: seq<Value> := [];
      var first := true;
      while true
        invariant Valid() && old(position) <= position
        invariant ParseItems(src, old(position), old(remainingDepth), true, []) == ParseItems(src, position, remainingDepth, first, values)
        decreases |src.units| - position
      {
        var next := NextArrayElement(first);
        if next.Err? {
          return Err(next.code, next.at, next.next);
        }
        if !next.value {
          return Ok(Arr(values), position);
        }
        first := false;
        r := ParseValue();
        if r.Err? {
          return;
        }
        values := values + [r.value];
      }
    }

    /** `Parser::parse_object`, inside the brackets. */
    method ParseObject() returns (r: Outcome<Value>)
      requires Valid()
      modifies this
      ensures Valid() && Walk(r, remainingDepth) == ParseMembers(src, old(position), old(remainingDepth), true, map[]) && position == r.next
      decreases |src.units| - position, 2
    {
      hide NextKey, Parse;
      var values: map<seq<int>, Value> := map[];
      var first := true;
      while true
        invariant Valid() && old(position) <= position
        invariant ParseMembers(src, old(position), old(remainingDepth), true, map[]) == ParseMembers(src, position, remainingDepth, first, values)
        decreases |src.units| - position
      {
        var key := NextObjectKey(first);
        if key.Err? {
          return Err(key.code, key.at, key.next);
        }
        if key.value.None? {
          return Ok(Obj(values), position);
        }
        first := false;
        r := ParseValue();
        if r.Err? {
          return;
        }
        var replaced := key.value.value in values;
        values := values[key.value.value := r.value];
        if src.rejectDuplicateKeys && replaced {
          r := Fail(DuplicateKey);
          return;
        }
      }
    }

    /** `finish` */
    method Finish() returns (r: Outcome<G.Empty>)
      requires Valid()
      modifies this`position
      ensures Valid() && position == r.next
      ensures r == match G.Space(src, old(position))
                   case Err(code, at, n) => Err(code, at, n)
                   case Ok(x, n) => if n == |src.units| then Ok(x, n) else Err(TrailingCharacters, n, n)
    {
      hide G.Space;
      r := ConsumeWhitespace();
      if r.Ok? && position < |src.units| {
        r := Fail(TrailingCharacters);
      }
    }

    /** `Parser::parse`, on a fresh reader. */
    method ParseDocument() returns (r: Outcome<Value>)
      requires Valid() && position == 0
      modifies this
      ensures Valid() && r == Document(src, old(remainingDepth))
    {
      hide Parse, G.Space;
      r := ParseValue();
      if r.Ok? {
        var v := r.value;
        var done := Finish();
        r := if done.Ok? then Ok(v, position) else Err(done.code, done.at, done.next);
      }
    }
  }
}
