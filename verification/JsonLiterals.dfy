// String literals as section 7 of RFC 8259 has them, without a cursor: runs of characters that stand for
// themselves, with escapes between them; and the proof that reading a string succeeds exactly on those whose
// surrogates are paired.

module JsonLiterals {
  import opened Options
  import opened Unicode
  import opened JsonString
  import opened JsonGrammar
  import I = Integers

  /** `\n` and the like, by what they stand for, or `\u` with the value of its four digits. */
  datatype Escaped = Short(c: nat) | Code(v: nat)

  datatype Literal = End(raw: seq<nat>) | More(raw: seq<nat>, escape: Escaped, rest: Literal)

  // ---------- the grammar ----------

  predicate ShortFor(letter: nat, c: nat) {
    || (letter == '"' as int && c == 0x22) || (letter == '\\' as int && c == 0x5C) || (letter == '/' as int && c == 0x2F)
    || (letter == 'b' as int && c == 0x08) || (letter == 'f' as int && c == 0x0C) || (letter == 'n' as int && c == 0x0A)
    || (letter == 'r' as int && c == 0x0D) || (letter == 't' as int && c == 0x09)
  }

  predicate HexValue(c: nat, v: nat) {
    || ('0' as int <= c <= '9' as int && v == c - '0' as int)
    || ('a' as int <= c <= 'f' as int && v == c - 'a' as int + 10)
    || ('A' as int <= c <= 'F' as int && v == c - 'A' as int + 10)
  }

  function Four(a: nat, b: nat, c: nat, d: nat): nat {
    4096 * a + 256 * b + 16 * c + d
  }

  ghost predicate FourHex(u: seq<nat>, p: nat, v: nat) {
    && p + 4 <= |u|
    && exists a: nat, b: nat, c: nat, d: nat ::
         HexValue(u[p], a) && HexValue(u[p + 1], b) && HexValue(u[p + 2], c) && HexValue(u[p + 3], d) && v == Four(a, b, c, d)
  }

  function Width(e: Escaped): nat {
    if e.Short? then 2 else 6
  }

  ghost predicate EscapeAt(u: seq<nat>, p: nat, e: Escaped) {
    && p + Width(e) <= |u| && u[p] == 0x5C
    && match e
       case Short(c) => ShortFor(u[p + 1], c)
       case Code(v) => u[p + 1] == 'u' as int && FourHex(u, p + 2, v)
  }

  /** Characters that need no escape: no control character, quote or backslash. */
  predicate RawAt(u: seq<nat>, p: nat, raw: seq<nat>) {
    p + |raw| <= |u| && u[p..p + |raw|] == raw && forall i :: 0 <= i < |raw| ==> raw[i] >= 0x20 && raw[i] != 0x22 && raw[i] != 0x5C
  }

  /** The literal l is written from p, behind the opening quote, to n, behind the closing one. */
  ghost predicate Derives(u: seq<nat>, p: nat, l: Literal, n: nat)
    decreases l
  {
    var c := p + |l.raw|;
    && RawAt(u, p, l.raw)
    && match l
       case End(_) => c < |u| && u[c] == 0x22 && n == c + 1
       case More(_, e, rest) => EscapeAt(u, c, e) && Derives(u, c + Width(e), rest, n)
  }

  // ---------- what it means ----------

  function UnitOf(e: Escaped): nat {
    match e
    case Short(c) => c
    case Code(v) => v
  }

  /** All the UTF-16 units of a literal, escaped or not. */
  function Spelled(l: Literal): seq<nat> {
    match l
    case End(raw) => raw
    case More(raw, e, rest) => raw + [UnitOf(e)] + Spelled(rest)
  }

  function After(front: Option<Text>, c: int, rest: Option<seq<int>>): Option<seq<int>> {
    if front.Some? && rest.Some? then Some(front.value + [c] + rest.value) else None
  }

  /** Over UTF-8: an escaped high surrogate belongs with an escaped low one right behind it. */
  function Meaning8(l: Literal): Option<seq<int>>
    decreases l
  {
    match l
    case End(raw) => (match Decode8(raw) case Some(s) => Some(s) case None => None)
    case More(raw, Short(c), rest) => After(Decode8(raw), c, Meaning8(rest))
    case More(raw, Code(v), rest) =>
      if IsLow(v) then None
      else if !IsHigh(v) then After(Decode8(raw), v, Meaning8(rest))
      else if rest.More? && rest.raw == [] && rest.escape.Code? && IsLow(rest.escape.v) then
        After(Decode8(raw), Pair(v, rest.escape.v), Meaning8(rest.rest))
      else None
  }

  function Meaning(utf16: bool, l: Literal): Option<seq<int>> {
    if !utf16 then Meaning8(l)
    else if !Words(Spelled(l)) then None
    else match Join(Spelled(l)) case Some(s) => Some(s) case None => None
  }

  /** A literal with this meaning from its opening quote at q to n. */
  ghost predicate LiteralAt(src: Input, q: nat, s: seq<int>, n: nat) {
    q < |src.units| && src.units[q] == 0x22 && exists l :: Derives(src.units, q + 1, l, n) && Meaning(src.utf16, l) == Some(s)
  }

  // ---------- the reader's tables and loops ----------

  lemma {:induction false} ShortIs(letter: nat)
    ensures forall c: nat :: ShortFor(letter, c) <==> Escape(letter) == Some(c)
  {
  }

  lemma {:induction false} HexValueIs(c: nat)
    ensures forall v: nat :: HexValue(c, v) <==> HexDigit(c) == Some(v)
  {
  }

  lemma {:induction false} HexSteps(u: seq<nat>, p: nat, left: nat, value: nat)
    requires p < |u| && left > 0
    ensures forall v: nat :: HexValue(u[p], v) ==> Hex(u, p, left, value) == Hex(u, p + 1, left - 1, value * 16 + v)
    ensures Hex(u, p, left, value).Ok? ==> exists v: nat :: HexValue(u[p], v)
  {
    HexValueIs(u[p]);
    hide HexDigit, HexValue;
  }

  lemma {:induction false} FourHexIs(u: seq<nat>, p: nat, v: nat)
    requires p <= |u|
    ensures FourHex(u, p, v) <==> Hex(u, p, 4, 0) == Ok(v, p + 4)
  {
    if p + 4 <= |u| {
      hide HexValue, Hex;
      forall a: nat, b: nat, c: nat, d: nat | HexValue(u[p], a) && HexValue(u[p + 1], b) && HexValue(u[p + 2], c) && HexValue(u[p + 3], d)
        ensures Hex(u, p, 4, 0) == Ok(Four(a, b, c, d), p + 4)
      {
        FourSteps(u, p, a, b, c, d);
      }
      if Hex(u, p, 4, 0).Ok? {
        HexSteps(u, p, 4, 0);
        var a: nat :| HexValue(u[p], a);
        HexSteps(u, p + 1, 3, a);
        var b: nat :| HexValue(u[p + 1], b);
        HexSteps(u, p + 2, 2, a * 16 + b);
        var c: nat :| HexValue(u[p + 2], c);
        HexSteps(u, p + 3, 1, (a * 16 + b) * 16 + c);
        var d: nat :| HexValue(u[p + 3], d);
        assert Hex(u, p, 4, 0) == Ok(Four(a, b, c, d), p + 4);
      }
    }
  }

  lemma {:induction false} FourSteps(u: seq<nat>, p: nat, a: nat, b: nat, c: nat, d: nat)
    requires p + 4 <= |u| && HexValue(u[p], a) && HexValue(u[p + 1], b) && HexValue(u[p + 2], c) && HexValue(u[p + 3], d)
    ensures Hex(u, p, 4, 0) == Ok(Four(a, b, c, d), p + 4)
  {
    HexSteps(u, p, 4, 0);
    HexSteps(u, p + 1, 3, a);
    HexSteps(u, p + 2, 2, a * 16 + b);
    HexSteps(u, p + 3, 1, (a * 16 + b) * 16 + c);
    HexEnd(u, p + 4, ((a * 16 + b) * 16 + c) * 16 + d);
    hide Hex, HexValue;
  }

  lemma {:induction false} HexEnd(u: seq<nat>, p: nat, value: nat)
    requires p <= |u|
    ensures Hex(u, p, 0, value) == Ok(value, p)
  {
  }

  /** A run of raw characters up to something else is a chunk. */
  lemma {:induction false} RawChunk(u: seq<nat>, p: nat, raw: seq<nat>)
    requires RawAt(u, p, raw) && p + |raw| < |u| && !Plain(u[p + |raw|])
    ensures ChunkEnd(u, p) == p + |raw|
    decreases |raw|
  {
    if raw != [] {
      assert u[p] == raw[0];
      assert u[p + 1..p + |raw|] == raw[1..];
      RawChunk(u, p + 1, raw[1..]);
    }
  }

  lemma {:induction false} ChunkRaw(u: seq<nat>, p: nat)
    requires p <= |u|
    ensures RawAt(u, p, u[p..ChunkEnd(u, p)])
    decreases |u| - p
  {
    var c := ChunkEnd(u, p);
    if p < c {
      ChunkRaw(u, p + 1);
      assert u[p..c] == [u[p]] + u[p + 1..c];
    }
  }

  // ---------- over UTF-16 ----------

  lemma {:induction false} Escape16(u: seq<nat>, c: nat, out: seq<nat>, e: Escaped)
    requires EscapeAt(u, c, e)
    ensures After16(u, c, out) == Turn.More(out + [UnitOf(e)], c + Width(e))
  {
    ShortIs(u[c + 1]);
    if e.Code? { FourHexIs(u, c + 2, e.v); }
    hide Hex, FourHex;
  }

  lemma {:induction false} Escaped16(u: seq<nat>, c: nat, out: seq<nat>) returns (e: Escaped)
    requires c <= |u| && (c < |u| ==> !Plain(u[c])) && After16(u, c, out).More?
    ensures EscapeAt(u, c, e)
  {
    ShortIs(u[c + 1]);
    hide Hex, FourHex;
    if Escape(u[c + 1]).Some? {
      e := Short(Escape(u[c + 1]).value);
    } else {
      var v := Hex(u, c + 2, 4, 0).value;
      FourHexIs(u, c + 2, v);
      e := Code(v);
    }
  }

  lemma {:induction false} Complete16(u: seq<nat>, p: nat, l: Literal, n: nat, out: seq<nat>)
    requires p <= |u| && Derives(u, p, l, n)
    ensures Units16(u, p, out) == Ok(out + Spelled(l), n)
    decreases l
  {
    hide Hex, FourHex, ShortFor, Escape, EscapeAt, ChunkEnd, RawAt;
    var c := p + |l.raw|;
    RawIs(u, p, l);
    match l
    case End(raw) =>
    case More(raw, e, rest) =>
      Escape16(u, c, out + raw, e);
      hide After16;
      Complete16(u, c + Width(e), rest, n, out + raw + [UnitOf(e)]);
      assert out + raw + [UnitOf(e)] + Spelled(rest) == out + (raw + [UnitOf(e)] + Spelled(rest));
  }

  /** The chunk at the front of a literal. */
  lemma {:induction false} RawIs(u: seq<nat>, p: nat, l: Literal)
    requires p <= |u| && RawAt(u, p, l.raw) && (l.More? ==> EscapeAt(u, p + |l.raw|, l.escape))
    requires l.End? ==> p + |l.raw| < |u| && u[p + |l.raw|] == QUOTE
    ensures ChunkEnd(u, p) == p + |l.raw| <= |u| && u[p..ChunkEnd(u, p)] == l.raw
  {
    RawChunk(u, p, l.raw);
  }

  /** The last turn is the end of a literal. */
  lemma {:induction false} LastTurn16(u: seq<nat>, p: nat, out: seq<nat>) returns (l: Literal)
    requires p <= |u| && Turn16(u, p, out).Done? && Turn16(u, p, out).outcome.Ok?
    ensures Derives(u, p, l, Turn16(u, p, out).outcome.next) && Turn16(u, p, out).outcome.value == out + Spelled(l)
  {
    ChunkRaw(u, p);
    hide RawAt, ChunkEnd, Hex, Escape;
    l := End(u[p..ChunkEnd(u, p)]);
  }

  /** Any other turn is a run of raw characters and an escape. */
  lemma {:induction false} MoreTurn16(u: seq<nat>, p: nat, out: seq<nat>, rest: Literal, n: nat) returns (l: Literal)
    requires p <= |u| && Turn16(u, p, out).More? && Derives(u, Turn16(u, p, out).at, rest, n)
    ensures Derives(u, p, l, n) && l.More? && l.rest == rest && Turn16(u, p, out).out == out + l.raw + [UnitOf(l.escape)]
  {
    ChunkRaw(u, p);
    hide RawAt, EscapeAt, ChunkEnd, After16, Derives;
    var c := ChunkEnd(u, p);
    var e := Escaped16(u, c, out + u[p..c]);
    Escape16(u, c, out + u[p..c], e);
    l := Literal.More(u[p..c], e, rest);
    assert p + |l.raw| == c;
    DerivesMore(u, p, l, n);
  }

  lemma {:induction false} SpelledOn(out: seq<nat>, l: Literal)
    requires l.More?
    ensures out + l.raw + [UnitOf(l.escape)] + Spelled(l.rest) == out + Spelled(l)
  {
  }

  lemma {:induction false} Sound16(u: seq<nat>, p: nat, out: seq<nat>) returns (l: Literal)
    requires p <= |u| && Units16(u, p, out).Ok?
    ensures Derives(u, p, l, Units16(u, p, out).next) && Units16(u, p, out).value == out + Spelled(l)
    decreases |u| - p
  {
    hide Turn16, Derives, Spelled;
    var t := Turn16(u, p, out);
    if t.More? {
      var rest := Sound16(u, t.at, t.out);
      l := MoreTurn16(u, p, out, rest, Units16(u, p, out).next);
      SpelledOn(out, l);
    } else {
      l := LastTurn16(u, p, out);
    }
  }

  // ---------- over UTF-8 ----------

  /** `text(span)` gives the characters of a chunk, if it has any to give. */
  lemma {:induction false} TextIs(b: seq<nat>, p: nat)
    requires p <= |b|
    ensures TextOf(b, p, ChunkEnd(b, p)) == Decode8(b[p..ChunkEnd(b, p)])
  {
    var q := ChunkEnd(b, p);
    if p < q && Continuation(b[p]) { assert b[p..q][0] == b[p]; }
  }

  /** What an escape, with its second half if it needs one, comes to: a character and the literal behind it. */
  function Unescaped(l: Literal): Option<(int, Literal)>
    requires l.More?
  {
    match l.escape
    case Short(c) => Some((c, l.rest))
    case Code(v) =>
      if IsLow(v) then None
      else if !IsHigh(v) then Some((v, l.rest))
      else if l.rest.More? && l.rest.raw == [] && l.rest.escape.Code? && IsLow(l.rest.escape.v) then
        Some((Pair(v, l.rest.escape.v), l.rest.rest))
      else None
  }

  lemma {:induction false} MeaningIs(l: Literal)
    ensures Meaning8(l) == match l
                           case End(raw) => (match Decode8(raw) case Some(s) => Some(s) case None => None)
                           case More(raw, _, _) =>
                             match Unescaped(l)
                             case None => None
                             case Some(x) => After(Decode8(raw), x.0, Meaning8(x.1))
  {
    hide Decode8;
  }

  /** Where the literal behind the escape begins. */
  function Behind(c: nat, l: Literal): nat
    requires l.More?
  {
    if l.escape.Code? && IsHigh(l.escape.v) then c + 12 else c + Width(l.escape)
  }

  lemma {:induction false} Escape8(b: seq<nat>, c: nat, out: seq<int>, l: Literal, n: nat)
    requires l.More? && EscapeAt(b, c, l.escape) && Derives(b, c + Width(l.escape), l.rest, n) && Unescaped(l).Some?
    ensures After8(b, c, out) == Turn.More(out + [Unescaped(l).value.0], Behind(c, l))
    ensures Derives(b, Behind(c, l), Unescaped(l).value.1, n)
  {
    ShortIs(b[c + 1]);
    hide Hex, FourHex, ShortFor, Pair;
    if l.escape.Code? {
      FourHexIs(b, c + 2, l.escape.v);
      if IsHigh(l.escape.v) {
        assert c + 6 + |l.rest.raw| == c + 6;
        FourHexIs(b, c + 8, l.rest.escape.v);
      }
    }
  }

  lemma {:induction false} Complete8(b: seq<nat>, p: nat, l: Literal, n: nat, out: seq<int>)
    requires p <= |b| && Derives(b, p, l, n) && Meaning8(l).Some?
    ensures String8(b, p, out) == Ok(out + Meaning8(l).value, n)
    decreases l
  {
    var c := p + |l.raw|;
    hide Decode8, EscapeAt, RawAt, ChunkEnd, TextOf, Unescaped, Meaning8;
    RawIs(b, p, l);
    TextIs(b, p);
    MeaningIs(l);
    if l.More? {
      var raw := Decode8(l.raw).value;
      Escape8(b, c, out + raw, l, n);
      var x := Unescaped(l).value;
      SmallerRest(l);
      hide After8;
      Complete8(b, Behind(c, l), x.1, n, out + raw + [x.0]);
      assert out + raw + [x.0] + Meaning8(x.1).value == out + (raw + [x.0] + Meaning8(x.1).value);
    }
  }

  lemma {:induction false} SmallerRest(l: Literal)
    requires l.More? && Unescaped(l).Some?
    ensures l decreases to Unescaped(l).value.1
  {
  }

  /** An escape read: a literal continues in the grammar's way. */
  lemma {:induction false} Escaped8(b: seq<nat>, c: nat, out: seq<int>, raw: seq<nat>, rest: Literal, n: nat) returns (l: Literal)
    requires c <= |b| && (c < |b| ==> !Plain(b[c])) && After8(b, c, out).More?
    requires Derives(b, After8(b, c, out).at, rest, n)
    ensures l.More? && l.raw == raw && EscapeAt(b, c, l.escape) && Derives(b, c + Width(l.escape), l.rest, n)
    ensures Unescaped(l).Some? && Unescaped(l).value.1 == rest && After8(b, c, out).out == out + [Unescaped(l).value.0]
  {
    ShortIs(b[c + 1]);
    hide ShortFor, Derives, UnicodeEscape;
    if Escape(b[c + 1]).Some? {
      l := Literal.More(raw, Short(Escape(b[c + 1]).value), rest);
    } else {
      l := EscapedCode(b, c, raw, rest, n);
    }
  }

  lemma {:induction false} EscapedCode(b: seq<nat>, c: nat, raw: seq<nat>, rest: Literal, n: nat) returns (l: Literal)
    requires c + 1 < |b| && b[c] == BACKSLASH && b[c + 1] == LETTER_U && UnicodeEscape(b, c + 2).Ok?
    requires Derives(b, UnicodeEscape(b, c + 2).next, rest, n)
    ensures l.More? && l.raw == raw && EscapeAt(b, c, l.escape) && Derives(b, c + Width(l.escape), l.rest, n)
    ensures Unescaped(l) == Some((UnicodeEscape(b, c + 2).value, rest))
  {
    hide Hex, FourHex, Pair, Derives, SecondHalf;
    var v := Hex(b, c + 2, 4, 0).value;
    FourHexIs(b, c + 2, v);
    if IsHigh(v) {
      var low := SecondCode(b, c + 6, v);
      l := Literal.More(raw, Code(v), Literal.More([], Code(low), rest));
      NoRaw(b, c + 6, Code(low), rest, n);
    } else {
      l := Literal.More(raw, Code(v), rest);
    }
  }

  /** The second half of a pair, as the escape it is. */
  lemma {:induction false} SecondCode(b: seq<nat>, q: nat, first: nat) returns (low: nat)
    requires q <= |b| && IsHigh(first) && SecondHalf(b, q, first).Ok?
    ensures EscapeAt(b, q, Code(low)) && IsLow(low) && SecondHalf(b, q, first) == Ok(Pair(first, low), q + 6)
  {
    hide Hex, FourHex, Pair;
    low := Hex(b, q + 2, 4, 0).value;
    FourHexIs(b, q + 2, low);
  }

  lemma {:induction false} NoRaw(b: seq<nat>, p: nat, e: Escaped, rest: Literal, n: nat)
    requires EscapeAt(b, p, e) && Derives(b, p + Width(e), rest, n)
    ensures Derives(b, p, Literal.More([], e, rest), n)
  {
    assert RawAt(b, p, []);
    assert p + |Literal.More([], e, rest).raw| == p;
  }

  /** Output so far, and what a literal that goes on means. */
  lemma {:induction false} OutputOn(out: seq<int>, l: Literal)
    requires l.More? && Unescaped(l).Some? && Decode8(l.raw).Some? && Meaning8(Unescaped(l).value.1).Some?
    ensures Meaning8(l).Some?
    ensures out + Decode8(l.raw).value + [Unescaped(l).value.0] + Meaning8(Unescaped(l).value.1).value == out + Meaning8(l).value
  {
    MeaningIs(l);
    hide Decode8, Unescaped, Meaning8;
    var raw, x := Decode8(l.raw).value, Unescaped(l).value;
    assert out + raw + [x.0] + Meaning8(x.1).value == out + (raw + [x.0] + Meaning8(x.1).value);
  }

  lemma {:induction false} LastTurn8(b: seq<nat>, p: nat, out: seq<int>) returns (l: Literal)
    requires p <= |b| && Turn8(b, p, out).Done? && Turn8(b, p, out).outcome.Ok?
    ensures Derives(b, p, l, Turn8(b, p, out).outcome.next)
    ensures Meaning8(l).Some? && Turn8(b, p, out).outcome.value == out + Meaning8(l).value
  {
    var c := ChunkEnd(b, p);
    ChunkRaw(b, p);
    TextIs(b, p);
    hide Decode8, RawAt, ChunkEnd, TextOf, Meaning8, UnicodeEscape;
    l := End(b[p..c]);
    MeaningIs(l);
  }

  lemma {:induction false} Turn8Is(b: seq<nat>, p: nat, out: seq<int>)
    requires p <= |b|
    ensures var c := ChunkEnd(b, p);
            && RawAt(b, p, b[p..c])
            && (Turn8(b, p, out).More? ==>
                  Decode8(b[p..c]).Some? && Turn8(b, p, out) == After8(b, c, out + Decode8(b[p..c]).value))
  {
    ChunkRaw(b, p);
    TextIs(b, p);
    hide Decode8, RawAt, ChunkEnd, TextOf, After8;
  }

  lemma {:induction false} MoreTurn8(b: seq<nat>, p: nat, out: seq<int>, rest: Literal, n: nat) returns (l: Literal)
    requires p <= |b| && Turn8(b, p, out).More? && Derives(b, Turn8(b, p, out).at, rest, n)
    ensures Derives(b, p, l, n) && l.More? && Decode8(l.raw).Some? && Unescaped(l).Some? && Unescaped(l).value.1 == rest
    ensures Turn8(b, p, out).out == out + Decode8(l.raw).value + [Unescaped(l).value.0]
  {
    hide *;
    Turn8Is(b, p, out);
    var c := ChunkEnd(b, p);
    var raw := b[p..c];
    l := Escaped8(b, c, out + Decode8(raw).value, raw, rest, n);
    assert p + |raw| == c;
    DerivesMore(b, p, l, n);
  }

  lemma {:induction false} DerivesMore(b: seq<nat>, p: nat, l: Literal, n: nat)
    requires l.More? && RawAt(b, p, l.raw) && EscapeAt(b, p + |l.raw|, l.escape)
    requires Derives(b, p + |l.raw| + Width(l.escape), l.rest, n)
    ensures Derives(b, p, l, n)
  {
    hide RawAt, EscapeAt;
  }

  lemma {:induction false} Sound8(b: seq<nat>, p: nat, out: seq<int>) returns (l: Literal)
    requires p <= |b| && String8(b, p, out).Ok?
    ensures Derives(b, p, l, String8(b, p, out).next)
    ensures Meaning8(l).Some? && String8(b, p, out).value == out + Meaning8(l).value
    decreases |b| - p
  {
    hide Decode8, Unescaped, Meaning8, Turn8, Derives;
    var t := Turn8(b, p, out);
    if t.More? {
      var rest := Sound8(b, t.at, t.out);
      l := MoreTurn8(b, p, out, rest, String8(b, p, out).next);
      OutputOn(out, l);
    } else {
      l := LastTurn8(b, p, out);
    }
  }

  // ---------- both ----------

  lemma {:induction false} NoOutput<T>(s: seq<T>)
    ensures [] + s == s
  {
  }

  lemma {:induction false} StringSound(src: Input, q: nat) returns (l: Literal)
    requires q < |src.units| && Valid(src) && String(src, q).Ok?
    ensures Derives(src.units, q + 1, l, String(src, q).next) && Meaning(src.utf16, l) == Some(String(src, q).value)
  {
    hide Units16, String8, Join, Derives, Meaning8, Words;
    if src.utf16 {
      Words16(src.units, q + 1);
      l := Sound16(src.units, q + 1, []);
      NoOutput(Spelled(l));
    } else {
      l := Sound8(src.units, q + 1, []);
      NoOutput(Meaning8(l).value);
    }
  }

  lemma {:induction false} StringComplete(src: Input, q: nat, l: Literal, n: nat)
    requires q < |src.units| && Valid(src) && Derives(src.units, q + 1, l, n) && Meaning(src.utf16, l).Some?
    ensures String(src, q) == Ok(Meaning(src.utf16, l).value, n)
  {
    hide Units16, String8, Join, Derives, Meaning8, Words;
    if src.utf16 {
      Words16(src.units, q + 1);
      Complete16(src.units, q + 1, l, n, []);
      NoOutput(Spelled(l));
    } else {
      Complete8(src.units, q + 1, l, n, []);
      NoOutput(Meaning8(l).value);
    }
  }

  /** A string is read from q to n, as s, if and only if a literal with that meaning is written there. */
  lemma {:induction false} StringIff(src: Input, q: nat, s: seq<int>, n: nat)
    requires q < |src.units| && Valid(src) && src.units[q] == QUOTE
    ensures String(src, q) == Ok(s, n) <==> LiteralAt(src, q, s, n)
  {
    hide String, Derives, Meaning;
    if String(src, q) == Ok(s, n) {
      var l := StringSound(src, q);
    }
    forall l | Derives(src.units, q + 1, l, n) && Meaning(src.utf16, l) == Some(s)
      ensures String(src, q) == Ok(s, n)
    {
      StringComplete(src, q, l, n);
    }
  }

  lemma {:induction false} Words16(u: seq<nat>, p: nat)
    requires p <= |u| && Words(u)
    ensures Units16(u, p, []).Ok? ==> Words(Units16(u, p, []).value)
  {
    Units16Words(u, p, []);
  }
}
