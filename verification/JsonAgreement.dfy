// The two readers of JSON strings agree: on every text, its UTF-8 form and its UTF-16 form are accepted
// together, decode to the same string and end at corresponding places.

module JsonAgreement {
  import opened Options
  import opened Unicode
  import opened JsonString
  import I = Integers

  // ---------- places in a text, counted in units of either encoding ----------

  function UnitsOf(wide: bool, c: Scalar): (r: seq<nat>)
    ensures r != [] && (c < 0x80 ==> r == [c]) && (c >= 0x80 ==> forall i :: 0 <= i < |r| ==> r[i] >= 0x80)
  {
    if wide then Utf16Of(c) else Utf8Of(c)
  }

  function Units(wide: bool, s: Text): seq<nat> {
    if wide then Utf16(s) else Utf8(s)
  }

  lemma {:induction false} UnitsPush(wide: bool, s: Text, c: Scalar)
    ensures Units(wide, s + [c]) == Units(wide, s) + UnitsOf(wide, c) && Units(wide, []) == []
  {
    Utf16Push(s, c);
    Utf8Push(s, c);
  }

  lemma {:induction false} UnitsJoin(wide: bool, s: Text, t: Text)
    ensures Units(wide, s + t) == Units(wide, s) + Units(wide, t)
    decreases |t|
  {
    hide Units, UnitsOf;
    if t == [] {
      assert s + t == s;
      UnitsPush(wide, s, 0);
    } else {
      var n := |t| - 1;
      var u, c := t[..n], t[n];
      assert t == u + [c] && s + t == (s + u) + [c];
      UnitsJoin(wide, s, u);
      UnitsPush(wide, s + u, c);
      UnitsPush(wide, u, c);
    }
  }

  /** The offset, in units, of character k. */
  function Off(wide: bool, text: Text, k: nat): nat
    requires k <= |text|
  {
    |Units(wide, text[..k])|
  }

  /** The characters from k to j, in the encoded text. */
  lemma {:induction false} Slice(wide: bool, text: Text, k: nat, j: nat)
    requires k <= j <= |text|
    ensures Off(wide, text, k) <= Off(wide, text, j) <= |Units(wide, text)| == Off(wide, text, |text|)
    ensures Units(wide, text)[Off(wide, text, k)..Off(wide, text, j)] == Units(wide, text[k..j])
    ensures Off(wide, text, j) == Off(wide, text, k) + |Units(wide, text[k..j])|
  {
    hide Units;
    assert text == text[..j] + text[j..] && text[..j] == text[..k] + text[k..j] && text[..|text|] == text;
    UnitsJoin(wide, text[..j], text[j..]);
    UnitsJoin(wide, text[..k], text[k..j]);
  }

  /** Character k, in the encoded text. */
  lemma {:induction false} OneChar(wide: bool, text: Text, k: nat)
    requires k < |text|
    ensures var p, n := Off(wide, text, k), Off(wide, text, k + 1);
            n == p + |UnitsOf(wide, text[k])| <= |Units(wide, text)| && Units(wide, text)[p..n] == UnitsOf(wide, text[k])
  {
    hide Units, UnitsOf, Off;
    Slice(wide, text, k, k + 1);
    assert text[k..k + 1] == [] + [text[k]];
    UnitsPush(wide, [], text[k]);
  }

  lemma {:induction false} SliceIs(u: seq<nat>, p: nat, n: nat, v: seq<nat>)
    requires p <= n <= |u| && u[p..n] == v
    ensures forall i :: p <= i < n ==> u[i] == v[i - p]
  {
    assert forall i :: p <= i < n ==> u[i] == u[p..n][i - p];
  }

  /** The units of character k: itself if it is ASCII, units above ASCII if it is not. */
  lemma {:induction false} At(wide: bool, text: Text, k: nat)
    requires k < |text|
    ensures var u, p, n := Units(wide, text), Off(wide, text, k), Off(wide, text, k + 1);
            && p < n <= |u|
            && (text[k] < 0x80 ==> n == p + 1 && u[p] == text[k])
            && (text[k] >= 0x80 ==> forall i :: p <= i < n ==> u[i] >= 0x80)
  {
    hide Units, UnitsOf, Off;
    OneChar(wide, text, k);
    SliceIs(Units(wide, text), Off(wide, text, k), Off(wide, text, k + 1), UnitsOf(wide, text[k]));
  }

  // ---------- chunks ----------

  function TextChunk(text: Text, k: nat): (j: nat)
    requires k <= |text|
    ensures k <= j <= |text| && (j < |text| ==> !Plain(text[j])) && (j > k ==> Plain(text[k]))
    decreases |text| - k
  {
    if k < |text| && Plain(text[k]) then TextChunk(text, k + 1) else k
  }

  lemma {:induction false} ChunkSkip(u: seq<nat>, p: nat, n: nat)
    requires p <= n <= |u| && forall i :: p <= i < n ==> Plain(u[i])
    ensures ChunkEnd(u, p) == ChunkEnd(u, n)
    decreases n - p
  {
    if p < n { ChunkSkip(u, p + 1, n); }
  }

  /** Chunks end at the same character in either encoding. */
  lemma {:induction false} ChunkAgrees(wide: bool, text: Text, k: nat)
    requires k <= |text|
    ensures Off(wide, text, k) <= |Units(wide, text)|
    ensures ChunkEnd(Units(wide, text), Off(wide, text, k)) == Off(wide, text, TextChunk(text, k))
    decreases |text| - k
  {
    hide Units, UnitsOf, Off;
    Slice(wide, text, k, |text|);
    if k < |text| {
      At(wide, text, k);
      if Plain(text[k]) {
        var p, n := Off(wide, text, k), Off(wide, text, k + 1);
        ChunkSkip(Units(wide, text), p, n);
        ChunkAgrees(wide, text, k + 1);
      }
    }
  }

  /** `text(span).unwrap()` does not fail: chunks of UTF-8 text begin and end between characters. */
  lemma {:induction false} ChunkText(text: Text, k: nat, j: nat)
    requires k <= j <= |text|
    ensures Off(false, text, k) <= Off(false, text, j) <= |Utf8(text)|
    ensures TextOf(Utf8(text), Off(false, text, k), Off(false, text, j)) == Some(text[k..j])
  {
    Slice(false, text, k, j);
    BoundaryAt(text, k);
    BoundaryAt(text, j);
    DecodeUtf8(text[k..j]);
  }

  lemma {:induction false} BoundaryAt(text: Text, k: nat)
    requires k <= |text|
    ensures Boundary(Utf8(text), Off(false, text, k))
  {
    Slice(false, text, k, |text|);
    if k < |text| {
      OneChar(false, text, k);
      SliceIs(Units(false, text), Off(false, text, k), Off(false, text, k + 1), UnitsOf(false, text[k]));
    }
  }

  // ---------- hexadecimal escapes ----------

  /** The value of `left` hexadecimal digits at character k. */
  function HexText(text: Text, k: nat, left: nat, value: nat): (r: Option<nat>)
    requires k <= |text|
    ensures r.Some? ==> k + left <= |text|
    decreases left
  {
    if left == 0 then Some(value)
    else if k == |text| then None
    else
      match HexDigit(text[k])
      case None => None
      case Some(d) => HexText(text, k + 1, left - 1, value * 16 + d)
  }

  lemma {:induction false} NotHex(c: nat)
    requires c >= 0x80
    ensures HexDigit(c).None?
  {
  }

  lemma {:induction false} HexAgrees(wide: bool, text: Text, k: nat, left: nat, value: nat)
    requires k <= |text|
    ensures Off(wide, text, k) <= |Units(wide, text)|
    ensures var r := Hex(Units(wide, text), Off(wide, text, k), left, value);
            match HexText(text, k, left, value)
            case Some(v) => r == Ok(v, Off(wide, text, k + left))
            case None => r.Err?
    decreases left
  {
    hide Units, UnitsOf, Off, HexDigit;
    Slice(wide, text, k, |text|);
    if left > 0 && k < |text| {
      At(wide, text, k);
      var c := text[k];
      if c >= 0x80 {
        NotHex(c);
        NotHex(Units(wide, text)[Off(wide, text, k)]);
      } else {
        if HexDigit(c).Some? {
          HexAgrees(wide, text, k + 1, left - 1, value * 16 + HexDigit(c).value);
        }
      }
    }
  }

  // ---------- turns, seen in the text ----------

  /** What follows a chunk: the closing quote, a character or a code unit written as an escape, or a mistake. */
  datatype Event = Close(j: nat) | Bad | Char(x: nat, j: nat) | Unit(v: nat, j: nat)

  function EventAt(text: Text, c: nat): (e: Event)
    requires c <= |text| && (c < |text| ==> !Plain(text[c]))
    ensures !e.Bad? ==> c < e.j <= |text|
    ensures e.Char? ==> e.x < 0x80
    ensures e.Char? || e.Unit? ==> text[c] == BACKSLASH
  {
    if c == |text| then Bad
    else if text[c] == QUOTE then Close(c + 1)
    else if text[c] < 0x20 then Bad
    else if c + 1 == |text| then Bad
    else
      match Escape(text[c + 1])
      case Some(x) => Char(x, c + 2)
      case None =>
        if text[c + 1] != LETTER_U then Bad
        else
          match HexText(text, c + 2, 4, 0)
          case None => Bad
          case Some(v) => Unit(v, c + 6)
  }

  /** The second half of a surrogate pair, if it is written at character j. */
  function Second(text: Text, j: nat): (r: Option<(nat, nat)>)
    requires j <= |text|
    ensures r.Some? ==> IsLow(r.value.0) && j < r.value.1 <= |text|
  {
    if j < |text| && text[j] == BACKSLASH then
      match EventAt(text, j)
      case Unit(v, n) => if IsLow(v) then Some((v, n)) else None
      case _ => None
    else None
  }

  /** The two units at and after the chunk are those of the text. */
  lemma {:induction false} Peek(wide: bool, text: Text, c: nat)
    requires c <= |text| && (c < |text| ==> !Plain(text[c]))
    ensures var u, p := Units(wide, text), Off(wide, text, c);
            && p <= |u| && (c == |text| <==> p == |u|)
            && (c < |text| ==> u[p] == text[c] < 0x80 && Off(wide, text, c + 1) == p + 1 && (c + 1 == |text| <==> p + 1 == |u|))
            && (c + 1 < |text| && text[c + 1] < 0x80 ==> u[p + 1] == text[c + 1] && Off(wide, text, c + 2) == p + 2)
            && (c + 1 < |text| && text[c + 1] >= 0x80 ==> u[p + 1] >= 0x80)
  {
    hide Units, UnitsOf, Off;
    Slice(wide, text, c, |text|);
    if c < |text| {
      At(wide, text, c);
      Slice(wide, text, c + 1, |text|);
      if c + 1 < |text| { At(wide, text, c + 1); }
    }
  }

  lemma {:induction false} EscapeAscii(c: nat)
    requires c >= 0x80
    ensures Escape(c).None? && c != LETTER_U
  {
  }

  /** After a chunk of UTF-16. */
  lemma {:induction false} After16At(text: Text, c: nat, out: seq<nat>)
    requires c <= |text| && (c < |text| ==> !Plain(text[c]))
    ensures Off(true, text, c) <= |Utf16(text)|
    ensures var t := After16(Utf16(text), Off(true, text, c), out);
            match EventAt(text, c)
            case Bad => t.Done? && t.outcome.Err?
            case Close(j) => t == Done(Ok(out, Off(true, text, j)))
            case Char(x, j) => t == More(out + [x], Off(true, text, j))
            case Unit(v, j) => t == More(out + [v], Off(true, text, j))
  {
    assert Units(true, text) == Utf16(text);
    hide Units, Off, Utf16, Hex, HexText, Escape;
    Peek(true, text, c);
    if c + 1 < |text| && text[c] == BACKSLASH {
      if text[c + 1] >= 0x80 {
        EscapeAscii(text[c + 1]);
        EscapeAscii(Utf16(text)[Off(true, text, c) + 1]);
      } else if Escape(text[c + 1]).None? && text[c + 1] == LETTER_U {
        HexAgrees(true, text, c + 2, 4, 0);
      }
    }
  }

  /** One turn over UTF-16. */
  lemma {:induction false} Turn16At(text: Text, k: nat, out: seq<nat>)
    requires k <= |text|
    ensures Off(true, text, k) <= |Utf16(text)|
    ensures var c := TextChunk(text, k);
            var t := Turn16(Utf16(text), Off(true, text, k), out);
            var out1 := out + Utf16(text[k..c]);
            match EventAt(text, c)
            case Bad => t.Done? && t.outcome.Err?
            case Close(j) => t == Done(Ok(out1, Off(true, text, j)))
            case Char(x, j) => t == More(out1 + [x], Off(true, text, j))
            case Unit(v, j) => t == More(out1 + [v], Off(true, text, j))
  {
    var c := TextChunk(text, k);
    assert Units(true, text) == Utf16(text) && Units(true, text[k..c]) == Utf16(text[k..c]);
    hide Units, Off, Utf16, ChunkEnd, TextChunk, After16, EventAt;
    ChunkAgrees(true, text, k);
    Slice(true, text, k, c);
    After16At(text, c, out + Utf16(text[k..c]));
  }

  /** The second half of a pair over UTF-8. */
  lemma {:induction false} SecondHalfAt(text: Text, j: nat, first: nat)
    requires j <= |text| && IsHigh(first)
    ensures Off(false, text, j) <= |Utf8(text)|
    ensures var r := SecondHalf(Utf8(text), Off(false, text, j), first);
            match Second(text, j)
            case Some(p) => r == Ok(Pair(first, p.0), Off(false, text, p.1))
            case None => r.Err? && r.code != UnwrapFailed
  {
    assert Units(false, text) == Utf8(text);
    hide Units, Off, Utf8, Hex, HexText, Second, Pair, SecondHalf;
    SecondPeek(text, j);
    SecondIs(text, j);
    SecondHalfIs(Utf8(text), Off(false, text, j), first);
    if j + 1 < |text| && text[j] == BACKSLASH && text[j + 1] == LETTER_U {
      HexAgrees(false, text, j + 2, 4, 0);
      HexCodes(Utf8(text), Off(false, text, j) + 2, 4, 0);
    }
  }

  /** A second escape is seen in the bytes exactly if it is in the text. */
  lemma {:induction false} SecondPeek(text: Text, j: nat)
    requires j <= |text|
    ensures var u, q := Units(false, text), Off(false, text, j);
            && q <= |u|
            && (q + 1 < |u| && u[q] == BACKSLASH && u[q + 1] == LETTER_U <==>
                j + 1 < |text| && text[j] == BACKSLASH && text[j + 1] == LETTER_U)
            && (j + 1 < |text| && text[j] == BACKSLASH && text[j + 1] == LETTER_U ==> Off(false, text, j + 2) == q + 2)
  {
    hide Units, Off;
    Slice(false, text, j, |text|);
    if j < |text| {
      At(false, text, j);
      if text[j] == BACKSLASH { Peek(false, text, j); }
    }
  }

  lemma {:induction false} SecondHalfIs(u: seq<nat>, q: nat, first: nat)
    requires q <= |u| && IsHigh(first)
    ensures var r := SecondHalf(u, q, first);
            if q + 1 < |u| && u[q] == BACKSLASH && u[q + 1] == LETTER_U then
              match Hex(u, q + 2, 4, 0)
              case Ok(v, n) => if IsLow(v) then r == Ok(Pair(first, v), n) else r.Err? && r.code != UnwrapFailed
              case Err(code, _, _) => r.Err? && r.code == code
            else r.Err? && r.code != UnwrapFailed
  {
    hide Hex, Pair;
  }

  lemma {:induction false} SecondIs(text: Text, j: nat)
    requires j <= |text|
    ensures if j + 1 < |text| && text[j] == BACKSLASH && text[j + 1] == LETTER_U
               && HexText(text, j + 2, 4, 0).Some? && IsLow(HexText(text, j + 2, 4, 0).value)
            then Second(text, j).Some? && Second(text, j).value == (HexText(text, j + 2, 4, 0).value, j + 6)
            else Second(text, j).None?
  {
    hide HexText;
  }

  lemma {:induction false} HexCodes(u: seq<nat>, p: nat, left: nat, value: nat)
    ensures p <= |u| && Hex(u, p, left, value).Err? ==> Hex(u, p, left, value).code != UnwrapFailed
    decreases left
  {
    if left > 0 && p < |u| && HexDigit(u[p]).Some? { HexCodes(u, p + 1, left - 1, value * 16 + HexDigit(u[p]).value); }
  }

  /** What an escaped code unit comes to over UTF-8: a character and where it ends, or a mistake. */
  function Decoded(text: Text, v: nat, j: nat): (r: Option<Located>)
    requires j <= |text|
    ensures r.Some? ==> j <= r.value.end <= |text|
  {
    if IsLow(v) then None
    else if !IsHigh(v) then Some(Located(v, j))
    else
      match Second(text, j)
      case Some(p) => Some(Located(Pair(v, p.0), p.1))
      case None => None
  }

  datatype Located = Located(c: nat, end: nat)

  /** A backslash with something behind it, over UTF-8. */
  lemma {:induction false} Escape8At(text: Text, c: nat, out: seq<int>)
    requires c + 1 < |text| && text[c] == BACKSLASH
    ensures Off(false, text, c) + 1 < |Utf8(text)|
    ensures var b, q := Utf8(text), Off(false, text, c);
            && b[q] == BACKSLASH
            && match EventAt(text, c)
               case Bad => After8(b, q, out).Done? && After8(b, q, out).outcome.Err? && After8(b, q, out).outcome.code != UnwrapFailed
               case Close(_) => false
               case Char(x, j) => After8(b, q, out) == More(out + [x], Off(false, text, j))
               case Unit(v, j) =>
                 match Decoded(text, v, j)
                 case Some(p) => After8(b, q, out) == More(out + [p.c], Off(false, text, p.end))
                 case None => After8(b, q, out).Done? && After8(b, q, out).outcome.Err? && After8(b, q, out).outcome.code != UnwrapFailed
  {
    assert Units(false, text) == Utf8(text);
    hide Units, Off, Utf8, Hex, HexText, Escape, UnicodeEscape, Decoded, After8, EventAt;
    Peek(false, text, c);
    var b, q := Utf8(text), Off(false, text, c);
    After8Escape(b, q, out);
    EventEscape(text, c);
    if text[c + 1] >= 0x80 {
      EscapeAscii(text[c + 1]);
      EscapeAscii(b[q + 1]);
    } else if Escape(text[c + 1]).None? && text[c + 1] == LETTER_U {
      UnicodeEscapeAt(text, c + 2);
    }
  }

  lemma {:induction false} After8Escape(b: seq<nat>, q: nat, out: seq<int>)
    requires q + 1 < |b| && b[q] == BACKSLASH
    ensures After8(b, q, out) == match Escape(b[q + 1])
                                 case Some(x) => More(out + [x], q + 2)
                                 case None =>
                                   if b[q + 1] != LETTER_U then Done(Err(InvalidEscape, q + 1, q + 2))
                                   else
                                     match UnicodeEscape(b, q + 2)
                                     case Ok(c, n) => More(out + [c], n)
                                     case Err(code, at, n) => Done(Err(code, at, n))
  {
    hide Escape, UnicodeEscape;
  }

  lemma {:induction false} EventEscape(text: Text, c: nat)
    requires c + 1 < |text| && text[c] == BACKSLASH
    ensures EventAt(text, c) == match Escape(text[c + 1])
                                case Some(x) => Char(x, c + 2)
                                case None =>
                                  if text[c + 1] != LETTER_U then Bad
                                  else
                                    match HexText(text, c + 2, 4, 0)
                                    case None => Bad
                                    case Some(v) => Unit(v, c + 6)
  {
    hide Escape, HexText;
  }

  /** After a chunk of UTF-8. */
  lemma {:induction false} After8At(text: Text, c: nat, out: seq<int>)
    requires c <= |text| && (c < |text| ==> !Plain(text[c]))
    ensures Off(false, text, c) <= |Utf8(text)|
    ensures var t := After8(Utf8(text), Off(false, text, c), out);
            match EventAt(text, c)
            case Bad => t.Done? && t.outcome.Err? && t.outcome.code != UnwrapFailed
            case Close(j) => t == Done(Ok(out, Off(false, text, j)))
            case Char(x, j) => t == More(out + [x], Off(false, text, j))
            case Unit(v, j) =>
              match Decoded(text, v, j)
              case Some(p) => t == More(out + [p.c], Off(false, text, p.end))
              case None => t.Done? && t.outcome.Err? && t.outcome.code != UnwrapFailed
  {
    assert Units(false, text) == Utf8(text);
    hide Units, Off, Utf8, Decoded;
    if c + 1 < |text| && text[c] == BACKSLASH {
      hide After8, EventAt;
      Escape8At(text, c, out);
    } else {
      hide Hex, HexText, Escape, UnicodeEscape;
      Peek(false, text, c);
    }
  }

  lemma {:induction false} UnicodeEscapeAt(text: Text, k: nat)
    requires k <= |text|
    ensures Off(false, text, k) <= |Utf8(text)|
    ensures var r := UnicodeEscape(Utf8(text), Off(false, text, k));
            match HexText(text, k, 4, 0)
            case None => r.Err? && r.code != UnwrapFailed
            case Some(v) =>
              match Decoded(text, v, k + 4)
              case Some(p) => r == Ok(p.c, Off(false, text, p.end))
              case None => r.Err? && r.code != UnwrapFailed
  {
    assert Units(false, text) == Utf8(text);
    hide Units, Off, Utf8, Hex, HexText, SecondHalf, Second, Pair;
    HexAgrees(false, text, k, 4, 0);
    HexCodes(Utf8(text), Off(false, text, k), 4, 0);
    var h := HexText(text, k, 4, 0);
    if h.Some? && IsHigh(h.value) { SecondHalfAt(text, k + 4, h.value); }
  }

  /** One turn over UTF-8. */
  lemma {:induction false} Turn8At(text: Text, k: nat, out: seq<int>)
    requires k <= |text|
    ensures Off(false, text, k) <= |Utf8(text)|
    ensures var c := TextChunk(text, k);
            var t := Turn8(Utf8(text), Off(false, text, k), out);
            var out1 := out + text[k..c];
            match EventAt(text, c)
            case Bad => t.Done? && t.outcome.Err? && t.outcome.code != UnwrapFailed
            case Close(j) => t == Done(Ok(out1, Off(false, text, j)))
            case Char(x, j) => t == More(out1 + [x], Off(false, text, j))
            case Unit(v, j) =>
              match Decoded(text, v, j)
              case Some(p) => t == More(out1 + [p.c], Off(false, text, p.end))
              case None => t.Done? && t.outcome.Err? && t.outcome.code != UnwrapFailed
  {
    var c := TextChunk(text, k);
    assert Units(false, text) == Utf8(text);
    hide Units, Off, Utf8, ChunkEnd, TextChunk, After8, EventAt, TextOf, Decoded;
    ChunkAgrees(false, text, k);
    ChunkText(text, k, c);
    After8At(text, c, out + text[k..c]);
  }

  // ---------- agreement ----------

  /** Reading on can not save output that has a surrogate without its other half. */
  lemma {:induction false} Spoilt(text: Text, k: nat, s: Text, rest: seq<nat>)
    requires k <= |text| && Words(rest) && rest != []
    requires IsLow(rest[0]) || (IsHigh(rest[0]) && |rest| > 1 && !IsLow(rest[1]))
    ensures Off(true, text, k) <= |Utf16(text)|
    ensures var r := Units16(Utf16(text), Off(true, text, k), Utf16(s) + rest);
            r.Ok? ==> Words(r.value) && Join(r.value).None?
  {
    assert Units(true, text) == Utf16(text);
    hide Units, Off, Utf16, Join, Units16;
    Slice(true, text, k, |text|);
    Utf16Words(text);
    Utf16Words(s);
    var out := Utf16(s) + rest;
    WordsJoin(Utf16(s), rest);
    Units16Words(Utf16(text), Off(true, text, k), out);
    var r := Units16(Utf16(text), Off(true, text, k), out);
    if r.Ok? {
      var tail := r.value[|Utf16(s)|..];
      PrefixTail(Utf16(s), rest, r.value);
      LoneSpoils(s, tail);
    }
  }

  lemma {:induction false} PrefixTail(s: seq<nat>, rest: seq<nat>, w: seq<nat>)
    requires s + rest <= w && Words(w)
    ensures w == s + w[|s|..] && rest <= w[|s|..] && Words(w[|s|..])
  {
    assert w[..|s + rest|] == s + rest;
    assert w[..|s|] == (s + rest)[..|s|] == s;
    assert w[|s|..][..|rest|] == (s + rest)[|s|..] == rest;
  }

  /** A high surrogate with no second half written next to it dooms the literal. */
  lemma {:induction false} Doomed(text: Text, j: nat, s: Text, high: nat)
    requires j <= |text| && IsHigh(high) && Second(text, j).None?
    ensures Off(true, text, j) <= |Utf16(text)|
    ensures var r := Units16(Utf16(text), Off(true, text, j), Utf16(s) + [high]);
            r.Ok? ==> Words(r.value) && Join(r.value).None?
  {
    hide Utf16, Turn16, TextChunk, Join, Off, Words, EventAt, Second, Units16, Plain;
    var c := TextChunk(text, j);
    var out := Utf16(s) + [high];
    var chunk := Utf16(text[j..c]);
    var e := EventAt(text, c);
    ChunkHead(text, j, c);
    Utf16Words(text[j..c]);
    HexUnit(text, c);
    SecondUnit(text, j, c);
    Turn16At(text, j, out);
    Units16Is(Utf16(text), Off(true, text, j), out);
    if e.Close? {
      assert out + chunk == Utf16(s) + ([high] + chunk);
      EndsLone(s, high, chunk);
    } else if e.Char? {
      DoomedMore(text, e.j, s, high, chunk, e.x);
    } else if e.Unit? {
      DoomedMore(text, e.j, s, high, chunk, e.v);
    }
  }

  lemma {:induction false} SecondUnit(text: Text, j: nat, c: nat)
    requires j <= |text| && c == TextChunk(text, j) && Second(text, j).None?
    ensures c == j && EventAt(text, c).Unit? ==> !IsLow(EventAt(text, c).v)
  {
    hide HexText, Escape;
  }

  lemma {:induction false} DoomedMore(text: Text, n: nat, s: Text, high: nat, chunk: seq<nat>, x: nat)
    requires n <= |text| && IsHigh(high) && Words(chunk) && x < 0x10000
    requires if chunk == [] then !IsLow(x) else !IsLow(chunk[0])
    ensures Off(true, text, n) <= |Utf16(text)|
    ensures var r := Units16(Utf16(text), Off(true, text, n), Utf16(s) + [high] + chunk + [x]);
            r.Ok? ==> Words(r.value) && Join(r.value).None?
  {
    hide Utf16, Units16, Join, Off;
    var rest := [high] + chunk + [x];
    assert Utf16(s) + [high] + chunk + [x] == Utf16(s) + rest;
    LoneWords(high, chunk, x);
    Spoilt(text, n, s, rest);
  }

  lemma {:induction false} LoneWords(high: nat, chunk: seq<nat>, x: nat)
    requires Words(chunk) && x < 0x10000 && IsHigh(high)
    ensures Words([high] + chunk + [x])
  {
  }

  lemma {:induction false} EndsLone(s: Text, high: nat, chunk: seq<nat>)
    requires Words(chunk) && IsHigh(high) && (chunk == [] || !IsLow(chunk[0]))
    ensures Words(Utf16(s) + ([high] + chunk)) && Join(Utf16(s) + ([high] + chunk)).None?
  {
    LoneSpoils(s, [high] + chunk);
  }

  lemma {:induction false} HexUnit(text: Text, c: nat)
    requires c <= |text| && (c < |text| ==> !Plain(text[c]))
    ensures var e := EventAt(text, c); e.Unit? ==> e.v < 0x10000
  {
    if EventAt(text, c).Unit? {
      HexAgrees(true, text, c + 2, 4, 0);
      Hex4Bound(Units(true, text), Off(true, text, c + 2));
    }
  }

  /** The first unit of a chunk is not a low surrogate, and a chunk that is not empty does not begin at a backslash. */
  lemma {:induction false} ChunkHead(text: Text, j: nat, c: nat)
    requires j <= c <= |text|
    ensures var chunk := Utf16(text[j..c]); (c == j <==> chunk == []) && (c > j ==> !IsLow(chunk[0]))
  {
    if c > j {
      assert text[j..c] == [text[j]] + text[j + 1..c];
      Utf16Cons(text[j], text[j + 1..c]);
    } else {
      assert text[j..c] == [];
    }
  }

  /** The UTF-16 reader from a place, joined: what `parse_string` makes of the rest of the literal. */
  ghost predicate Corresponds(text: Text, r8: Outcome<seq<int>>, r16: Outcome<seq<nat>>) {
    if r8.Ok? then
      && r16.Ok? && Words(r16.value) && Join(r16.value).Some? && Join(r16.value).value == r8.value
      && exists j: nat :: j <= |text| && r8.next == Off(false, text, j) && r16.next == Off(true, text, j)
    else
      r8.code != UnwrapFailed && (r16.Ok? ==> Words(r16.value) && Join(r16.value).None?)
  }

  /** Output so far, as text and as its units, with one more character at the end. */
  lemma {:induction false} PushOutput(out: Text, chunk: Text, x: Scalar)
    ensures Utf16(out) + Utf16(chunk) + Utf16Of(x) == Utf16(out + chunk + [x])
  {
    UnitsJoin(true, out, chunk);
    Utf16Push(out + chunk, x);
    hide Utf16, Utf16Of;
  }

  lemma {:induction false} SmallUnit(x: nat)
    requires x < 0x10000 && !IsHigh(x) && !IsLow(x)
    ensures IsScalar(x) && Utf16Of(x) == [x]
  {
  }

  lemma {:induction false} PairUnits(high: nat, low: nat)
    requires IsHigh(high) && IsLow(low)
    ensures Utf16Of(Pair(high, low)) == [high, low]
  {
  }

  lemma {:induction false} Closed(text: Text, out: Text, chunk: Text, j: nat)
    requires j <= |text|
    ensures Corresponds(text, Ok(out + chunk, Off(false, text, j)), Ok(Utf16(out) + Utf16(chunk), Off(true, text, j)))
  {
    UnitsJoin(true, out, chunk);
    JoinUtf16(out + chunk);
    hide Utf16, Join, Off;
  }

  lemma {:induction false} String8Is(b: seq<nat>, p: nat, out: seq<int>)
    requires p <= |b|
    ensures var t := Turn8(b, p, out); String8(b, p, out) == if t.Done? then t.outcome else String8(b, t.at, t.out)
  {
  }

  lemma {:induction false} Units16Is(u: seq<nat>, p: nat, out: seq<nat>)
    requires p <= |u|
    ensures var t := Turn16(u, p, out); Units16(u, p, out) == if t.Done? then t.outcome else Units16(u, t.at, t.out)
  {
  }

  /** From any character on, with corresponding output so far. */
  lemma {:induction false} ReadersAgree(text: Text, k: nat, out: Text)
    requires k <= |text|
    ensures Off(false, text, k) <= |Utf8(text)| && Off(true, text, k) <= |Utf16(text)|
    ensures Corresponds(text, String8(Utf8(text), Off(false, text, k), out), Units16(Utf16(text), Off(true, text, k), Utf16(out)))
    decreases |text| - k, 2
  {
    var c := TextChunk(text, k);
    var chunk := text[k..c];
    var e := EventAt(text, c);
    HexUnit(text, c);
    hide Utf8, Utf16, Utf16Of, Off, TextChunk, Turn8, Turn16, EventAt, Second, Join, Pair, Corresponds, String8, Units16, Words;
    Turn8At(text, k, out);
    Turn16At(text, k, Utf16(out));
    String8Is(Utf8(text), Off(false, text, k), out);
    Units16Is(Utf16(text), Off(true, text, k), Utf16(out));
    if e.Bad? {
      BothFail(text, String8(Utf8(text), Off(false, text, k), out), Units16(Utf16(text), Off(true, text, k), Utf16(out)));
    } else if e.Close? {
      Closed(text, out, chunk, e.j);
    } else if e.Char? {
      CharAgrees(text, k, out, chunk, e.x, e.j);
    } else if !IsHigh(e.v) && !IsLow(e.v) {
      CharAgrees(text, k, out, chunk, e.v, e.j);
    } else {
      SurrogateAgrees(text, k, out, c, chunk, e);
    }
  }

  /** An escape that stands for one character: both readers go on behind it. */
  lemma {:induction false} CharAgrees(text: Text, k: nat, out: Text, chunk: Text, x: nat, j: nat)
    requires k < j <= |text| && x < 0x10000 && !IsHigh(x) && !IsLow(x)
    ensures Off(false, text, j) <= |Utf8(text)| && Off(true, text, j) <= |Utf16(text)|
    ensures Corresponds(text, String8(Utf8(text), Off(false, text, j), out + chunk + [x]),
                        Units16(Utf16(text), Off(true, text, j), Utf16(out) + Utf16(chunk) + [x]))
    decreases |text| - k, 0
  {
    hide Utf8, Utf16, Utf16Of, Off, Corresponds, String8, Units16;
    SmallUnit(x);
    PushOutput(out, chunk, x);
    ReadersAgree(text, j, out + chunk + [x]);
  }

  lemma {:induction false} BothFail(text: Text, r8: Outcome<seq<int>>, r16: Outcome<seq<nat>>)
    requires r8.Err? && r8.code != UnwrapFailed && (r16.Ok? ==> Words(r16.value) && Join(r16.value).None?)
    ensures Corresponds(text, r8, r16)
  {
  }

  lemma {:induction false} SurrogateAgrees(text: Text, k: nat, out: Text, c: nat, chunk: Text, e: Event)
    requires k <= |text| && c == TextChunk(text, k) && chunk == text[k..c] && e == EventAt(text, c)
    requires e.Unit? && (IsHigh(e.v) || IsLow(e.v)) && e.v < 0x10000
    ensures Off(false, text, k) <= |Utf8(text)| && Off(true, text, k) <= |Utf16(text)|
    ensures Corresponds(text, String8(Utf8(text), Off(false, text, k), out), Units16(Utf16(text), Off(true, text, k), Utf16(out)))
    decreases |text| - k, 0
  {
    hide Utf8, Utf16, Utf16Of, Off, TextChunk, Turn8, Turn16, EventAt, Second, Join, Pair, Corresponds, Words, String8, Units16;
    Turn8At(text, k, out);
    Turn16At(text, k, Utf16(out));
    String8Is(Utf8(text), Off(false, text, k), out);
    Units16Is(Utf16(text), Off(true, text, k), Utf16(out));
    var r8, r16 := String8(Utf8(text), Off(false, text, k), out), Units16(Utf16(text), Off(true, text, k), Utf16(out));
    UnitsJoin(true, out, chunk);
    IsUtf16(out, chunk);
    if IsLow(e.v) {
      OneWord(e.v);
      Spoilt(text, e.j, out + chunk, [e.v]);
      BothFail(text, r8, r16);
    } else if Second(text, e.j).None? {
      Doomed(text, e.j, out + chunk, e.v);
      BothFail(text, r8, r16);
    } else {
      PairAgrees(text, e.j, out + chunk, e.v);
    }
  }

  lemma {:induction false} OneWord(x: nat)
    requires x < 0x10000
    ensures Words([x])
  {
  }

  lemma {:induction false} IsUtf16(out: Text, chunk: Text)
    ensures Utf16(out) + Utf16(chunk) == Utf16(out + chunk)
  {
    UnitsJoin(true, out, chunk);
  }

  /** Both halves are there: one turn over UTF-8, two over UTF-16. */
  lemma {:induction false} PairAgrees(text: Text, j: nat, out: Text, high: nat)
    requires j <= |text| && IsHigh(high) && Second(text, j).Some?
    ensures Off(true, text, j) <= |Utf16(text)|
    ensures var p := Second(text, j).value;
            && Off(false, text, p.1) <= |Utf8(text)|
            && Corresponds(text, String8(Utf8(text), Off(false, text, p.1), out + [Pair(high, p.0)]),
                           Units16(Utf16(text), Off(true, text, j), Utf16(out) + [high]))
    decreases |text| - j, 1
  {
    hide Utf8, Utf16, Off, Turn16, Pair, Corresponds, String8, Units16, Second;
    var p := Second(text, j).value;
    SecondTurn(text, j, Utf16(out) + [high]);
    Units16Is(Utf16(text), Off(true, text, j), Utf16(out) + [high]);
    PairOutput(out, high, p.0);
    ReadersAgree(text, p.1, out + [Pair(high, p.0)]);
  }

  lemma {:induction false} SecondTurn(text: Text, j: nat, out: seq<nat>)
    requires j <= |text| && Second(text, j).Some?
    ensures Off(true, text, j) <= |Utf16(text)|
    ensures var p := Second(text, j).value; Turn16(Utf16(text), Off(true, text, j), out) == More(out + [p.0], Off(true, text, p.1))
  {
    hide Off, Turn16, HexText, Escape;
    assert !Plain(text[j]) && TextChunk(text, j) == j;
    Turn16At(text, j, out);
    assert text[j..j] == [];
    Utf16Push([], 0);
    assert out + [] == out;
  }

  lemma {:induction false} PairOutput(out: Text, high: nat, low: nat)
    requires IsHigh(high) && IsLow(low)
    ensures Utf16(out) + [high] + [low] == Utf16(out + [Pair(high, low)])
  {
    PairUnits(high, low);
    Utf16Push(out, Pair(high, low));
    hide Utf16, Utf16Of, Pair;
  }

  /**
   * `parse_string` on the UTF-8 and on the UTF-16 form of any text, from the opening quote on: the same
   * string and corresponding ends, or a failure of both. `unwrap` never fails.
   */
  lemma {:induction false} EncodingsAgree(text: Text, k: nat)
    requires k <= |text|
    ensures Off(false, text, k) <= |Utf8(text)| && Off(true, text, k) <= |Utf16(text)| && Words(Utf16(text))
    ensures var r8, r16 := String8(Utf8(text), Off(false, text, k), []), String16(Utf16(text), Off(true, text, k));
            if r8.Ok? then
              && r16.Ok? && r16.value == r8.value
              && exists j: nat :: j <= |text| && r8.next == Off(false, text, j) && r16.next == Off(true, text, j)
            else r16.Err? && r8.code != UnwrapFailed
  {
    hide Utf8, Utf16, Off, String8, Units16, Join, Words;
    Utf16Words(text);
    ReadersAgree(text, k, []);
    Utf16Push([], 0);
  }
}
