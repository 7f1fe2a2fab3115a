// Unicode text in its two encodings: UTF-8 (RFC 3629, section 3) and UTF-16 (RFC 2781, section 2.1).

module Unicode {
  import opened Options

  /** A Unicode scalar value: a code point that is not a surrogate. */
  type Scalar = c: int | 0 <= c < 0xD800 || 0xE000 <= c < 0x110000

  type Text = seq<Scalar>

  predicate IsHigh(u: int) {
    0xD800 <= u <= 0xDBFF
  }

  predicate IsLow(u: int) {
    0xDC00 <= u <= 0xDFFF
  }

  function Utf8Of(c: Scalar): (r: seq<nat>)
    ensures r != [] && (c < 0x80 ==> r == [c]) && (c >= 0x80 ==> forall i :: 0 <= i < |r| ==> 0x80 <= r[i] < 0x100)
    ensures r[0] < 0x80 || r[0] >= 0xC0
    ensures forall i :: 1 <= i < |r| ==> 0x80 <= r[i] < 0xC0
  {
    if c < 0x80 then [c]
    else if c < 0x800 then [0xC0 + c / 64, 0x80 + c % 64]
    else if c < 0x10000 then [0xE0 + c / 4096, 0x80 + c / 64 % 64, 0x80 + c % 64]
    else [0xF0 + c / 262144, 0x80 + c / 4096 % 64, 0x80 + c / 64 % 64, 0x80 + c % 64]
  }

  function Utf16Of(c: Scalar): (r: seq<nat>)
    ensures r != [] && (c < 0x80 ==> r == [c]) && (c >= 0x80 ==> forall i :: 0 <= i < |r| ==> 0x80 <= r[i] < 0x10000)
    ensures !IsLow(r[0])
  {
    if c < 0x10000 then [c] else [0xD800 + (c - 0x10000) / 1024, 0xDC00 + (c - 0x10000) % 1024]
  }

  function Utf8(s: Text): seq<nat> {
    if s == [] then [] else Utf8(s[..|s| - 1]) + Utf8Of(s[|s| - 1])
  }

  function Utf16(s: Text): seq<nat> {
    if s == [] then [] else Utf16(s[..|s| - 1]) + Utf16Of(s[|s| - 1])
  }

  // ---------- UTF-16 back to text ----------

  /** A surrogate pair, joined. */
  function Pair(high: nat, low: nat): (c: Scalar)
    requires IsHigh(high) && IsLow(low)
  {
    0x10000 + (high - 0xD800) * 1024 + (low - 0xDC00)
  }

  /** The scalar at the front of some units, and how many of them it takes. */
  function Front16(u: seq<nat>): (r: Option<(Scalar, nat)>)
    requires u != [] && forall i :: 0 <= i < |u| ==> u[i] < 0x10000
    ensures r.Some? ==> 1 <= r.value.1 <= 2 && r.value.1 <= |u|
  {
    if IsHigh(u[0]) then
      if |u| > 1 && IsLow(u[1]) then Some((Pair(u[0], u[1]), 2)) else None
    else if IsLow(u[0]) then None
    else Some((u[0], 1))
  }

  predicate Words(u: seq<nat>) {
    forall i :: 0 <= i < |u| ==> u[i] < 0x10000
  }

  /** `append_utf16`: all of the units, or nothing. */
  function Join(u: seq<nat>): Option<Text>
    requires Words(u)
    decreases |u|
  {
    if u == [] then Some([])
    else
      match Front16(u)
      case None => None
      case Some(p) =>
        match Join(u[p.1..])
        case None => None
        case Some(rest) => Some([p.0] + rest)
  }

  /** Text in front of what is still to come. */
  function Prepend(out: Text, rest: Option<Text>): Option<Text> {
    if rest.Some? then Some(out + rest.value) else None
  }

  lemma {:induction false} PrependNothing(rest: Option<Text>)
    ensures Prepend([], rest) == rest
  {
    if rest.Some? { assert [] + rest.value == rest.value; }
  }

  lemma {:induction false} PrependEnd(out: Text)
    ensures Prepend(out, Join([])) == Some(out)
  {
    assert out + [] == out;
  }

  lemma {:induction false} PrependStep(out: Text, u: seq<nat>)
    requires u != [] && Words(u)
    ensures match Front16(u)
            case None => Prepend(out, Join(u)).None?
            case Some(p) => Words(u[p.1..]) && Prepend(out, Join(u)) == Prepend(out + [p.0], Join(u[p.1..]))
  {
    hide Front16;
    var p := Front16(u);
    if p.Some? && Join(u[p.value.1..]).Some? {
      var rest := Join(u[p.value.1..]).value;
      assert out + ([p.value.0] + rest) == (out + [p.value.0]) + rest;
    }
  }

  lemma {:induction false} Utf16Words(s: Text)
    ensures Words(Utf16(s))
    decreases |s|
  {
    if s != [] {
      Utf16Words(s[..|s| - 1]);
      var c := s[|s| - 1];
      assert c < 0x80 ==> Utf16Of(c) == [c];
    }
  }

  lemma {:induction false} Front16Of(c: Scalar, rest: seq<nat>)
    requires Words(rest)
    ensures Words(Utf16Of(c) + rest) && Front16(Utf16Of(c) + rest) == Some((c, |Utf16Of(c)|))
    ensures (Utf16Of(c) + rest)[|Utf16Of(c)|..] == rest
  {
    if c >= 0x10000 {
      var u := Utf16Of(c);
      assert IsHigh(u[0]) && IsLow(u[1]) && Pair(u[0], u[1]) == c;
    }
  }

  lemma {:induction false} Utf16Push(s: Text, c: Scalar)
    ensures Utf16(s + [c]) == Utf16(s) + Utf16Of(c) && Utf16([]) == []
  {
    hide Utf16Of;
    assert (s + [c])[..|s|] == s;
  }

  lemma {:induction false} Utf16Cons(c: Scalar, s: Text)
    ensures Utf16([c] + s) == Utf16Of(c) + Utf16(s)
    decreases |s|
  {
    hide Utf16Of, Utf16;
    if s == [] {
      assert [c] + s == [] + [c];
      Utf16Push([], c);
    } else {
      var n := |s| - 1;
      var t, d := s[..n], s[n];
      assert s == t + [d] && [c] + s == ([c] + t) + [d];
      Utf16Cons(c, t);
      Utf16Push(t, d);
      Utf16Push([c] + t, d);
    }
  }

  /** Text in front of other units comes out as itself. */
  lemma {:induction false} JoinAfter(s: Text, rest: seq<nat>)
    requires Words(rest)
    ensures Words(Utf16(s) + rest)
    ensures Join(Utf16(s) + rest) == (if Join(rest).Some? then Some(s + Join(rest).value) else None)
    decreases |s|
  {
    hide Utf16, Utf16Of, Join, Words;
    if s == [] {
      Utf16Push([], 0);
      assert Utf16(s) + rest == rest;
      if Join(rest).Some? { assert s + Join(rest).value == Join(rest).value; }
    } else {
      var c, t := s[0], s[1..];
      assert s == [c] + t;
      Utf16Cons(c, t);
      JoinAfter(t, rest);
      var tail := Utf16(t) + rest;
      assert Utf16(s) + rest == Utf16Of(c) + tail;
      JoinFront(c, tail);
      if Join(rest).Some? { assert [c] + (t + Join(rest).value) == s + Join(rest).value; }
    }
  }

  lemma {:induction false} JoinFront(c: Scalar, rest: seq<nat>)
    requires Words(rest)
    ensures Words(Utf16Of(c) + rest)
    ensures Join(Utf16Of(c) + rest) == (if Join(rest).Some? then Some([c] + Join(rest).value) else None)
  {
    Front16Of(c, rest);
    hide Utf16Of, Front16;
  }

  /** Units that come from text give back the text. */
  lemma {:induction false} JoinUtf16(s: Text)
    ensures Words(Utf16(s)) && Join(Utf16(s)) == Some(s)
  {
    JoinAfter(s, []);
    assert Utf16(s) + [] == Utf16(s);
    assert s + [] == s;
  }

  /** A surrogate that is not half of a pair spoils everything. */
  lemma {:induction false} LoneSpoils(s: Text, rest: seq<nat>)
    requires Words(rest) && rest != []
    requires IsLow(rest[0]) || (IsHigh(rest[0]) && (|rest| == 1 || !IsLow(rest[1])))
    ensures Words(Utf16(s) + rest) && Join(Utf16(s) + rest).None?
  {
    JoinAfter(s, rest);
  }

  // ---------- UTF-8 back to text ----------

  predicate Continuation(b: nat) {
    0x80 <= b < 0xC0
  }

  /** `get`: a slice of valid text, if both of its ends are between characters. */
  predicate Boundary(b: seq<nat>, i: nat) {
    i == |b| || (i < |b| && !Continuation(b[i]))
  }

  /** The scalar at the front of some bytes, and how many of them it takes. */
  function Front8(b: seq<nat>): (r: Option<(int, nat)>)
    requires b != []
    ensures r.Some? ==> 1 <= r.value.1 <= |b|
  {
    if b[0] < 0x80 then Some((b[0], 1))
    else if 0xC0 <= b[0] < 0xE0 && |b| > 1 && Continuation(b[1]) then Some(((b[0] - 0xC0) * 64 + (b[1] - 0x80), 2))
    else if 0xE0 <= b[0] < 0xF0 && |b| > 2 && Continuation(b[1]) && Continuation(b[2]) then
      Some(((b[0] - 0xE0) * 4096 + (b[1] - 0x80) * 64 + (b[2] - 0x80), 3))
    else if 0xF0 <= b[0] < 0xF8 && |b| > 3 && Continuation(b[1]) && Continuation(b[2]) && Continuation(b[3]) then
      Some(((b[0] - 0xF0) * 262144 + (b[1] - 0x80) * 4096 + (b[2] - 0x80) * 64 + (b[3] - 0x80), 4))
    else None
  }

  predicate IsScalar(c: int) {
    0 <= c < 0xD800 || 0xE000 <= c < 0x110000
  }

  function Decode8(b: seq<nat>): Option<Text>
    decreases |b|
  {
    if b == [] then Some([])
    else
      match Front8(b)
      case None => None
      case Some(p) =>
        match Decode8(b[p.1..])
        case None => None
        case Some(rest) => if IsScalar(p.0) then Some([p.0] + rest) else None
  }

  lemma {:induction false} Front8Of(c: Scalar, rest: seq<nat>)
    ensures Front8(Utf8Of(c) + rest) == Some((c, |Utf8Of(c)|)) && (Utf8Of(c) + rest)[|Utf8Of(c)|..] == rest
  {
    var b := Utf8Of(c) + rest;
    if 0x800 <= c < 0x10000 {
      assert b[0] == 0xE0 + c / 4096 && b[1] == 0x80 + c / 64 % 64 && b[2] == 0x80 + c % 64;
      Digits64(c);
    } else if c >= 0x10000 {
      assert b[0] == 0xF0 + c / 262144 && b[1] == 0x80 + c / 4096 % 64 && b[2] == 0x80 + c / 64 % 64 && b[3] == 0x80 + c % 64;
      Digits64(c);
    }
  }

  lemma {:induction false} Digits64(c: nat)
    ensures c == c / 4096 * 4096 + c / 64 % 64 * 64 + c % 64
    ensures c == c / 262144 * 262144 + c / 4096 % 64 * 4096 + c / 64 % 64 * 64 + c % 64
  {
    var d := c / 64;
    assert c == d * 64 + c % 64;
    var e := d / 64;
    assert d == e * 64 + d % 64;
    assert c / 4096 == e;
    var f := e / 64;
    assert e == f * 64 + e % 64;
    assert c / 262144 == f;
  }

  lemma {:induction false} Utf8Push(s: Text, c: Scalar)
    ensures Utf8(s + [c]) == Utf8(s) + Utf8Of(c) && Utf8([]) == []
  {
    hide Utf8Of;
    assert (s + [c])[..|s|] == s;
  }

  lemma {:induction false} Utf8Cons(c: Scalar, s: Text)
    ensures Utf8([c] + s) == Utf8Of(c) + Utf8(s)
    decreases |s|
  {
    hide Utf8Of, Utf8;
    if s == [] {
      assert [c] + s == [] + [c];
      Utf8Push([], c);
    } else {
      var n := |s| - 1;
      var t, d := s[..n], s[n];
      assert s == t + [d] && [c] + s == ([c] + t) + [d];
      Utf8Cons(c, t);
      Utf8Push(t, d);
      Utf8Push([c] + t, d);
    }
  }

  /** Bytes that come from text give back the text. */
  lemma {:induction false} DecodeUtf8(s: Text)
    ensures Decode8(Utf8(s)) == Some(s)
    decreases |s|
  {
    if s != [] {
      var c, t := s[0], s[1..];
      assert s == [c] + t;
      hide Utf8, Utf8Of, Front8;
      Utf8Cons(c, t);
      DecodeUtf8(t);
      Front8Of(c, Utf8(t));
    }
  }

  /** The examples of section 7 of RFC 3629 and section 2.1 of RFC 2781, and the ends of each length. */
  lemma {:induction false} Samples()
    ensures Utf8Of(0x41) == [0x41] && Utf8Of(0x2262) == [0xE2, 0x89, 0xA2] && Utf8Of(0x391) == [0xCE, 0x91]
    ensures Utf8Of(0xD55C) == [0xED, 0x95, 0x9C] && Utf8Of(0x233B4) == [0xF0, 0xA3, 0x8E, 0xB4]
    ensures Utf8Of(0x7FF) == [0xDF, 0xBF] && Utf8Of(0xFFFF) == [0xEF, 0xBF, 0xBF] && Utf8Of(0x10FFFF) == [0xF4, 0x8F, 0xBF, 0xBF]
    ensures Utf16Of(0x12345) == [0xD808, 0xDF45] && Utf16Of(0x10000) == [0xD800, 0xDC00] && Utf16Of(0x10FFFF) == [0xDBFF, 0xDFFF]
  {
  }
}
