// Exact integers from digit strings of any length: the guarded accumulation of the TOML parser
// (src/toml/src/parser.cpp:455-504, 715-739) and of the JSON reader (src/json/src/reader.cpp:303-356, 390-423).

module Integers {
  import opened Options

  type Byte = b: int | 0 <= b < 256
  type Text = seq<Byte>

  const U64_MAX: nat := 0xFFFF_FFFF_FFFF_FFFF
  const I64_MAX: nat := 0x7FFF_FFFF_FFFF_FFFF
  const I32_MAX: nat := 0x7FFF_FFFF

  /** `ascii::digit_value` */
  function DigitValue(c: Byte, radix: nat): Option<nat> {
    var v := if '0' as int <= c <= '9' as int then c - '0' as int
             else if 'a' as int <= c <= 'z' as int then c - 'a' as int + 10
             else if 'A' as int <= c <= 'Z' as int then c - 'A' as int + 10
             else radix;
    if v >= radix then None else Some(v)
  }

  predicate IsDigit(c: Byte, radix: nat) {
    DigitValue(c, radix).Some?
  }

  predicate AllDigits(s: Text, radix: nat) {
    forall i :: 0 <= i < |s| ==> IsDigit(s[i], radix)
  }

  /** The number that the digits stand for. */
  function Numeral(s: Text, radix: nat): nat
    requires AllDigits(s, radix)
  {
    if s == [] then 0 else Numeral(s[..|s| - 1], radix) * radix + DigitValue(s[|s| - 1], radix).value
  }

  lemma {:induction false} NumeralPush(s: Text, c: Byte, radix: nat)
    requires AllDigits(s, radix) && IsDigit(c, radix)
    ensures AllDigits(s + [c], radix) && Numeral(s + [c], radix) == Numeral(s, radix) * radix + DigitValue(c, radix).value
  {
    assert (s + [c])[..|s|] == s;
  }

  /** More digits never make the number smaller. */
  lemma {:induction false} NumeralGrows(s: Text, n: nat, radix: nat)
    requires AllDigits(s, radix) && n <= |s| && radix >= 1
    ensures AllDigits(s[..n], radix) && Numeral(s[..n], radix) <= Numeral(s, radix)
    decreases |s|
  {
    if n < |s| {
      var t := s[..|s| - 1];
      NumeralGrows(t, n, radix);
      assert t[..n] == s[..n];
      Scaled(Numeral(t, radix), radix);
    } else {
      assert s[..n] == s;
    }
  }

  lemma {:induction false} Scaled(x: nat, radix: nat)
    requires radix >= 1
    ensures x <= x * radix
  {
    if radix > 1 { assert x * radix == x + x * (radix - 1); }
  }

  /** The overflow guard is exact. */
  lemma {:induction false} GuardExact(value: nat, digit: nat, radix: nat, limit: nat)
    requires radix >= 1 && digit <= limit
    ensures value > (limit - digit) / radix <==> value * radix + digit > limit
  {
    var q, r := (limit - digit) / radix, (limit - digit) % radix;
    assert limit - digit == q * radix + r && r < radix;
    if value > q {
      MulMono(q + 1, value, radix);
      assert (q + 1) * radix == q * radix + radix;
    } else {
      MulMono(value, q, radix);
    }
  }

  lemma {:induction false} MulMono(x: nat, y: nat, k: nat)
    requires x <= y
    ensures x * k <= y * k
  {
    assert y * k == x * k + (y - x) * k;
  }

  // ---------- TOML ----------

  datatype TomlError = InvalidNumber | NumberOutOfRange
  datatype TomlResult = Integer(value: int) | Failure(error: TomlError)

  const UNDERSCORE: Byte := '_' as int
  const PLUS: Byte := '+' as int
  const MINUS: Byte := '-' as int
  const ZERO: Byte := '0' as int

  predicate IsSign(c: Byte) {
    c == PLUS || c == MINUS
  }

  function SignLength(s: Text): nat {
    if s != [] && IsSign(s[0]) then 1 else 0
  }

  /** The base announced by a prefix at i, 10 if there is none. */
  function BaseAt(s: Text, i: nat): nat {
    if i + 2 <= |s| && s[i] == ZERO then
      if s[i + 1] == 'x' as int then 16 else if s[i + 1] == 'o' as int then 8 else if s[i + 1] == 'b' as int then 2 else 10
    else 10
  }

  /** The underscores that may not stand where they do. */
  predicate UnderscoreOk(s: Text, i: nat, base: nat)
    requires i < |s|
  {
    s[i] == UNDERSCORE ==> 0 < i && i + 1 < |s| && IsDigit(s[i - 1], base) && IsDigit(s[i + 1], base)
  }

  predicate UnderscoresOk(s: Text) {
    forall i :: 0 <= i < |s| ==> UnderscoreOk(s, i, BaseAt(s, SignLength(s)))
  }

  /** `valid_underscores` */
  method ValidUnderscores(s: Text) returns (ok: bool)
    ensures ok <==> UnderscoresOk(s)
  {
    var base := BaseAt(s, SignLength(s));
    for i := 0 to |s|
      invariant forall j :: 0 <= j < i ==> UnderscoreOk(s, j, base)
    {
      if s[i] == UNDERSCORE && (i == 0 || i + 1 == |s| || !IsDigit(s[i - 1], base) || !IsDigit(s[i + 1], base)) {
        assert !UnderscoreOk(s, i, base);
        return false;
      }
    }
    ok := true;
  }

  function Strip(s: Text): (r: Text)
    ensures forall i :: 0 <= i < |r| ==> r[i] != UNDERSCORE
  {
    if s == [] then []
    else if s[|s| - 1] == UNDERSCORE then Strip(s[..|s| - 1])
    else Strip(s[..|s| - 1]) + [s[|s| - 1]]
  }

  /** The digits of a numeral without underscores, sign and prefix removed. */
  function Body(s: Text): Text {
    var i := SignLength(s);
    if BaseAt(s, i) == 10 then s[i..] else s[i + 2..]
  }

  /** A TOML integer, underscores aside: no sign before a prefix, no leading zero in a decimal. */
  predicate WellFormed(s: Text) {
    var base := BaseAt(s, SignLength(s));
    && Body(s) != [] && AllDigits(Body(s), base)
    && (base != 10 ==> SignLength(s) == 0)
    && (base == 10 ==> |Body(s)| == 1 || Body(s)[0] != ZERO)
  }

  function SignedValue(s: Text): int
    requires WellFormed(s)
  {
    var n: int := Numeral(Body(s), BaseAt(s, SignLength(s)));
    if s[0] == MINUS then -n else n
  }

  /** The digit loop: exact, or a failure if the number is above the limit or there is no number. */
  method Accumulate(s: Text, radix: nat, limit: nat) returns (r: TomlResult)
    requires 2 <= radix <= 16 && limit >= 16
    ensures r.Integer? <==> AllDigits(s, radix) && Numeral(s, radix) <= limit
    ensures r.Integer? ==> r.value == Numeral(s, radix)
    ensures AllDigits(s, radix) && r.Failure? ==> r.error == NumberOutOfRange
  {
    var value: nat := 0;
    for i := 0 to |s|
      invariant AllDigits(s[..i], radix) && value == Numeral(s[..i], radix) <= limit
    {
      var digit := DigitValue(s[i], radix);
      if digit.None? {
        assert !IsDigit(s[i], radix);
        return Failure(InvalidNumber);
      }
      assert s[..i + 1] == s[..i] + [s[i]];
      NumeralPush(s[..i], s[i], radix);
      GuardExact(value, digit.value, radix, limit);
      if value > (limit - digit.value) / radix {
        if AllDigits(s, radix) { NumeralGrows(s, i + 1, radix); }
        return Failure(NumberOutOfRange);
      }
      value := value * radix + digit.value;
    }
    assert s[..|s|] == s;
    r := Integer(value);
  }

  /** `parse_integer` on a token whose underscores have been checked. */
  method ParseInteger(token: Text) returns (r: TomlResult)
    requires token != [] && UnderscoresOk(token)
    ensures var s := Strip(token);
            && (r.Integer? <==> WellFormed(s) && -(I64_MAX + 1) <= SignedValue(s) <= I64_MAX)
            && (r.Integer? ==> r.value == SignedValue(s))
            && (r.Failure? ==> (r.error == NumberOutOfRange <== WellFormed(s)))
  {
    var text := Normalize(token);
    StripNonempty(token);
    var index := 0;
    var negative, signed := false, false;
    if text[index] == PLUS || text[index] == MINUS {
      signed := true;
      negative := text[index] == MINUS;
      index := index + 1;
      if index == |text| {
        return Failure(InvalidNumber);
      }
    }
    var base := BaseAt(text, index);
    if base != 10 {
      index := index + 2;
    }
    if index == |text| {
      return Failure(InvalidNumber);
    }
    if base != 10 && signed {
      return Failure(InvalidNumber);
    }
    if base == 10 && text[index] == ZERO && index + 1 < |text| {
      return Failure(InvalidNumber);
    }
    assert text[index..] == Body(text);
    var limit := if negative then I64_MAX + 1 else I64_MAX;
    r := Accumulate(text[index..], base, limit);
    if r.Integer? && negative {
      r := Integer(-r.value);
    }
  }

  /** A token taken for an integer: accepted exactly if it is one, underscores included, and is in range. */
  method IntegerToken(token: Text) returns (r: TomlResult)
    requires token != []
    ensures r.Integer? <==>
              UnderscoresOk(token) && WellFormed(Strip(token)) && -(I64_MAX + 1) <= SignedValue(Strip(token)) <= I64_MAX
    ensures r.Integer? ==> r.value == SignedValue(Strip(token))
  {
    var ok := ValidUnderscores(token);
    if !ok {
      return Failure(InvalidNumber);
    }
    r := ParseInteger(token);
  }

  method Normalize(token: Text) returns (text: Text)
    ensures text == Strip(token)
  {
    text := [];
    for i := 0 to |token|
      invariant text == Strip(token[..i])
    {
      assert token[..i + 1][..i] == token[..i];
      if token[i] != UNDERSCORE {
        text := text + [token[i]];
      }
    }
    assert token[..|token|] == token;
  }

  lemma {:induction false} StripNonempty(token: Text)
    requires token != [] && UnderscoresOk(token)
    ensures Strip(token) != []
  {
    var n := |token| - 1;
    assert UnderscoreOk(token, n, BaseAt(token, SignLength(token)));
  }

  // ---------- JSON ----------

  /** How `parse_number` represents a number; a float is named by its bits, which the conversion gives. */
  datatype Number = Unsigned(u: nat) | Signed(i: int) | Floating(bits: nat)
  datatype JsonResult = Ok(number: Number) | ToFloat | OutOfRange

  /** The digits of the integer part as the scanner has checked them, and the sign. */
  datatype NumberToken = NumberToken(negative: bool, integer: Text, floating: bool)

  /** The accumulation loop of `parse_number`. */
  method Magnitude(digits: Text) returns (overflow: bool, magnitude: nat)
    requires AllDigits(digits, 10)
    ensures overflow <==> Numeral(digits, 10) > U64_MAX
    ensures !overflow ==> magnitude == Numeral(digits, 10)
  {
    magnitude := 0;
    for i := 0 to |digits|
      invariant AllDigits(digits[..i], 10) && magnitude == Numeral(digits[..i], 10) <= U64_MAX
    {
      assert IsDigit(digits[i], 10);
      var value := digits[i] - '0' as int;
      assert digits[..i + 1] == digits[..i] + [digits[i]];
      NumeralPush(digits[..i], digits[i], 10);
      GuardExact(magnitude, value, 10, U64_MAX);
      if magnitude > (U64_MAX - value) / 10 {
        NumeralGrows(digits, i + 1, 10);
        return true, magnitude;
      }
      magnitude := magnitude * 10 + value;
    }
    assert digits[..|digits|] == digits;
    overflow := false;
  }

  /** The integer that the token stands for is in u64, or negative and in i64. */
  predicate Representable(token: NumberToken)
    requires AllDigits(token.integer, 10)
  {
    var n := Numeral(token.integer, 10);
    if token.negative then 0 < n <= I64_MAX + 1 else n <= U64_MAX
  }

  /** The exact integer whenever it is representable, otherwise a float or an error; -0 is a float. */
  function NumberOf(token: NumberToken, rejectOverflow: bool): JsonResult
    requires AllDigits(token.integer, 10)
  {
    var n: int := Numeral(token.integer, 10);
    if token.floating || (token.negative && n == 0) then ToFloat
    else if !Representable(token) then (if rejectOverflow then OutOfRange else ToFloat)
    else if token.negative then Ok(Signed(-n))
    else Ok(Unsigned(n))
  }

  /** `parse_number` after scanning. */
  method ParseNumber(token: NumberToken, rejectOverflow: bool) returns (r: JsonResult)
    requires AllDigits(token.integer, 10)
    ensures r == NumberOf(token, rejectOverflow)
  {
    if token.floating {
      return ToFloat;
    }
    var overflow, magnitude := Magnitude(token.integer);
    if overflow {
      return if rejectOverflow then OutOfRange else ToFloat;
    }
    if !token.negative {
      return Ok(Unsigned(magnitude));
    }
    if magnitude == 0 {
      return ToFloat;
    }
    var minMagnitude := I64_MAX + 1;
    if magnitude > minMagnitude {
      return if rejectOverflow then OutOfRange else ToFloat;
    }
    r := Ok(Signed(if magnitude == minMagnitude then -0x8000_0000_0000_0000 else -magnitude));
  }

  /** The true exponent, or the largest i32 if it is larger. */
  function ExponentOf(digits: Text): nat
    requires AllDigits(digits, 10)
  {
    if Numeral(digits, 10) <= I32_MAX then Numeral(digits, 10) else I32_MAX
  }

  /** The exponent loop of `scan_number`. */
  method Exponent(digits: Text) returns (exponent: nat)
    requires AllDigits(digits, 10)
    ensures exponent == ExponentOf(digits)
  {
    exponent := 0;
    for i := 0 to |digits|
      invariant AllDigits(digits[..i], 10)
      invariant exponent == ExponentOf(digits[..i])
    {
      assert IsDigit(digits[i], 10);
      var digit := digits[i] - '0' as int;
      assert digits[..i + 1] == digits[..i] + [digits[i]];
      NumeralPush(digits[..i], digits[i], 10);
      GuardExact(exponent, digit, 10, I32_MAX);
      if exponent > (I32_MAX - digit) / 10 {
        exponent := I32_MAX;
      } else {
        exponent := exponent * 10 + digit;
      }
    }
    assert digits[..|digits|] == digits;
  }
}
