/**
 Reading a satellite's confidence rating as JavaScript does: trimming, lower
 case, and the conversion of a text to a number (section 7.1.4.1 of ECMA-262).
 */
module Rating {
  import opened Wrappers
  import opened Text

  // ---------------------------------------------------------------------
  // White space and case
  // ---------------------------------------------------------------------

  /** White space and line terminators, which trim removes. */
  predicate IsBlank(c: char) {
    var u := c as int;
    || 0x09 <= u <= 0x0D || u == 0x20 || u == 0xA0 || u == 0x1680
    || 0x2000 <= u <= 0x200A || u == 0x2028 || u == 0x2029 || u == 0x202F || u == 0x205F
    || u == 0x3000 || u == 0xFEFF
  }

  ghost predicate AllBlank(s: string) {
    forall i :: 0 <= i < |s| ==> IsBlank(s[i])
  }

  function TrimStart(s: string): string {
    if s != [] && IsBlank(s[0]) then TrimStart(s[1..]) else s
  }

  function TrimEnd(s: string): string {
    if s != [] && IsBlank(s[|s| - 1]) then TrimEnd(s[..|s| - 1]) else s
  }

  function Trim(s: string): string {
    TrimEnd(TrimStart(s))
  }

  /** No other letter becomes one of the ASCII letters that ratings use. */
  function LowerChar(c: char): char {
    if 'A' <= c <= 'Z' then (c as int + 32) as char else c
  }

  function Lower(s: string): (r: string)
    ensures |r| == |s|
    ensures forall i :: 0 <= i < |r| ==> r[i] == LowerChar(s[i])
  {
    seq(|s|, i requires 0 <= i < |s| => LowerChar(s[i]))
  }

  lemma {:induction false} TrimStartBlanks(pad: string, s: string)
    requires AllBlank(pad) && (s == [] || !IsBlank(s[0]))
    ensures TrimStart(pad + s) == s
    decreases |pad|
  {
    if pad == [] {
      assert pad + s == s;
    } else {
      assert (pad + s)[1..] == pad[1..] + s;
      TrimStartBlanks(pad[1..], s);
    }
  }

  lemma {:induction false} TrimEndBlanks(s: string, pad: string)
    requires AllBlank(pad) && (s == [] || !IsBlank(s[|s| - 1]))
    ensures TrimEnd(s + pad) == s
    decreases |pad|
  {
    if pad == [] {
      assert s + pad == s;
    } else {
      assert (s + pad)[..|s + pad| - 1] == s + pad[..|pad| - 1];
      TrimEndBlanks(s, pad[..|pad| - 1]);
    }
  }

  /** Blanks around a text that neither starts nor ends with one do not matter. */
  lemma TrimRemovesPadding(before: string, s: string, after: string)
    requires AllBlank(before) && AllBlank(after)
    requires s != [] && !IsBlank(s[0]) && !IsBlank(s[|s| - 1])
    ensures Trim(before + s + after) == s
  {
    assert before + s + after == before + (s + after);
    TrimStartBlanks(before, s + after);
    TrimEndBlanks(s, after);
  }

  lemma {:induction false} TrimStartOfBlanks(s: string)
    ensures TrimStart(s) == [] <==> AllBlank(s)
    ensures TrimStart(s) != [] ==> !IsBlank(TrimStart(s)[0])
    decreases |s|
  {
    if s != [] && IsBlank(s[0]) {
      TrimStartOfBlanks(s[1..]);
      assert AllBlank(s) <==> AllBlank(s[1..]) by {
        if AllBlank(s[1..]) {
          forall i | 0 <= i < |s| ensures IsBlank(s[i]) {
            assert i > 0 ==> s[i] == s[1..][i - 1];
          }
        }
      }
    }
  }

  lemma {:induction false} TrimEndKeepsTheStart(s: string)
    requires s != [] && !IsBlank(s[0])
    ensures TrimEnd(s) != [] && TrimEnd(s)[0] == s[0]
    decreases |s|
  {
    if IsBlank(s[|s| - 1]) {
      TrimEndKeepsTheStart(s[..|s| - 1]);
    }
  }

  /** Nothing is left exactly of a text without a visible character. */
  lemma TrimmedAwayExactly(s: string)
    ensures Trim(s) == [] <==> AllBlank(s)
  {
    TrimStartOfBlanks(s);
    if TrimStart(s) != [] {
      TrimEndKeepsTheStart(TrimStart(s));
    }
  }

  // ---------------------------------------------------------------------
  // Numbers
  // ---------------------------------------------------------------------

  /** A digit of a base up to sixteen, in lower case. */
  predicate IsDigitOf(c: char, base: nat) {
    ('0' <= c <= '9' && c as int - '0' as int < base) || (base == 16 && 'a' <= c <= 'f')
  }

  predicate AllDigits(s: string, base: nat) {
    forall i :: 0 <= i < |s| ==> IsDigitOf(s[i], base)
  }

  function Power(base: real, n: nat): real {
    if n == 0 then 1.0 else base * Power(base, n - 1)
  }

  /** The first position of a character, or the length. */
  function Find(s: string, c: char): (k: nat)
    ensures k <= |s|
    ensures forall i :: 0 <= i < k ==> s[i] != c
    ensures k < |s| ==> s[k] == c
  {
    if s == [] || s[0] == c then 0 else 1 + Find(s[1..], c)
  }

  /** Digits with at most one point among them, and at least one digit. */
  function Mantissa(s: string): Option<real> {
    var dot := Find(s, '.');
    var whole := s[..dot];
    var fraction := if dot == |s| then [] else s[dot + 1..];
    if !AllDigits(whole, 10) || !AllDigits(fraction, 10) || (whole == [] && fraction == []) then None
    else
      PowerPositive(10.0, |fraction|);
      Some(Value(whole + fraction, 10) as real / Power(10.0, |fraction|))
  }

  lemma {:induction false} PowerPositive(base: real, n: nat)
    requires base > 0.0
    ensures Power(base, n) > 0.0
    decreases n
  {
    if n > 0 {
      PowerPositive(base, n - 1);
    }
  }

  predicate IsSign(c: char) {
    c == '+' || c == '-'
  }

  /** A number times the power of ten that the exponent's text gives. */
  function Scaled(m: real, exponent: string): Option<real> {
    var signed := exponent != [] && IsSign(exponent[0]);
    var digits := if signed then exponent[1..] else exponent;
    if digits == [] || !AllDigits(digits, 10) then None
    else
      PowerPositive(10.0, Value(digits, 10));
      if signed && exponent[0] == '-' then Some(m / Power(10.0, Value(digits, 10)))
      else Some(m * Power(10.0, Value(digits, 10)))
  }

  function Unsigned(s: string): Option<real> {
    var e := Find(s, 'e');
    var m := Mantissa(s[..e]);
    if m.None? || e == |s| then m else Scaled(m.value, s[e + 1..])
  }

  function Negated(x: Option<real>): Option<real> {
    if x.Some? then Some(-x.value) else None
  }

  function Base(c: char): nat {
    if c == 'x' then 16 else if c == 'o' then 8 else if c == 'b' then 2 else 0
  }

  /** The mathematical value of a trimmed, lower-case numeral. */
  function MathValue(s: string): Option<real> {
    if s == [] then Some(0.0)
    else if |s| > 2 && s[0] == '0' && Base(s[1]) > 0 then
      if AllDigits(s[2..], Base(s[1])) then Some(Value(s[2..], Base(s[1])) as real) else None
    else if s[0] == '-' then Negated(Unsigned(s[1..]))
    else if s[0] == '+' then Unsigned(s[1..])
    else Unsigned(s)
  }

  /** The least magnitude that a double rounds to infinity. */
  function Overflow(): real {
    Power(2.0, 1024) - Power(2.0, 970)
  }

  /** `Number(text)` when that is finite. */
  function NumberOf(s: string): Option<real> {
    var v := MathValue(s);
    if v.Some? && -Overflow() < v.value < Overflow() then v else None
  }

  lemma {:induction false} PowerOfTwoGrows(n: nat)
    ensures Power(2.0, n) >= n as real + 1.0
    decreases n
  {
    if n > 0 {
      PowerOfTwoGrows(n - 1);
    }
  }

  lemma {:induction false} PowersOfTwoDouble(m: nat, n: nat)
    requires m < n
    ensures Power(2.0, n) >= 2.0 * Power(2.0, m)
    decreases n
  {
    PowerPositive(2.0, m);
    if m < n - 1 {
      PowersOfTwoDouble(m, n - 1);
    }
  }

  lemma OverflowIsFar()
    ensures Overflow() > 900.0
  {
    hide Power;
    PowersOfTwoDouble(970, 1024);
    PowerOfTwoGrows(970);
  }

  /** A text that starts with neither a digit, a sign nor a point is no number. */
  lemma NotANumber(s: string)
    requires s != [] && !IsDigitOf(s[0], 10) && !IsSign(s[0]) && s[0] != '.'
    ensures NumberOf(s) == None
  {
    hide Overflow, Power, Value;
    var e := Find(s, 'e');
    if e > 0 {
      var m := s[..e];
      var dot := Find(m, '.');
      assert dot > 0 && m[..dot][0] == s[0];
    }
  }

  lemma {:induction false} DecimalValue(n: nat)
    ensures Value(Decimal(n), 10) == n
    ensures AllDigits(Decimal(n), 10)
    decreases n
  {
    var s := Decimal(n);
    if n < 10 {
      assert s[..0] == [];
    } else {
      DecimalValue(n / 10);
      assert s[..|s| - 1] == Decimal(n / 10);
    }
  }

  lemma NoneFound(s: string, c: char)
    requires AllDigits(s, 10) && !IsDigitOf(c, 10)
    ensures Find(s, c) == |s|
  {
  }

  /** The numeral of a number is read back as that number. */
  lemma NumeralReadsBack(n: nat)
    ensures MathValue(Decimal(n)) == Some(n as real)
  {
    hide Value;
    var s := Decimal(n);
    DecimalValue(n);
    assert IsDigitOf(s[0], 10) && (|s| > 1 ==> IsDigitOf(s[1], 10));
    NoneFound(s, 'e');
    NoneFound(s, '.');
    assert s[..|s|] == s && s + [] == s;
    assert Power(10.0, 0) == 1.0;
  }
}
