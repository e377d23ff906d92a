/** Character-level helpers: decimal numerals and the order of JavaScript strings. */
module Text {
  /** `<` on strings, code unit by code unit. */
  predicate StringLess(a: string, b: string) {
    if b == [] then false
    else if a == [] then true
    else if a[0] != b[0] then a[0] < b[0]
    else StringLess(a[1..], b[1..])
  }

  /** On texts whose first parts have the same length the first parts decide,
      and the rests only break a tie. */
  lemma {:induction false} StringLessConcat(a: string, b: string, x: string, y: string)
    requires |a| == |b|
    ensures StringLess(a + x, b + y) <==> StringLess(a, b) || (a == b && StringLess(x, y))
    decreases |a|
  {
    if a == [] {
      assert a + x == x && b + y == y;
    } else {
      assert (a + x)[1..] == a[1..] + x && (b + y)[1..] == b[1..] + y;
      StringLessConcat(a[1..], b[1..], x, y);
      assert a == b <==> a[0] == b[0] && a[1..] == b[1..];
    }
  }

  function Digit(n: nat): (c: char)
    requires n < 10
    ensures '0' <= c <= '9'
  {
    '0' + n as char
  }

  predicate IsDigit(c: char) {
    '0' <= c <= '9'
  }

  /** The decimal numeral of a number, as template strings print it. */
  function Decimal(n: nat): (s: string)
    ensures s != [] && forall i :: 0 <= i < |s| ==> IsDigit(s[i])
  {
    if n < 10 then [Digit(n)] else Decimal(n / 10) + [Digit(n % 10)]
  }

  lemma {:induction false} DecimalIsInjective(a: nat, b: nat)
    requires Decimal(a) == Decimal(b)
    ensures a == b
    decreases a
  {
    var s := Decimal(a);
    var t := Decimal(b);
    assert s[|s| - 1] == Digit(a % 10) && t[|t| - 1] == Digit(b % 10);
    if a >= 10 && b >= 10 {
      assert s[..|s| - 1] == Decimal(a / 10) && t[..|t| - 1] == Decimal(b / 10);
      DecimalIsInjective(a / 10, b / 10);
    }
  }

  /** What a digit of a base up to sixteen counts, in lower case. */
  function DigitValue(c: char): nat {
    if '0' <= c <= '9' then c as int - '0' as int
    else if 'a' <= c <= 'f' then c as int - 'a' as int + 10
    else 0
  }

  /** The number that a numeral stands for. */
  function Value(s: string, base: nat): nat {
    if s == [] then 0 else Value(s[..|s| - 1], base) * base + DigitValue(s[|s| - 1])
  }

  /** A numeral padded with zeros to a fixed width. */
  function Padded(n: nat, width: nat): (s: string)
    ensures |s| == width
    ensures forall i :: 0 <= i < |s| ==> IsDigit(s[i])
  {
    if width == 0 then [] else Padded(n / 10, width - 1) + [Digit(n % 10)]
  }

  function PowerOfTen(width: nat): (p: nat)
    ensures p > 0
  {
    if width == 0 then 1 else 10 * PowerOfTen(width - 1)
  }

  /** Numerals of one width compare as the numbers do. */
  lemma {:induction false} PaddedOrder(a: nat, b: nat, width: nat)
    requires a < PowerOfTen(width) && b < PowerOfTen(width)
    ensures StringLess(Padded(a, width), Padded(b, width)) <==> a < b
    ensures Padded(a, width) == Padded(b, width) <==> a == b
    decreases width
  {
    if width > 0 {
      var p, q := Padded(a / 10, width - 1), Padded(b / 10, width - 1);
      PaddedOrder(a / 10, b / 10, width - 1);
      StringLessConcat(p, q, [Digit(a % 10)], [Digit(b % 10)]);
      assert [Digit(a % 10)][1..] == [] && [Digit(b % 10)][1..] == [];
      assert Padded(a, width)[..width - 1] == p && Padded(b, width)[..width - 1] == q;
      assert Padded(a, width)[width - 1] == Digit(a % 10) && Padded(b, width)[width - 1] == Digit(b % 10);
    }
  }
}
