/** Decimal numerals: fixed width, shortest form, and their order as strings. */
module Decimal {
  import opened Powers
  import opened Wrappers
  import opened JavaScript

  /** The `width` low decimal digits of n. */
  function Decimals(n: nat, width: nat): (s: string)
    ensures |s| == width
    ensures forall i :: 0 <= i < width ==> '0' <= s[i] <= '9'
  {
    if width == 0 then "" else Decimals(n / 10, width - 1) + [(48 + n % 10) as char]
  }

  function DecimalValue(s: string): int {
    if s == "" then 0 else 10 * DecimalValue(s[..|s| - 1]) + (s[|s| - 1] as int - 48)
  }

  lemma {:induction false} ValueOfDecimals(n: nat, width: nat)
    ensures Pow(10, width) > 0 && DecimalValue(Decimals(n, width)) == n % Pow(10, width)
  {
    PowPositive(10, width);
    if width > 0 {
      var p := Pow(10, width - 1);
      PowPositive(10, width - 1);
      ValueOfDecimals(n / 10, width - 1);
      assert Decimals(n, width)[..width - 1] == Decimals(n / 10, width - 1);
      DigitStep(n, 10, p);
    }
  }

  // ---------- Shortest form, and padding ----------

  function ToDecimal(n: nat): (s: string)
    ensures |s| >= 1
  {
    if n < 10 then [(48 + n) as char] else ToDecimal(n / 10) + [(48 + n % 10) as char]
  }

  function PadStart(s: string, width: nat): string {
    if |s| >= width then s else seq(width - |s|, _ => '0') + s
  }

  lemma {:induction false} DecimalsOfZero(width: nat)
    ensures Decimals(0, width) == seq(width, _ => '0')
  {
    if width > 0 {
      DecimalsOfZero(width - 1);
    }
  }

  lemma {:induction false} PaddedDecimal(n: nat, width: nat)
    requires width >= 1 && n < Pow(10, width)
    ensures PadStart(ToDecimal(n), width) == Decimals(n, width)
  {
    if n < 10 {
      DecimalsOfZero(width - 1);
    } else {
      var w: nat := width - 1;
      assert w == 0 ==> Pow(10, w) == 1;
      PaddedDecimal(n / 10, width - 1);
    }
  }

  lemma {:induction false} DecimalsOfMod(n: nat, width: nat)
    ensures Pow(10, width) > 0 && Decimals(n % Pow(10, width), width) == Decimals(n, width)
  {
    PowPositive(10, width);
    if width > 0 {
      var p := Pow(10, width - 1);
      PowPositive(10, width - 1);
      DecimalsOfMod(n / 10, width - 1);
      DigitStep(n, 10, p);
      var m := n % (10 * p);
      assert m / 10 == n / 10 % p && m % 10 == n % 10;
    }
  }

  lemma ShownCode(n: nat, width: nat)
    requires width >= 1
    ensures Pow(10, width) > 0 && PadStart(ToDecimal(n % Pow(10, width)), width) == Decimals(n, width)
  {
    DecimalsOfMod(n, width);
    PaddedDecimal(n % Pow(10, width), width);
  }

  // ---------- Reading numerals ----------

  predicate IsDigit(c: char) {
    '0' <= c <= '9'
  }

  /** A string of digits is the numeral of its value at its width. */
  lemma {:induction false} SpelledBack(s: string)
    requires forall i :: 0 <= i < |s| ==> IsDigit(s[i])
    ensures DecimalValue(s) >= 0 && Decimals(DecimalValue(s), |s|) == s
  {
    if s != "" {
      var init, last := s[..|s| - 1], s[|s| - 1];
      SpelledBack(init);
      var n: nat := DecimalValue(init);
      assert DecimalValue(s) / 10 == n && DecimalValue(s) % 10 == last as int - 48;
      assert s == init + [last];
    }
  }

  function DigitPrefix(s: string): string {
    if s != "" && IsDigit(s[0]) then [s[0]] + DigitPrefix(s[1..]) else ""
  }

  function SkipBlanks(s: string): string {
    if s != "" && IsBlank(s[0]) then SkipBlanks(s[1..]) else s
  }

  /** JavaScript's `parseInt(s, 10)`; no value stands for NaN. */
  function ParseInt(s: string): Option<int> {
    var t := SkipBlanks(s);
    var negative := t != "" && t[0] == '-';
    var body := if t != "" && (t[0] == '-' || t[0] == '+') then t[1..] else t;
    var digits := DigitPrefix(body);
    if digits == "" then None else Some(if negative then -DecimalValue(digits) else DecimalValue(digits))
  }

  // `n.toString()`
  function ToString(n: int): string {
    if n < 0 then "-" + ToDecimal(-n) else ToDecimal(n)
  }

  lemma {:induction false} DigitsOfDecimal(n: nat)
    ensures forall i :: 0 <= i < |ToDecimal(n)| ==> IsDigit(ToDecimal(n)[i])
    ensures DecimalValue(ToDecimal(n)) == n
  {
    if n >= 10 {
      DigitsOfDecimal(n / 10);
      assert ToDecimal(n)[..|ToDecimal(n)| - 1] == ToDecimal(n / 10);
    } else {
      assert [(48 + n) as char][..0] == "";
    }
  }

  lemma {:induction false} DigitPrefixOfDigits(s: string)
    requires forall i :: 0 <= i < |s| ==> IsDigit(s[i])
    ensures DigitPrefix(s) == s
  {
    if s != "" {
      DigitPrefixOfDigits(s[1..]);
    }
  }

  /** Printing an integer and parsing it gives it back. */
  lemma PrintThenParse(n: int)
    ensures ParseInt(ToString(n)) == Some(n)
  {
    hide ToDecimal, DecimalValue, DigitPrefix;
    var m := if n < 0 then -n else n;
    var d := ToDecimal(m);
    DigitsOfDecimal(m);
    DigitPrefixOfDigits(d);
    assert IsDigit(d[0]);
    assert ("-" + d)[1..] == d;
  }

  lemma {:induction false} DigitPrefixStops(s: string, t: string)
    requires (forall i :: 0 <= i < |s| ==> IsDigit(s[i])) && (t != "" ==> !IsDigit(t[0]))
    ensures DigitPrefix(s + t) == s
  {
    if s == "" {
      assert s + t == t;
    } else {
      DigitPrefixStops(s[1..], t);
      assert (s + t)[1..] == s[1..] + t;
    }
  }

  lemma {:induction false} BlanksAreSkipped(blanks: string, s: string)
    requires (forall i :: 0 <= i < |blanks| ==> IsBlank(blanks[i])) && (s != "" ==> !IsBlank(s[0]))
    ensures SkipBlanks(blanks + s) == s
  {
    if blanks == "" {
      assert blanks + s == s;
    } else {
      BlanksAreSkipped(blanks[1..], s);
      assert (blanks + s)[1..] == blanks[1..] + s;
    }
  }

  /** Parsing skips blanks before a numeral and everything behind it, and takes a sign; a plus sign changes nothing. */
  lemma ParseReads(blanks: string, sign: string, n: nat, rest: string)
    requires (forall i :: 0 <= i < |blanks| ==> IsBlank(blanks[i])) && sign in {"", "+", "-"}
    requires rest != "" ==> !IsDigit(rest[0])
    ensures ParseInt(blanks + sign + ToString(n) + rest) == Some(if sign == "-" then -(n as int) else n as int)
  {
    hide ToDecimal, DecimalValue, DigitPrefix, SkipBlanks;
    var d := ToDecimal(n);
    DigitsOfDecimal(n);
    var t := sign + d + rest;
    assert IsDigit(d[0]);
    assert t[0] == if sign == "" then d[0] else sign[0];
    BlanksAreSkipped(blanks, t);
    assert blanks + sign + ToString(n) + rest == blanks + t;
    assert sign != "" ==> t[1..] == d + rest;
    assert sign == "" ==> t == d + rest;
    DigitPrefixStops(d, rest);
  }

  /** Nothing is parsed where no digit follows the blanks and the sign. */
  lemma ParseRefuses(blanks: string, sign: string, rest: string)
    requires (forall i :: 0 <= i < |blanks| ==> IsBlank(blanks[i])) && sign in {"", "+", "-"}
    requires rest != "" ==> !IsDigit(rest[0]) && !IsBlank(rest[0]) && rest[0] != '+' && rest[0] != '-'
    ensures ParseInt(blanks + sign + rest) == None
  {
    hide SkipBlanks;
    var t := sign + rest;
    BlanksAreSkipped(blanks, t);
    assert blanks + sign + rest == blanks + t;
    assert sign != "" ==> t[1..] == rest;
    assert sign == "" ==> t == rest;
  }

  // ---------- The order of strings ----------

  predicate LexLeq(a: string, b: string) {
    if a == "" then true
    else if b == "" then false
    else if a[0] != b[0] then a[0] < b[0]
    else LexLeq(a[1..], b[1..])
  }

  lemma {:induction false} LexTotal(a: string, b: string)
    ensures LexLeq(a, b) || LexLeq(b, a)
    ensures LexLeq(a, b) && LexLeq(b, a) <==> a == b
  {
    if a != "" && b != "" && a[0] == b[0] {
      LexTotal(a[1..], b[1..]);
      assert a == [a[0]] + a[1..] && b == [b[0]] + b[1..];
    }
  }

  lemma {:induction false} LexTransitive(a: string, b: string, c: string)
    requires LexLeq(a, b) && LexLeq(b, c)
    ensures LexLeq(a, c)
  {
    if a != "" && a[0] == b[0] == c[0] {
      LexTransitive(a[1..], b[1..], c[1..]);
    }
  }

  lemma {:induction false} LexAppend(s: string, t: string, c: char, d: char)
    requires |s| == |t|
    ensures LexLeq(s + [c], t + [d]) <==> if s == t then c <= d else LexLeq(s, t)
  {
    if s == "" {
      assert s + [c] == [c] && t + [d] == [d] && [c][1..] == [d][1..] == "";
    } else {
      LexAppend(s[1..], t[1..], c, d);
      assert (s + [c])[1..] == s[1..] + [c] && (t + [d])[1..] == t[1..] + [d];
      assert s == [s[0]] + s[1..] && t == [t[0]] + t[1..];
    }
  }

  /** Between numerals of one length, string order is numeric order. */
  lemma {:induction false} LexIsNumeric(a: nat, b: nat)
    requires |ToDecimal(a)| == |ToDecimal(b)|
    ensures LexLeq(ToDecimal(a), ToDecimal(b)) <==> a <= b
    ensures ToDecimal(a) == ToDecimal(b) <==> a == b
  {
    DigitsOfDecimal(a);
    DigitsOfDecimal(b);
    if a >= 10 && b >= 10 {
      LexIsNumeric(a / 10, b / 10);
      LexAppend(ToDecimal(a / 10), ToDecimal(b / 10), (48 + a % 10) as char, (48 + b % 10) as char);
    } else {
      assert a < 10 && b < 10;
      assert [(48 + a) as char][1..] == "";
    }
  }
}
