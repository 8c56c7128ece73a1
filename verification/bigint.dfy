/** `BigInt(s)` on a string, as ECMAScript's StringToBigInt defines it: the
    string is trimmed; an empty result is 0n; otherwise it must be a decimal
    integer with an optional sign, or a `0x`, `0o` or `0b` literal without a
    sign. Anything else throws a SyntaxError, modelled as `None`. */
module BigIntParse {
  import opened Optional
  import Text

  /** The value of a digit character in bases up to 16; 16 for anything else. */
  function DigitValue(c: char): (d: nat)
    ensures d <= 16
  {
    if '0' <= c <= '9' then c as int - '0' as int
    else if 'a' <= c <= 'f' then c as int - 'a' as int + 10
    else if 'A' <= c <= 'F' then c as int - 'A' as int + 10
    else 16
  }

  predicate AllDigits(s: string, radix: nat) {
    forall i | 0 <= i < |s| :: DigitValue(s[i]) < radix
  }

  /** A non-empty string of decimal digits. */
  predicate IsDecimal(s: string) {
    |s| > 0 && AllDigits(s, 10)
  }

  function Pow(b: nat, e: nat): (r: nat)
    ensures b > 0 ==> r > 0
  {
    if e == 0 then 1 else b * Pow(b, e - 1)
  }

  /** The number written by the digits `s` in base `radix`, most significant first. */
  function DigitsValue(s: string, radix: nat): nat
    requires AllDigits(s, radix)
  {
    if |s| == 0 then 0
    else DigitsValue(s[..|s| - 1], radix) * radix + DigitValue(s[|s| - 1])
  }

  /** `n` digits in base `radix` stay below `radix` to the `n`. */
  lemma {:induction false} DigitsValueBound(s: string, radix: nat)
    requires radix > 0 && AllDigits(s, radix)
    ensures DigitsValue(s, radix) < Pow(radix, |s|)
    decreases |s|
  {
    if |s| > 0 {
      DigitsValueBound(s[..|s| - 1], radix);
      ShiftBound(DigitsValue(s[..|s| - 1], radix), DigitValue(s[|s| - 1]), Pow(radix, |s| - 1), radix);
    }
  }

  /** Appending a digit to a number below `p` gives a number below `p * radix`. */
  lemma ShiftBound(prefix: nat, d: nat, p: nat, radix: nat)
    requires prefix < p && d < radix
    ensures prefix * radix + d < p * radix
  {
    MulMonotonic(prefix + 1, p, radix);
  }

  lemma MulMonotonic(a: nat, b: nat, c: nat)
    requires a <= b
    ensures a * c <= b * c
  {
  }

  function DecimalValue(s: string): nat
    requires AllDigits(s, 10)
  {
    DigitsValue(s, 10)
  }

  /** The digits after a radix prefix: at least one, all valid. */
  function RadixLiteral(ds: string, radix: nat): Option<int> {
    if |ds| > 0 && AllDigits(ds, radix) then Some(DigitsValue(ds, radix)) else None
  }

  /** `BigInt(s)`: `s` is read without its leading and trailing white space,
      so text that has none is read as it stands. */
  function StringToBigInt(s: string): (r: Option<int>)
    ensures Text.Trimmed(s) ==> r == ParseTrimmed(s)
  {
    Text.TrimOfTrimmed(s);
    ParseTrimmed(Text.Trim(s))
  }

  /** The reading of the trimmed string `t`. A reading exists only for the
      empty string or for text that starts with a digit or a sign. */
  function ParseTrimmed(t: string): (r: Option<int>)
    ensures r.Some? && |t| > 0 ==> '0' <= t[0] <= '9' || t[0] == '-' || t[0] == '+'
  {
    if |t| == 0 then Some(0)
    else if |t| >= 2 && t[0] == '0' && (t[1] == 'x' || t[1] == 'X') then RadixLiteral(t[2..], 16)
    else if |t| >= 2 && t[0] == '0' && (t[1] == 'o' || t[1] == 'O') then RadixLiteral(t[2..], 8)
    else if |t| >= 2 && t[0] == '0' && (t[1] == 'b' || t[1] == 'B') then RadixLiteral(t[2..], 2)
    else if t[0] == '-' then
      match RadixLiteral(t[1..], 10)
      case Some(v) => Some(-v)
      case None => None
    else if t[0] == '+' then RadixLiteral(t[1..], 10)
    else RadixLiteral(t, 10)
  }

  /** White space alone, the empty string included, reads as 0. */
  lemma ParseBlank(s: string)
    requires Text.AllWhitespace(s)
    ensures StringToBigInt(s) == Some(0)
  {
    Text.TrimEmptyIff(s);
  }

  /** A decimal numeral reads as its value. */
  lemma ParseDecimal(s: string)
    requires IsDecimal(s)
    ensures StringToBigInt(s) == Some(DecimalValue(s))
  {
    assert DigitValue(s[|s| - 1]) < 10 && DigitValue(s[0]) < 10;
    Text.TrimOfTrimmed(s);
    if |s| >= 2 {
      assert DigitValue(s[1]) < 10;
    }
  }

  /** A decimal numeral after a `-` reads as the negated value. */
  lemma ParseNegative(s: string)
    requires IsDecimal(s)
    ensures StringToBigInt(['-'] + s) == Some(-(DecimalValue(s) as int))
  {
    var n := ['-'] + s;
    PrefixedTrimmed(['-'], s);
    Text.TrimOfTrimmed(n);
    assert n[0] == '-' && n[1..] == s;
  }

  /** A decimal numeral after a `+` reads as its value. */
  lemma ParsePositive(s: string)
    requires IsDecimal(s)
    ensures StringToBigInt(['+'] + s) == Some(DecimalValue(s))
  {
    var n := ['+'] + s;
    PrefixedTrimmed(['+'], s);
    Text.TrimOfTrimmed(n);
    assert n[0] == '+' && n[1..] == s;
  }

  /** The radix a literal prefix letter selects: 16 for `x`, 8 for `o`, 2 for `b`. */
  predicate RadixPrefix(c: char, radix: nat) {
    ((c == 'x' || c == 'X') && radix == 16)
    || ((c == 'o' || c == 'O') && radix == 8)
    || ((c == 'b' || c == 'B') && radix == 2)
  }

  /** `0x`, `0o` or `0b` followed by digits of that radix reads as their value
      in that radix. */
  lemma ParseRadixLiteral(c: char, ds: string, radix: nat)
    requires RadixPrefix(c, radix)
    requires |ds| > 0 && AllDigits(ds, radix)
    ensures StringToBigInt(['0', c] + ds) == Some(DigitsValue(ds, radix))
  {
    var n := ['0', c] + ds;
    PrefixedTrimmed(['0', c], ds);
    Text.TrimOfTrimmed(n);
    assert n[0] == '0' && n[1] == c && n[2..] == ds;
  }

  /** A radix literal takes no sign: `-0x1` or `+0b1` throws. */
  lemma SignedRadixRejected(sign: char, c: char, ds: string, radix: nat)
    requires sign == '-' || sign == '+'
    requires RadixPrefix(c, radix)
    requires |ds| > 0 && AllDigits(ds, radix)
    ensures StringToBigInt([sign, '0', c] + ds).None?
  {
    var n := [sign, '0', c] + ds;
    PrefixedTrimmed([sign, '0', c], ds);
    assert n[0] == sign && n[2] == c && DigitValue(c) >= 10;
    SignedRadixRead(n);
  }

  /** A sign followed by a character and then a letter that is not a decimal
      digit throws. */
  lemma SignedRadixRead(t: string)
    requires Text.Trimmed(t)
    requires |t| >= 3 && (t[0] == '-' || t[0] == '+')
    requires DigitValue(t[2]) >= 10
    ensures StringToBigInt(t).None?
  {
    SignedRadixTrimmed(t);
  }

  /** The trimmed form of `SignedRadixRead`. */
  lemma SignedRadixTrimmed(t: string)
    requires |t| >= 3 && (t[0] == '-' || t[0] == '+')
    requires DigitValue(t[2]) >= 10
    ensures ParseTrimmed(t).None?
  {
    assert t[1..][1] == t[2];
    assert !AllDigits(t[1..], 10);
  }

  /** A prefix that does not start with white space, followed by digits, has
      no white space to trim. */
  lemma PrefixedTrimmed(p: string, ds: string)
    requires |p| > 0 && !Text.IsWhitespace(p[0])
    requires |ds| > 0 && AllDigits(ds, 16)
    ensures Text.Trimmed(p + ds)
  {
    var n := p + ds;
    assert DigitValue(ds[|ds| - 1]) < 16;
    assert n[0] == p[0] && n[|n| - 1] == ds[|ds| - 1];
  }

  /** A string that is not blank, not a numeral and not a radix literal makes `BigInt` throw. */
  lemma ParseRejects(s: string)
    requires Text.Trim(s) != "" && '0' <= Text.Trim(s)[0] <= '9'
    requires !AllDigits(Text.Trim(s), 10)
    requires |Text.Trim(s)| >= 2 && Text.Trim(s)[0] == '0' ==> Text.Trim(s)[1] !in "xXoObB"
    ensures StringToBigInt(s).None?
  {
    RejectsTrimmed(Text.Trim(s));
  }

  /** The trimmed form of `ParseRejects`: a string that starts with a digit,
      has no radix prefix and is not all digits has no reading. */
  lemma RejectsTrimmed(t: string)
    requires t != "" && '0' <= t[0] <= '9'
    requires !AllDigits(t, 10)
    requires |t| >= 2 && t[0] == '0' ==> t[1] !in "xXoObB"
    ensures ParseTrimmed(t).None?
  {
    assert t[0] != '-' && t[0] != '+';
    if |t| >= 2 && t[0] == '0' {
      assert t[1] != 'x' && t[1] != 'X' && t[1] != 'o' && t[1] != 'O' && t[1] != 'b' && t[1] != 'B';
    }
  }

  /** An `x` after a leading digit other than `0` is no radix prefix: `"1x2"` throws. */
  lemma LetterAfterDigitRejected()
    ensures StringToBigInt("1x2").None?
  {
    var t := "1x2";
    assert DigitValue(t[1]) == 16;
    assert Text.Trimmed(t);
    RejectsTrimmed(t);
  }

  /** The decimal numeral of `n`, without leading zeros. */
  function ToDecimal(n: nat): (s: string)
    ensures IsDecimal(s)
    ensures |s| > 1 ==> s[0] != '0'
    decreases n
  {
    var last := ['0' + (n % 10) as char];
    if n < 10 then last else ToDecimal(n / 10) + last
  }

  /** Reading the decimal numeral of `n` gives back `n`. */
  lemma {:induction false} DecimalRoundTrip(n: nat)
    ensures DecimalValue(ToDecimal(n)) == n
    decreases n
  {
    var s := ToDecimal(n);
    var d := n % 10;
    assert DigitValue('0' + d as char) == d;
    if n >= 10 {
      DecimalRoundTrip(n / 10);
      assert s[..|s| - 1] == ToDecimal(n / 10);
      assert DigitsValue(s, 10) == DigitsValue(ToDecimal(n / 10), 10) * 10 + d;
    } else {
      assert s[..|s| - 1] == [];
      assert DigitsValue(s, 10) == DigitsValue([], 10) * 10 + d;
    }
  }

  /** `BigInt` of the decimal numeral of `n` is `n`. */
  lemma ParseToDecimal(n: nat)
    ensures StringToBigInt(ToDecimal(n)) == Some(n)
  {
    DecimalRoundTrip(n);
    ParseDecimal(ToDecimal(n));
  }

  /** A decimal numeral without a leading zero is at least the power of ten
      below its length. */
  lemma {:induction false} DecimalLowerBound(s: string)
    requires IsDecimal(s) && s[0] != '0'
    ensures DecimalValue(s) >= Pow(10, |s| - 1)
    decreases |s|
  {
    if |s| > 1 {
      DecimalLowerBound(s[..|s| - 1]);
    } else {
      assert DigitValue(s[0]) >= 1;
    }
  }

  /** Numeric order is not string order: a numeral with fewer digits is smaller
      than any longer one without a leading zero, whatever its first digit. */
  lemma LongerIsLarger(a: string, b: string)
    requires IsDecimal(a) && IsDecimal(b) && b[0] != '0'
    requires |a| < |b|
    ensures DecimalValue(a) < DecimalValue(b)
  {
    DecimalLowerBound(b);
    DigitsValueBound(a, 10);
    PowMonotonic(10, |a|, |b| - 1);
  }

  lemma {:induction false} PowMonotonic(b: nat, i: nat, j: nat)
    requires b > 0 && i <= j
    ensures Pow(b, i) <= Pow(b, j)
    decreases j
  {
    if i < j {
      PowMonotonic(b, i, j - 1);
    }
  }

  /** The value of a one-digit numeral is that digit's value. */
  lemma DigitsOne(s: string)
    requires |s| == 1 && AllDigits(s, 10)
    ensures DecimalValue(s) == DigitValue(s[0])
  {
    assert s[..0] == [];
    assert DigitsValue(s[..0], 10) == 0;
  }

  /** The value of a two-digit numeral is ten times its first digit plus its second. */
  lemma DigitsTwo(s: string)
    requires |s| == 2 && AllDigits(s, 10)
    ensures DecimalValue(s) == DigitValue(s[0]) * 10 + DigitValue(s[1])
  {
    var first := s[..1];
    assert first == [s[0]] && AllDigits(first, 10);
    assert DecimalValue(s) == DecimalValue(first) * 10 + DigitValue(s[1]);
    DigitsOne(first);
  }

  /** A two-digit numeral reads as ten times its first digit plus its second. */
  lemma ParseDigitPair(s: string)
    requires |s| == 2 && AllDigits(s, 10)
    ensures StringToBigInt(s) == Some(DigitValue(s[0]) * 10 + DigitValue(s[1]))
  {
    ParseDecimal(s);
    DigitsTwo(s);
  }

  /** `"9"` is below `"10"` as an id, although `'9'` sorts after `'1'`. */
  lemma NineBeforeTen()
    ensures StringToBigInt("9").Some? && StringToBigInt("10").Some?
    ensures StringToBigInt("9").value < StringToBigInt("10").value
  {
    assert IsDecimal("9") && IsDecimal("10");
    ParseDecimal("9");
    ParseDecimal("10");
    LongerIsLarger("9", "10");
  }
}
