/**
 * Character-level helpers the program relies on: ASCII lower-casing
 * (`ToLowerInvariant`, `ToLower`), decimal numerals (the numbers in the
 * move list) and `int.TryParse` with its default number style.
 */
module Text {
  import opened Wrappers

  const Int32Min: int := -0x8000_0000
  const Int32Max: int := 0x7FFF_FFFF

  function LowerChar(c: char): char
  {
    if 'A' <= c <= 'Z' then (c as int - 'A' as int + 'a' as int) as char else c
  }

  /** Lower-cases every character of `s`, one for one. */
  function Lower(s: string): string
  {
    seq(|s|, i requires 0 <= i < |s| => LowerChar(s[i]))
  }

  lemma LowerAppend(s: string, t: string)
    ensures Lower(s + t) == Lower(s) + Lower(t)
  {
    assert forall i :: 0 <= i < |s + t| ==> Lower(s + t)[i] == (Lower(s) + Lower(t))[i];
  }

  predicate IsDigit(c: char)
  {
    '0' <= c <= '9'
  }

  predicate AllDigits(s: string)
  {
    forall i :: 0 <= i < |s| ==> IsDigit(s[i])
  }

  function DigitValue(c: char): nat
    requires IsDigit(c)
  {
    c as int - '0' as int
  }

  function Digit(d: nat): char
    requires d < 10
  {
    ('0' as int + d) as char
  }

  /** The value of a string of decimal digits, most significant first. */
  function DecimalValue(s: string): nat
    requires AllDigits(s)
  {
    if |s| == 0 then 0 else 10 * DecimalValue(s[..|s| - 1]) + DigitValue(s[|s| - 1])
  }

  /** The decimal numeral of `k`, as C# interpolates an `int`: digits only,
      no sign, no leading zero. */
  function DecimalString(k: nat): (s: string)
    ensures |s| > 0 && AllDigits(s)
    ensures s[0] == '0' ==> k == 0
  {
    if k < 10 then [Digit(k)] else DecimalString(k / 10) + [Digit(k % 10)]
  }

  lemma {:induction false} DecimalRoundTrip(k: nat)
    ensures DecimalValue(DecimalString(k)) == k
  {
    if k >= 10 {
      var s := DecimalString(k);
      assert s[..|s| - 1] == DecimalString(k / 10);
      DecimalRoundTrip(k / 10);
    }
  }

  /** The white space `int.TryParse` skips at either end: U+0009 to U+000D
      and the space. */
  predicate IsWhite(c: char)
  {
    c == ' ' || '\t' <= c <= '\r'
  }

  function TrimWhite(s: string): (t: string)
    ensures |t| <= |s|
    ensures |t| > 0 ==> !IsWhite(t[0]) && !IsWhite(t[|t| - 1])
    decreases |s|
  {
    if |s| > 0 && IsWhite(s[0]) then TrimWhite(s[1..])
    else if |s| > 0 && IsWhite(s[|s| - 1]) then TrimWhite(s[..|s| - 1])
    else s
  }

  predicate AllWhite(s: string)
  {
    forall i :: 0 <= i < |s| ==> IsWhite(s[i])
  }

  /** One more white character in front of a split string. */
  lemma WhiteBefore(c: char, s: string, f: string, t: string, b: string) returns (f': string)
    requires IsWhite(c) && AllWhite(f) && s == f + t + b
    ensures f' == [c] + f && AllWhite(f') && [c] + s == f' + t + b
  {
    f' := [c] + f;
    assert [c] + (f + t + b) == ([c] + f) + t + b;
  }

  /** One more white character after a split string. */
  lemma WhiteAfter(c: char, s: string, f: string, t: string, b: string) returns (b': string)
    requires IsWhite(c) && AllWhite(b) && s == f + t + b
    ensures b' == b + [c] && AllWhite(b') && s + [c] == f + t + b'
  {
    b' := b + [c];
    assert (f + t + b) + [c] == f + t + (b + [c]);
  }

  /** What trimming keeps: `s` is the trimmed text with only white space
      before it and after it. With the ends `TrimWhite` guarantees, this
      fixes the result exactly. */
  lemma {:induction false} TrimWhiteSplit(s: string) returns (front: string, back: string)
    ensures s == front + TrimWhite(s) + back
    ensures AllWhite(front) && AllWhite(back)
    decreases |s|
  {
    if |s| > 0 && IsWhite(s[0]) {
      var rest := s[1..];
      var f, b := TrimWhiteSplit(rest);
      assert TrimWhite(s) == TrimWhite(rest);
      assert s == [s[0]] + rest;
      front := WhiteBefore(s[0], rest, f, TrimWhite(rest), b);
      back := b;
    } else if |s| > 0 && IsWhite(s[|s| - 1]) {
      var rest := s[..|s| - 1];
      var f, b := TrimWhiteSplit(rest);
      assert TrimWhite(s) == TrimWhite(rest);
      assert s == rest + [s[|s| - 1]];
      front := f;
      back := WhiteAfter(s[|s| - 1], rest, f, TrimWhite(rest), b);
    } else {
      front, back := "", "";
    }
  }

  predicate IsSign(c: char)
  {
    c == '+' || c == '-'
  }

  /** An optional sign followed by one or more digits. */
  predicate IsNumeral(t: string)
  {
    (|t| > 0 && AllDigits(t)) || (|t| > 1 && IsSign(t[0]) && AllDigits(t[1..]))
  }

  /** The value a numeral denotes, negated after a `-`. */
  function NumeralValue(t: string): int
    requires IsNumeral(t)
  {
    if t[0] == '-' then 0 - DecimalValue(t[1..]) as int
    else if t[0] == '+' then DecimalValue(t[1..])
    else DecimalValue(t)
  }

  /** `int.TryParse(s, out v)` under `NumberStyles.Integer`, restricted to
      the signs `+` and `-`: optional surrounding white space, an optional
      sign, one or more ASCII digits, and a value that fits a 32-bit `int`. */
  function TryParseInt(s: string): (r: Option<int>)
    ensures r.Some? ==> Int32Min <= r.value <= Int32Max
    ensures |s| > 0 && AllDigits(s) && DecimalValue(s) <= Int32Max ==> r == Some(DecimalValue(s))
  {
    var t := TrimWhite(s);
    var signed := |t| > 0 && (t[0] == '+' || t[0] == '-');
    var digits := if signed then t[1..] else t;
    if |digits| == 0 || !AllDigits(digits) then None
    else
      var v: int := if signed && t[0] == '-' then 0 - DecimalValue(digits) as int else DecimalValue(digits);
      if Int32Min <= v <= Int32Max then Some(v) else None
  }

  /** Which lines parse, and to what: exactly those that, once trimmed,
      are an optional sign and one or more digits whose signed value fits
      32 bits; the value is that signed value. */
  lemma TryParseIntMeaning(s: string)
    ensures TryParseInt(s).Some? <==>
      IsNumeral(TrimWhite(s)) && Int32Min <= NumeralValue(TrimWhite(s)) <= Int32Max
    ensures TryParseInt(s).Some? ==> TryParseInt(s).value == NumeralValue(TrimWhite(s))
  {
    var t := TrimWhite(s);
    if |t| > 0 && IsSign(t[0]) {
      assert IsNumeral(t) <==> |t[1..]| > 0 && AllDigits(t[1..]);
    } else {
      assert IsNumeral(t) <==> |t| > 0 && AllDigits(t);
    }
  }

  /** Every decimal numeral of an `int` parses back to its value. */
  lemma ParsesDecimalString(k: nat)
    requires k <= Int32Max
    ensures TryParseInt(DecimalString(k)) == Some(k)
  {
    DecimalRoundTrip(k);
  }

  /** A sign and surrounding white space are accepted. */
  lemma TryParseAccepts()
    ensures TryParseInt(" +3 ") == Some(3)
    ensures TryParseInt("-12") == Some(-12)
  {
    assert TrimWhite(" +3 ") == TrimWhite("+3 ") == TrimWhite("+3") == "+3";
    assert "+3"[1..] == "3" && DecimalValue("3") == 3;
    assert TrimWhite("-12") == "-12";
    assert "-12"[1..] == "12" && "12"[..1] == "1";
    assert DecimalValue("1") == 1 && DecimalValue("12") == 12;
  }

  /** Letters, a trailing non-digit, a sign apart from its digits, a bare
      sign and the empty line are refused. */
  lemma TryParseRefuses()
    ensures TryParseInt("abc") == None
    ensures TryParseInt("1x") == None
    ensures TryParseInt("- 1") == None
    ensures TryParseInt("+") == None
    ensures TryParseInt("") == None
  {
    assert !IsDigit("abc"[0]);
    assert !IsDigit("1x"[1]);
    assert !IsDigit("- 1"[1..][0]);
  }
}
