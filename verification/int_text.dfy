/** The integer <-> text conversions of the Swift standard library that the
    core relies on: `Int(_:radix:)` (and `Int(_:)`, its radix-10 form) and
    `String(_: Int)`. `Int` is the 64-bit signed integer of Apple platforms. */
module IntText {
  import opened Wrappers

  const MinInt64: int := -0x8000_0000_0000_0000
  const MaxInt64: int := 0x7FFF_FFFF_FFFF_FFFF

  predicate InInt64(n: int) {
    MinInt64 <= n <= MaxInt64
  }

  /** The value of an ASCII digit or letter (either case), 36 when the
      character is neither. */
  function DigitValue(c: char): (d: nat)
    ensures d <= 36
    ensures '0' <= c <= '9' ==> d == c as int - '0' as int
  {
    if '0' <= c <= '9' then c as int - '0' as int
    else if 'a' <= c <= 'z' then c as int - 'a' as int + 10
    else if 'A' <= c <= 'Z' then c as int - 'A' as int + 10
    else 36
  }

  predicate IsDigit(c: char, radix: nat) {
    DigitValue(c) < radix
  }

  predicate AllDigits(ds: string, radix: nat) {
    forall i :: 0 <= i < |ds| ==> IsDigit(ds[i], radix)
  }

  /** The value of a digit string read most significant digit first. */
  function DigitsValue(ds: string, radix: nat): nat
  {
    if |ds| == 0 then 0
    else DigitsValue(ds[..|ds| - 1], radix) * radix + DigitValue(ds[|ds| - 1])
  }

  /** `Int(text, radix: radix)`: an optional `+` or `-`, then one or more
      digits of the radix (letters in either case); nil when the text has any
      other shape or the value does not fit in 64 bits. Unsigned text is
      read as its digits, and a sign applies to the digits after it. */
  function ParseInt(text: string, radix: nat): (r: Option<int>)
    requires 2 <= radix <= 36
    ensures r.Some? ==> InInt64(r.value)
    ensures |text| == 0 ==> r.None?
    ensures r.Some? && AllDigits(text, radix) ==> r.value == DigitsValue(text, radix)
    ensures |text| > 0 && text[0] != '+' && text[0] != '-' ==>
      (r.Some? <==> AllDigits(text, radix) && InInt64(DigitsValue(text, radix)))
    ensures |text| > 0 && text[0] == '+' ==>
      (r.Some? <==> |text| > 1 && AllDigits(text[1..], radix) && InInt64(DigitsValue(text[1..], radix)))
      && (r.Some? ==> r.value == DigitsValue(text[1..], radix))
    ensures |text| > 0 && text[0] == '-' ==>
      (r.Some? <==> |text| > 1 && AllDigits(text[1..], radix) && InInt64(-(DigitsValue(text[1..], radix) as int)))
      && (r.Some? ==> r.value == -(DigitsValue(text[1..], radix) as int))
  {
    if |text| == 0 then None
    else
      var negative := text[0] == '-';
      var digits := if text[0] == '+' || text[0] == '-' then text[1..] else text;
      if |digits| == 0 || !AllDigits(digits, radix) then None
      else
        var magnitude := DigitsValue(digits, radix);
        var n: int := if negative then -(magnitude as int) else magnitude;
        if InInt64(n) then Some(n) else None
  }

  /** The decimal digit for 0 <= d < 10, the upper-case hex digit for d < 16. */
  function DigitChar(d: nat): (c: char)
    requires d < 16
    ensures DigitValue(c) == d
  {
    if d < 10 then ('0' as int + d) as char else ('A' as int + d - 10) as char
  }

  /** The decimal digits of a natural number, without leading zeros. */
  function DecimalDigits(n: nat): (ds: string)
    ensures |ds| > 0 && AllDigits(ds, 10)
    ensures ds[0] != '+' && ds[0] != '-'
    ensures ds[0] == '0' <==> n == 0
    ensures |ds| > 1 ==> ds[0] != '0'
    decreases n
  {
    if n < 10 then [DigitChar(n)] else DecimalDigits(n / 10) + [DigitChar(n % 10)]
  }

  /** `String(n)` for an `Int`: a `-` for negative values, then the decimal digits. */
  function FormatInt(n: int): (s: string)
    ensures |s| > 0
    ensures n < 0 <==> s[0] == '-'
    ensures s == "0" <==> n == 0
    ensures n < 0 ==> |s| > 1 && s[1] != '0'
    ensures n >= 0 && |s| > 1 ==> s[0] != '0'
  {
    if n < 0 then "-" + DecimalDigits(-n) else DecimalDigits(n)
  }

  lemma {:induction false} DecimalDigitsValue(n: nat)
    ensures DigitsValue(DecimalDigits(n), 10) == n
    decreases n
  {
    var ds := DecimalDigits(n);
    if n >= 10 {
      DecimalDigitsValue(n / 10);
      assert ds[..|ds| - 1] == DecimalDigits(n / 10);
    }
  }

  /** Reading back the text `String(n)` gives `n`: the decimal writer and
      reader of `Int` are inverse on every 64-bit value. */
  lemma ParseFormatRoundTrip(n: int)
    requires InInt64(n)
    ensures ParseInt(FormatInt(n), 10) == Some(n)
  {
    var text := FormatInt(n);
    if n < 0 {
      var ds := DecimalDigits(-n);
      DecimalDigitsValue(-n);
      assert text == "-" + ds;
      assert text[0] == '-' && text[1..] == ds;
    } else {
      var ds := DecimalDigits(n);
      DecimalDigitsValue(n);
      assert text == ds && text[0] != '+' && text[0] != '-';
    }
  }

  /** A two-character text read in radix 16 gives a value in -15 ... 255:
      a sign and one digit, or two digits. */
  lemma TwoCharHexRange(chunk: string)
    requires |chunk| == 2
    ensures ParseInt(chunk, 16).Some? ==> -15 <= ParseInt(chunk, 16).value <= 255
    ensures ParseInt(chunk, 16).Some? && (chunk[0] == '+' || chunk[0] == '-') ==> -15 <= ParseInt(chunk, 16).value <= 15
    ensures AllDigits(chunk, 16) ==> ParseInt(chunk, 16) == Some(16 * DigitValue(chunk[0]) + DigitValue(chunk[1]))
  {
    var first := DigitValue(chunk[0]);
    var second := DigitValue(chunk[1]);
    assert DigitsValue(chunk[..1], 16) == first by {
      assert chunk[..1][..0] == [];
    }
    assert chunk[..|chunk| - 1] == chunk[..1];
    assert DigitsValue(chunk, 16) == 16 * first + second;
    var digits := chunk[1..];
    assert digits[..0] == [] && digits[0] == chunk[1];
    assert DigitsValue(digits, 16) == second;
  }
}
