/**
  Base-10 text encoding of 32-bit signed integers, as the adapter uses it for
  field values: `Int.toString()` on the way in and `String.toInt()` (the JVM's
  `Integer.parseInt`) on the way out.
 */
module DecimalCodec {
  import opened Wrappers

  const MinInt: int := -0x8000_0000
  const MaxInt: int := 0x7fff_ffff

  /** Kotlin's `Int`. */
  type Int32 = x: int | MinInt <= x <= MaxInt

  predicate IsDigit(c: char) {
    '0' <= c <= '9'
  }

  predicate AllDigits(s: string) {
    forall i :: 0 <= i < |s| ==> IsDigit(s[i])
  }

  function DigitValue(c: char): (d: nat)
    requires IsDigit(c)
    ensures d < 10
  {
    c as int - '0' as int
  }

  function DigitChar(d: nat): (c: char)
    requires d < 10
    ensures IsDigit(c) && DigitValue(c) == d
  {
    ('0' as int + d) as char
  }

  /** The shortest decimal spelling of `n`: at least one digit, no leading zero. */
  function Digits(n: nat): (s: string)
    ensures |s| >= 1 && AllDigits(s)
    ensures s[0] == '0' ==> n == 0 && |s| == 1
  {
    if n < 10 then [DigitChar(n)] else Digits(n / 10) + [DigitChar(n % 10)]
  }

  /**
    The strings `Int.toString()` can produce: an optional minus sign followed
    by digits without a leading zero, where "0" itself is unsigned.
   */
  predicate IsCanonical(s: string) {
    && |s| >= 1
    && var body := if s[0] == '-' then s[1..] else s;
       && |body| >= 1
       && AllDigits(body)
       && (body[0] == '0' ==> |body| == 1 && s[0] != '-')
  }

  /** `Int.toString()`. */
  function Format(x: Int32): string {
    if x < 0 then "-" + Digits(-(x as int)) else Digits(x)
  }

  /**
    The digit loop of `Integer.parseInt`: reads `s` from the left, multiplying
    the running value `acc` by ten and adding each digit; `None` at the first
    character that is not a digit.
   */
  function ScanDigits(s: string, acc: nat): Option<nat> {
    if |s| == 0 then Some(acc)
    else if !IsDigit(s[0]) then None
    else ScanDigits(s[1..], 10 * acc + DigitValue(s[0]))
  }

  /**
    `String.toInt()`: an optional '-' or '+', then one or more digits, and the
    value must fit in an `Int`; anything else is a `NumberFormatException`,
    modelled as `None`.
   */
  function Parse(s: string): Option<Int32> {
    if |s| == 0 then None
    else
      var signed := s[0] == '-' || s[0] == '+';
      if signed && |s| == 1 then None
      else match ScanDigits(if signed then s[1..] else s, 0)
        case None => None
        case Some(magnitude) =>
          var v: int := if s[0] == '-' then -(magnitude as int) else magnitude;
          if MinInt <= v <= MaxInt then Some(v) else None
  }

  /** A stored field value the adapter can have written: it parses, and formatting the result gives it back. */
  predicate IsEncoding(s: string) {
    Parse(s).Some? && Format(Parse(s).value) == s
  }

  /** Appending a digit multiplies what was read so far by ten and adds the digit. */
  lemma {:induction false} ScanDigitsSnoc(s: string, c: char, acc: nat)
    requires AllDigits(s) && IsDigit(c)
    ensures ScanDigits(s, acc).Some?
    ensures ScanDigits(s + [c], acc) == Some(10 * ScanDigits(s, acc).value + DigitValue(c))
  {
    if |s| == 0 {
      assert s + [c] == [c] && [c][1..] == [];
    } else {
      assert (s + [c])[1..] == s[1..] + [c];
      ScanDigitsSnoc(s[1..], c, 10 * acc + DigitValue(s[0]));
    }
  }

  /** The digit loop succeeds only on a string made of digits alone. */
  lemma {:induction false} ScanDigitsOnlyDigits(s: string, acc: nat)
    ensures ScanDigits(s, acc).Some? ==> AllDigits(s)
  {
    if |s| > 0 && IsDigit(s[0]) {
      ScanDigitsOnlyDigits(s[1..], 10 * acc + DigitValue(s[0]));
      if ScanDigits(s, acc).Some? {
        assert forall i :: 1 <= i < |s| ==> s[i] == s[1..][i - 1];
      }
    }
  }

  /** Reading the digits written for `n` gives `n`. */
  lemma {:induction false} ScanDigitsOfDigits(n: nat)
    ensures ScanDigits(Digits(n), 0) == Some(n)
  {
    if n < 10 {
      assert Digits(n)[1..] == [];
    } else {
      ScanDigitsOfDigits(n / 10);
      ScanDigitsSnoc(Digits(n / 10), DigitChar(n % 10), 0);
    }
  }

  /** Reading back a digit string without superfluous leading zeros and writing the result spells it again. */
  lemma {:induction false} DigitsOfScanDigits(s: string)
    requires |s| >= 1 && AllDigits(s)
    requires s[0] == '0' ==> |s| == 1
    ensures ScanDigits(s, 0).Some? && Digits(ScanDigits(s, 0).value) == s
  {
    var last := s[|s| - 1];
    if |s| == 1 {
      assert s == [last] && s[1..] == [];
      assert DigitChar(DigitValue(last)) == last;
    } else {
      var prefix := s[..|s| - 1];
      assert prefix[0] == s[0];
      assert s == prefix + [last];
      DigitsOfScanDigits(prefix);
      ScanDigitsSnoc(prefix, last, 0);
      var v := ScanDigits(prefix, 0).value;
      var n := ScanDigits(s, 0).value;
      assert n == 10 * v + DigitValue(last);
      assert n / 10 == v && n % 10 == DigitValue(last);
      assert DigitChar(DigitValue(last)) == last;
    }
  }

  /** `Int.toString()` writes canonical text, with a minus sign exactly for negative numbers. */
  lemma FormatCanonical(x: Int32)
    ensures IsCanonical(Format(x))
    ensures Format(x)[0] == '-' <==> x < 0
  {
  }

  /** Decoding the text written for any `Int` gives the same `Int` back. */
  lemma ParseFormat(x: Int32)
    ensures Parse(Format(x)) == Some(x)
  {
    var s := Format(x);
    if x < 0 {
      var d := Digits(-(x as int));
      ScanDigitsOfDigits(-(x as int));
      assert s[0] == '-' && s[1..] == d;
    } else {
      ScanDigitsOfDigits(x);
      assert IsDigit(s[0]);
    }
  }

  /** `toInt()` on text that `toString()` wrote for `x` gives `x`. */
  method DecodeStored(s: string, ghost x: Int32) returns (v: Int32)
    requires s == Format(x)
    ensures v == x
  {
    ParseFormat(x);
    v := Parse(s).value;
  }

  /** Distinct `Int`s are written as distinct strings. */
  lemma FormatInjective(x: Int32, y: Int32)
    requires Format(x) == Format(y)
    ensures x == y
  {
    ParseFormat(x);
    ParseFormat(y);
  }

  /** Every canonical string that parses is the text written for the value it parses to. */
  lemma FormatParse(s: string)
    requires IsCanonical(s) && Parse(s).Some?
    ensures Format(Parse(s).value) == s
  {
    if s[0] == '-' {
      var body := s[1..];
      DigitsOfScanDigits(body);
      assert s == "-" + body;
    } else {
      DigitsOfScanDigits(s);
    }
  }

  /**
    Edge cases of `toInt()`: a leading '+', "-0" and leading zeros are
    accepted; an empty string, a lone sign and a stray letter are not.
   */
  lemma ParseEdgeCases()
    ensures Parse("+7") == Some(7) && Parse("-0") == Some(0) && Parse("007") == Some(7)
    ensures Parse("") == None && Parse("-") == None && Parse("+") == None && Parse("1a") == None
  {
    assert "+7"[1..] == "7" && "7"[1..] == [];
    assert "-0"[1..] == "0" && "0"[1..] == [];
  }

  /** The spelling of 214748364, the first nine digits of both ends of the `Int` range, one digit at a time. */
  lemma DigitsOfLimitPrefix()
    ensures Digits(214748364) == "214748364"
  {
    assert Digits(2) == "2";
    assert Digits(21) == Digits(2) + "1" == "21";
    assert Digits(214) == Digits(21) + "4" == "214";
    assert Digits(2147) == Digits(214) + "7" == "2147";
    assert Digits(21474) == Digits(2147) + "4" == "21474";
    assert Digits(214748) == Digits(21474) + "8" == "214748";
    assert Digits(2147483) == Digits(214748) + "3" == "2147483";
    assert Digits(21474836) == Digits(2147483) + "6" == "21474836";
    assert Digits(214748364) == Digits(21474836) + "4" == "214748364";
  }

  /** The range check of `toInt()`: one more than the largest `Int` is refused. */
  lemma ParseRejectsOverflow()
    ensures Parse("2147483648") == None
  {
    DigitsOfLimitPrefix();
    assert Digits(2147483648) == Digits(214748364) + "8" == "2147483648";
    ScanDigitsOfDigits(2147483648);
  }

  /** The range check of `toInt()`: one less than the smallest `Int` is refused. */
  lemma ParseRejectsUnderflow()
    ensures Parse("-2147483649") == None
  {
    DigitsOfLimitPrefix();
    assert Digits(2147483649) == Digits(214748364) + "9" == "2147483649";
    ScanDigitsOfDigits(2147483649);
    assert "-2147483649"[1..] == "2147483649";
  }

  /** The encodings are exactly the canonical strings whose value fits in an `Int`. */
  lemma EncodingIsCanonical(s: string)
    ensures IsEncoding(s) <==> IsCanonical(s) && Parse(s).Some?
  {
    if IsCanonical(s) && Parse(s).Some? {
      FormatParse(s);
    }
    if IsEncoding(s) {
      FormatCanonical(Parse(s).value);
    }
  }

  /** What `put` writes is an encoding. */
  lemma FormatIsEncoding(x: Int32)
    ensures IsEncoding(Format(x))
  {
    ParseFormat(x);
  }
}
