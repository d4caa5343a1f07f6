/**
 * Extraction of a ban's expiration time from the text after the last colon:
 * `trimNonNumericCharacters` keeps the run of ASCII digits at the end of the
 * text, and `toTimestamp` parses that run with `strconv.ParseInt(_, 10, 64)`.
 */
module Timestamps {
  import opened Outcomes

  const MinInt64: int := -0x8000_0000_0000_0000
  const MaxInt64: int := 0x7FFF_FFFF_FFFF_FFFF

  /** Go's `int64`. */
  newtype int64 = x: int | MinInt64 <= x <= MaxInt64

  /** The two ways `strconv.ParseInt` fails (`strconv.ErrSyntax`, `strconv.ErrRange`). */
  datatype NumError = ErrSyntax | ErrRange

  predicate IsDigit(c: char)
  {
    '0' <= c <= '9'
  }

  predicate AllDigits(s: string)
  {
    forall k :: 0 <= k < |s| ==> IsDigit(s[k])
  }

  /** The run of ASCII digits that ends `s`, collected from the end. */
  function TrailingDigits(s: string): (r: string)
    ensures |r| <= |s| && AllDigits(r)
  {
    if |s| == 0 || !IsDigit(s[|s| - 1]) then ""
    else TrailingDigits(s[..|s| - 1]) + [s[|s| - 1]]
  }

  /**
   * `TrailingDigits(s)` is the maximal digit suffix of `s`: a suffix made of
   * digits that is either all of `s` or preceded by a character that is not one.
   */
  lemma {:induction false} TrailingDigitsIsMaximalRun(s: string)
    ensures var r := TrailingDigits(s);
      && |r| <= |s| && r == s[|s| - |r|..]
      && AllDigits(r)
      && (|r| < |s| ==> !IsDigit(s[|s| - |r| - 1]))
  {
    if |s| > 0 && IsDigit(s[|s| - 1]) {
      var s', c := s[..|s| - 1], s[|s| - 1];
      TrailingDigitsIsMaximalRun(s');
      var r' := TrailingDigits(s');
      var r := r' + [c];
      assert TrailingDigits(s) == r;
      assert r == s[|s| - |r|..] by {
        assert s == s' + [c];
        assert s[|s| - |r|..] == s'[|s'| - |r'|..] + [c];
      }
      assert |r| < |s| ==> s[|s| - |r| - 1] == s'[|s'| - |r'| - 1];
    }
  }

  /** Any maximal digit suffix of `s` is `TrailingDigits(s)`. */
  lemma {:induction false} TrailingDigitsUnique(s: string, t: string)
    requires |t| <= |s| && t == s[|s| - |t|..]
    requires AllDigits(t)
    requires |t| < |s| ==> !IsDigit(s[|s| - |t| - 1])
    ensures t == TrailingDigits(s)
  {
    if |t| > 0 {
      var s', t' := s[..|s| - 1], t[..|t| - 1];
      SuffixDropLast(s, t);
      assert AllDigits(t') by {
        forall k | 0 <= k < |t'| ensures IsDigit(t'[k]) {
          assert t'[k] == t[k];
        }
      }
      TrailingDigitsUnique(s', t');
    }
  }

  /** Dropping the last element of a suffix and of the whole sequence keeps it a suffix. */
  lemma SuffixDropLast<T>(s: seq<T>, t: seq<T>)
    requires 0 < |t| <= |s| && t == s[|s| - |t|..]
    ensures t[|t| - 1] == s[|s| - 1]
    ensures t[..|t| - 1] == s[..|s| - 1][|s| - |t|..]
    ensures |t| < |s| ==> s[..|s| - 1][|s| - |t| - 1] == s[|s| - |t| - 1]
    ensures t == t[..|t| - 1] + [t[|t| - 1]]
  {
    var n := |s| - |t|;
    var a, b := t[..|t| - 1], s[..|s| - 1][n..];
    forall k | 0 <= k < |a| ensures a[k] == b[k] {
      assert t[k] == s[n + k];
    }
    assert a == b;
  }

  /** Digits written after text that does not end in a digit are exactly the trailing run. */
  lemma TrailingDigitsAfter(prefix: string, d: string)
    requires AllDigits(d)
    requires |prefix| == 0 || !IsDigit(prefix[|prefix| - 1])
    ensures TrailingDigits(prefix + d) == d
  {
    var s := prefix + d;
    assert s[|s| - |d|..] == d;
    if |d| < |s| {
      assert s[|s| - |d| - 1] == prefix[|prefix| - 1];
    }
    TrailingDigitsUnique(s, d);
  }

  /**
   * `trimNonNumericCharacters`: walks `str` from its last character backward,
   * prepending each digit to the result, and stops at the first non-digit.
   */
  method TrimNonNumericCharacters(str: string) returns (newStr: string)
    ensures newStr == TrailingDigits(str)
  {
    newStr := "";
    var i := |str| - 1;
    while i >= 0
      invariant -1 <= i < |str|
      invariant newStr == str[i + 1..] && AllDigits(newStr)
    {
      if IsDigit(str[i]) {
        newStr := [str[i]] + newStr;
      } else {
        // the first non-digit from the end ends the run
        break;
      }
      i := i - 1;
    }
    TrailingDigitsUnique(str, newStr);
  }

  /** The value of one decimal digit. */
  function DigitValue(c: char): (v: nat)
    requires IsDigit(c)
    ensures v < 10
  {
    (c as int) - ('0' as int)
  }

  /** The base-10 value of a digit string, read left to right; `""` has value 0. */
  function DecimalValue(d: string): (v: nat)
    requires AllDigits(d)
  {
    if |d| == 0 then 0 else 10 * DecimalValue(d[..|d| - 1]) + DigitValue(d[|d| - 1])
  }

  /** The digit whose value is `v`. */
  function DigitChar(v: nat): (c: char)
    requires v < 10
    ensures IsDigit(c) && DigitValue(c) == v
  {
    ('0' as int + v) as char
  }

  /** The shortest decimal numeral of `n`, the inverse of `DecimalValue`. */
  function FormatDecimal(n: nat): (d: string)
    ensures |d| >= 1 && AllDigits(d)
    ensures |d| > 1 ==> d[0] != '0'
  {
    if n < 10 then [DigitChar(n)] else FormatDecimal(n / 10) + [DigitChar(n % 10)]
  }

  /** Reading back a formatted number gives the number. */
  lemma {:induction false} DecimalValueOfFormat(n: nat)
    ensures DecimalValue(FormatDecimal(n)) == n
  {
    var d := FormatDecimal(n);
    if n >= 10 {
      DecimalValueOfFormat(n / 10);
      assert d[..|d| - 1] == FormatDecimal(n / 10);
    }
  }

  /** A run of zeros has value 0. */
  lemma {:induction false} ZerosValue(z: string)
    requires forall k :: 0 <= k < |z| ==> z[k] == '0'
    ensures AllDigits(z) && DecimalValue(z) == 0
  {
    if |z| > 0 {
      ZerosValue(z[..|z| - 1]);
    }
  }

  /** Leading zeros do not change the value (no octal reading). */
  lemma {:induction false} LeadingZerosValue(z: string, d: string)
    requires forall k :: 0 <= k < |z| ==> z[k] == '0'
    requires AllDigits(d)
    ensures AllDigits(z + d) && DecimalValue(z + d) == DecimalValue(d)
  {
    ZerosValue(z);
    if |d| == 0 {
      assert z + d == z;
    } else {
      var d' := d[..|d| - 1];
      LeadingZerosValue(z, d');
      assert (z + d)[..|z + d| - 1] == z + d';
    }
  }

  /**
   * `strconv.ParseInt(d, 10, 64)` on a string of ASCII digits: a syntax error
   * on the empty string, a range error when the value exceeds the largest
   * int64, and the value otherwise.
   */
  function ParseInt64(d: string): (r: Result<int64, NumError>)
    requires AllDigits(d)
    ensures r.Ok? ==> r.value >= 0
  {
    if |d| == 0 then Err(ErrSyntax)
    else if DecimalValue(d) > MaxInt64 then Err(ErrRange)
    else Ok(DecimalValue(d) as int64)
  }

  /** `toTimestamp`: parse the trailing digit run of `str`. */
  function ToTimestamp(str: string): (r: Result<int64, NumError>)
    ensures r.Ok? ==> r.value >= 0
    ensures r == Err(ErrSyntax) <==> |str| == 0 || !IsDigit(str[|str| - 1])
  {
    ParseInt64(TrailingDigits(str))
  }

  /**
   * What `ToTimestamp` gives in every case: syntax error exactly when no
   * digit ends the text, range error exactly when the trailing number is too
   * large for an int64, and otherwise that number.
   */
  lemma ToTimestampCases(str: string)
    ensures var d := TrailingDigits(str);
      && (ToTimestamp(str) == Err(ErrSyntax) <==> d == "")
      && (ToTimestamp(str) == Err(ErrRange) <==> d != "" && DecimalValue(d) > MaxInt64)
      && (ToTimestamp(str).Ok? <==> d != "" && DecimalValue(d) <= MaxInt64)
      && (ToTimestamp(str).Ok? ==> ToTimestamp(str).value as int == DecimalValue(d))
  {
  }

  /**
   * A number written at the end of any text that does not itself end in a
   * digit reads back as that number, or as a range error past the int64 range.
   */
  lemma ToTimestampOfFormat(prefix: string, n: nat)
    requires |prefix| == 0 || !IsDigit(prefix[|prefix| - 1])
    ensures ToTimestamp(prefix + FormatDecimal(n))
         == if n <= MaxInt64 then Ok(n as int64) else Err(ErrRange)
  {
    TrailingDigitsAfter(prefix, FormatDecimal(n));
    DecimalValueOfFormat(n);
  }

  /** A timestamp made only of zeros, such as `"0"` or `"000"`, is 0, the permanent-ban value. */
  lemma ToTimestampOfZeros(prefix: string, z: string)
    requires |prefix| == 0 || !IsDigit(prefix[|prefix| - 1])
    requires |z| > 0 && forall k :: 0 <= k < |z| ==> z[k] == '0'
    ensures ToTimestamp(prefix + z) == Ok(0)
  {
    ZerosValue(z);
    TrailingDigitsAfter(prefix, z);
  }

  /** Examples: the trailing run stops at the last non-digit. */
  lemma TrailingDigitsExamples()
    ensures TrailingDigits("123abc") == ""
    ensures TrailingDigits("") == ""
    ensures TrailingDigits("abc123") == "123"
    ensures TrailingDigits("123") == "123"
  {
    TrailingDigitsUnique("abc123", "123");
    TrailingDigitsUnique("123", "123");
  }
}
