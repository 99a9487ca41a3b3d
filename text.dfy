/**
 * The few JavaScript string operations the calendar relies on: decimal rendering of a
 * non-negative integer (`Number.prototype.toString`), `String.prototype.padStart` with a
 * one-character filler, `String.prototype.trim`, and `length`, which counts UTF-16 code units.
 */
module Text {

  predicate IsDigit(c: char) {
    '0' <= c <= '9'
  }

  predicate AllDigits(s: string) {
    forall i :: 0 <= i < |s| ==> IsDigit(s[i])
  }

  function DigitChar(d: int): (c: char)
    requires 0 <= d < 10
    ensures IsDigit(c)
  {
    (d + '0' as int) as char
  }

  function DigitValue(c: char): (d: int)
    requires IsDigit(c)
    ensures 0 <= d < 10
  {
    c as int - '0' as int
  }

  lemma DigitRoundTrip(d: int)
    requires 0 <= d < 10
    ensures DigitValue(DigitChar(d)) == d
  {
  }

  /** Decimal digits of n, most significant first, without leading zeros. */
  function Decimal(n: nat): (s: string)
    ensures 1 <= |s|
    ensures AllDigits(s)
  {
    if n < 10 then [DigitChar(n)] else Decimal(n / 10) + [DigitChar(n % 10)]
  }

  /** The value of a string of decimal digits (an empty string reads as 0). */
  function ParseDecimal(s: string): nat
    requires AllDigits(s)
  {
    if s == [] then 0 else ParseDecimal(s[..|s| - 1]) * 10 + DigitValue(s[|s| - 1])
  }

  /** Reading back the decimal rendering of n gives n. */
  lemma {:induction false} ParseDecimalOfDecimal(n: nat)
    ensures ParseDecimal(Decimal(n)) == n
  {
    var s := Decimal(n);
    if n < 10 {
      DigitRoundTrip(n);
    } else {
      ParseDecimalOfDecimal(n / 10);
      DigitRoundTrip(n % 10);
      assert s[..|s| - 1] == Decimal(n / 10);
    }
  }

  /** Leading zeros do not change the value read. */
  lemma {:induction false} ParseDecimalLeadingZero(s: string)
    requires AllDigits(s)
    ensures AllDigits(['0'] + s) && ParseDecimal(['0'] + s) == ParseDecimal(s)
    decreases |s|
  {
    var z := ['0'] + s;
    if s != [] {
      assert z[..|z| - 1] == ['0'] + s[..|s| - 1];
      ParseDecimalLeadingZero(s[..|s| - 1]);
    }
  }

  function Repeat(c: char, k: nat): (r: string)
    ensures |r| == k && forall i :: 0 <= i < k ==> r[i] == c
  {
    seq(k, _ => c)
  }

  /** `s.padStart(width, fill)` for a one-character filler. */
  function PadStart(s: string, width: nat, fill: char): (r: string)
    ensures |r| == if |s| >= width then |s| else width
    ensures r[|r| - |s|..] == s
    ensures forall i :: 0 <= i < |r| - |s| ==> r[i] == fill
  {
    if |s| >= width then s else Repeat(fill, width - |s|) + s
  }

  /** Padding to one more place adds one filler in front. */
  lemma PadStartStep(s: string, width: nat, fill: char)
    requires |s| < width
    ensures PadStart(s, width, fill) == [fill] + PadStart(s, width - 1, fill)
  {
    var a, shorter := PadStart(s, width, fill), PadStart(s, width - 1, fill);
    var b := [fill] + shorter;
    forall i | 0 <= i < |a|
      ensures a[i] == b[i]
    {
      if i >= |a| - |s| {
        assert a[i] == a[|a| - |s|..][i - (|a| - |s|)];
        assert shorter[i - 1] == shorter[|shorter| - |s|..][i - (|a| - |s|)];
      }
    }
  }

  /** Zero-padding a digit string does not change its value. */
  lemma {:induction false} ParseDecimalZeroPadded(s: string, width: nat)
    requires AllDigits(s)
    ensures AllDigits(PadStart(s, width, '0'))
    ensures ParseDecimal(PadStart(s, width, '0')) == ParseDecimal(s)
    decreases width
  {
    if |s| < width {
      var shorter := PadStart(s, width - 1, '0');
      ParseDecimalZeroPadded(s, width - 1);
      ParseDecimalLeadingZero(shorter);
      PadStartStep(s, width, '0');
    }
  }

  /** String `<`: lexicographic comparison (code by code; a proper prefix is smaller). */
  predicate LexLess(a: string, b: string)
    decreases |a|
  {
    if b == [] then false
    else if a == [] then true
    else if a[0] != b[0] then a[0] < b[0]
    else LexLess(a[1..], b[1..])
  }

  /** Strings that agree before position i and differ first at i are ordered by their i-th characters. */
  lemma {:induction false} LexLessAtFirstDifference(a: string, b: string, i: nat)
    requires i < |a| && i < |b| && a[..i] == b[..i] && a[i] < b[i]
    ensures LexLess(a, b)
  {
    if i > 0 {
      assert a[0] == a[..i][0] == b[..i][0] == b[0];
      assert a[1..][..i - 1] == a[1..i] == b[1..i] == b[1..][..i - 1];
      LexLessAtFirstDifference(a[1..], b[1..], i - 1);
    }
  }

  // ---------------------------------------------------------------- trim

  /**
   * The characters `String.prototype.trim` removes: ECMAScript WhiteSpace (TAB, VT, FF,
   * SPACE, NBSP, ZWNBSP and the Unicode space separators) and LineTerminator (LF, CR, LS, PS).
   */
  predicate IsTrimmable(c: char) {
    c == '\t' || c == '\n' || c == '\U{000B}' || c == '\U{000C}' || c == '\r' || c == ' '
    || c == '\U{00A0}' || c == '\U{1680}' || ('\U{2000}' <= c <= '\U{200A}')
    || c == '\U{2028}' || c == '\U{2029}' || c == '\U{202F}' || c == '\U{205F}'
    || c == '\U{3000}' || c == '\U{FEFF}'
  }

  function TrimStart(s: string): string {
    if s != [] && IsTrimmable(s[0]) then TrimStart(s[1..]) else s
  }

  /** TrimStart drops the longest trimmable prefix: what remains is a suffix that does not start with one. */
  lemma {:induction false} TrimStartShape(s: string)
    ensures var r := TrimStart(s);
            |r| <= |s| && r == s[|s| - |r|..]
            && (r != [] ==> !IsTrimmable(r[0]))
            && forall i :: 0 <= i < |s| - |r| ==> IsTrimmable(s[i])
  {
    if s != [] && IsTrimmable(s[0]) {
      var t := s[1..];
      var r := TrimStart(t);
      TrimStartShape(t);
      assert t[|t| - |r|..] == s[|s| - |r|..];
      forall i | 0 <= i < |s| - |r|
        ensures IsTrimmable(s[i])
      {
        if i > 0 {
          assert s[i] == t[i - 1];
        }
      }
    }
  }

  function TrimEnd(s: string): string {
    if s != [] && IsTrimmable(s[|s| - 1]) then TrimEnd(s[..|s| - 1]) else s
  }

  /** TrimEnd drops the longest trimmable suffix: what remains is a prefix that does not end with one. */
  lemma {:induction false} TrimEndShape(s: string)
    ensures var r := TrimEnd(s);
            |r| <= |s| && r == s[..|r|]
            && (r != [] ==> !IsTrimmable(r[|r| - 1]))
            && forall i :: |r| <= i < |s| ==> IsTrimmable(s[i])
  {
    if s != [] && IsTrimmable(s[|s| - 1]) {
      var t := s[..|s| - 1];
      var r := TrimEnd(t);
      TrimEndShape(t);
      assert t[..|r|] == s[..|r|];
      forall i | |r| <= i < |s|
        ensures IsTrimmable(s[i])
      {
        if i < |s| - 1 {
          assert s[i] == t[i];
        }
      }
    }
  }

  /** `s.trim()`. */
  function Trim(s: string): string {
    TrimEnd(TrimStart(s))
  }

  /** Trimming leaves nothing exactly when every character is trimmable. */
  lemma TrimEmptyIffBlank(s: string)
    ensures Trim(s) == [] <==> forall i :: 0 <= i < |s| ==> IsTrimmable(s[i])
  {
    var r := TrimStart(s);
    TrimStartShape(s);
    TrimEndShape(r);
  }

  // ---------------------------------------------------------------- length

  /** `s.length`: code points above U+FFFF take two UTF-16 code units. */
  function Utf16Length(s: string): (n: nat)
    ensures |s| <= n <= 2 * |s|
  {
    if s == [] then 0 else (if s[0] as int > 0xFFFF then 2 else 1) + Utf16Length(s[1..])
  }

  /** For text in the Basic Multilingual Plane, `length` is the number of characters. */
  lemma {:induction false} Utf16LengthBmp(s: string)
    requires forall i :: 0 <= i < |s| ==> s[i] as int <= 0xFFFF
    ensures Utf16Length(s) == |s|
  {
    if s != [] {
      Utf16LengthBmp(s[1..]);
    }
  }
}
