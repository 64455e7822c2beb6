/** `formatDuration`: a whole number of seconds shown as minutes, a colon and
    two-digit seconds, as in "1:05" or "10:00"; the minutes are neither padded
    nor capped. */
module Format {
  import opened Wrappers

  predicate IsDigit(c: char) {
    '0' <= c <= '9'
  }

  predicate AllDigits(s: string) {
    forall i :: 0 <= i < |s| ==> IsDigit(s[i])
  }

  function DigitChar(d: nat): (c: char)
    requires d < 10
    ensures IsDigit(c)
  {
    ('0' as int + d) as char
  }

  function DigitValue(c: char): (d: nat)
    requires IsDigit(c)
    ensures d < 10
  {
    c as int - '0' as int
  }

  /** `n.toString()` for a whole number: its decimal digits, with no leading
      zero. */
  function DecimalString(n: nat): (r: string)
    ensures |r| >= 1 && AllDigits(r)
    ensures r[0] == '0' ==> n == 0
    decreases n
  {
    if n < 10 then [DigitChar(n)] else DecimalString(n / 10) + [DigitChar(n % 10)]
  }

  /** The value of a string of decimal digits. */
  function ParseDecimal(s: string): nat
    requires AllDigits(s)
    decreases |s|
  {
    if s == [] then 0 else ParseDecimal(s[..|s| - 1]) * 10 + DigitValue(s[|s| - 1])
  }

  /** `s.padStart(width, fill)`: `fill` repeated in front of `s` up to
      `width` characters; `s` itself when already that long. */
  function PadStart(s: string, width: nat, fill: char): (r: string)
    ensures |r| == if |s| >= width then |s| else width
    ensures s <= r[|r| - |s|..] && r[|r| - |s|..] <= s
    ensures forall i :: 0 <= i < |r| - |s| ==> r[i] == fill
  {
    if |s| >= width then s else seq(width - |s|, _ => fill) + s
  }

  /** `${mins}:${secs.toString().padStart(2, '0')}` with `mins` and `secs`
      the quotient and remainder of `seconds` by 60. */
  function FormatDuration(seconds: nat): (r: string)
    ensures |r| >= 4 && r[|r| - 3] == ':'
    ensures AllDigits(r[..|r| - 3]) && AllDigits(r[|r| - 2..])
  {
    var m := DecimalString(seconds / 60);
    var f := PadStart(DecimalString(seconds % 60), 2, '0');
    SecondsField(seconds);
    DigitFields(m, f);
    m + ":" + f
  }

  /** Reads back a duration: minutes in digits, a colon, and two digits of
      seconds below 60. */
  function ParseDuration(t: string): (r: Option<nat>)
    ensures r.Some? ==> |t| >= 4 && t[|t| - 3] == ':' && AllDigits(t[|t| - 2..]) && ParseDecimal(t[|t| - 2..]) < 60
  {
    if |t| >= 4 && t[|t| - 3] == ':' && AllDigits(t[..|t| - 3]) && AllDigits(t[|t| - 2..])
       && ParseDecimal(t[|t| - 2..]) < 60
    then Some(ParseDecimal(t[..|t| - 3]) * 60 + ParseDecimal(t[|t| - 2..]))
    else None
  }

  // ---------------------------------------------------------------------------
  // Properties

  /** The digits of a number read back as that number. */
  lemma {:induction false} ParseDecimalString(n: nat)
    ensures ParseDecimal(DecimalString(n)) == n
    decreases n
  {
    if n >= 10 {
      var r := DecimalString(n);
      assert r[..|r| - 1] == DecimalString(n / 10);
      ParseDecimalString(n / 10);
    }
  }

  /** The seconds field: always exactly two digits, reading back as
      `seconds % 60`, which is at most 59. */
  lemma SecondsField(seconds: nat)
    ensures var f := PadStart(DecimalString(seconds % 60), 2, '0');
      |f| == 2 && AllDigits(f) && ParseDecimal(f) == seconds % 60 && ParseDecimal(f) <= 59
  {
    var d := DecimalString(seconds % 60);
    var f := PadStart(d, 2, '0');
    ParseDecimalString(seconds % 60);
    if seconds % 60 < 10 {
      assert f == ['0'] + d;
      assert f[..1] == ['0'];
    } else {
      assert d == DecimalString(seconds % 60 / 10) + [DigitChar(seconds % 60 % 10)];
      assert f == d;
    }
  }

  /** Reading a formatted duration back gives the seconds it was made from:
      `mins * 60 + secs == seconds`. */
  lemma FormatParseRoundTrip(seconds: nat)
    ensures ParseDuration(FormatDuration(seconds)) == Some(seconds)
  {
    var m := DecimalString(seconds / 60);
    var f := PadStart(DecimalString(seconds % 60), 2, '0');
    SecondsField(seconds);
    ParseDecimalString(seconds / 60);
    ParseFields(m, f);
    FormatFromFields(seconds, m, f);
    assert ParseDecimal(m) * 60 + ParseDecimal(f) == seconds;
  }

  /** A digit string, a colon and two digits below 60 parse as minutes and
      seconds. */
  lemma ParseFields(m: string, f: string)
    requires |m| >= 1 && AllDigits(m) && |f| == 2 && AllDigits(f) && ParseDecimal(f) < 60
    ensures ParseDuration(m + ":" + f) == Some(ParseDecimal(m) * 60 + ParseDecimal(f))
  {
    ColonSplit(m, f);
    ParseSplit(m + ":" + f, m, f);
  }

  /** A text of the accepted shape parses as its two fields. */
  lemma ParseSplit(t: string, m: string, f: string)
    requires |t| == |m| + 3 && t[..|t| - 3] == m && t[|t| - 3] == ':' && t[|t| - 2..] == f
    requires |m| >= 1 && AllDigits(m) && AllDigits(f) && ParseDecimal(f) < 60
    ensures ParseDuration(t) == Some(ParseDecimal(m) * 60 + ParseDecimal(f))
  {
  }

  /** A run of digits, a colon and two digits has the shape the formatter
      promises. */
  lemma DigitFields(m: string, f: string)
    requires |m| >= 1 && AllDigits(m) && |f| == 2 && AllDigits(f)
    ensures |m + ":" + f| >= 4 && (m + ":" + f)[|m + ":" + f| - 3] == ':'
    ensures AllDigits((m + ":" + f)[..|m + ":" + f| - 3])
    ensures AllDigits((m + ":" + f)[|m + ":" + f| - 2..])
  {
    ColonSplit(m, f);
  }

  /** Where the colon of `m + ":" + f` sits, and what lies on either side. */
  lemma ColonSplit(m: string, f: string)
    requires |f| == 2
    ensures var t := m + ":" + f;
      |t| == |m| + 3 && t[..|t| - 3] == m && t[|t| - 3] == ':' && t[|t| - 2..] == f
  {
    var t := m + ":" + f;
    assert t == m + [':'] + f;
  }

  /** Different numbers of seconds are shown differently. */
  lemma FormatDurationInjective(a: nat, b: nat)
    requires FormatDuration(a) == FormatDuration(b)
    ensures a == b
  {
    FormatParseRoundTrip(a);
    FormatParseRoundTrip(b);
  }

  /** The minutes are not padded or capped: ten minutes is "10:00", and
      65 seconds is "1:05". */
  lemma FormatExamples()
    ensures FormatDuration(600) == "10:00"
    ensures FormatDuration(65) == "1:05"
  {
    TenMinutes();
    OneMinuteFive();
  }

  lemma TenMinutes()
    ensures FormatDuration(600) == "10:00"
  {
    TwoDigits(10);
    PaddedDigit(0);
    FormatFromFields(600, "10", "00");
    assert "10" + ":" + "00" == "10:00";
  }

  lemma OneMinuteFive()
    ensures FormatDuration(65) == "1:05"
  {
    assert DecimalString(1) == "1";
    PaddedDigit(5);
    FormatFromFields(65, "1", "05");
    assert "1" + ":" + "05" == "1:05";
  }

  /** The minutes, the colon and the padded seconds, side by side. */
  lemma FormatFromFields(seconds: nat, m: string, f: string)
    requires DecimalString(seconds / 60) == m
    requires PadStart(DecimalString(seconds % 60), 2, '0') == f
    ensures FormatDuration(seconds) == m + ":" + f
  {
  }

  /** A one-digit number of seconds gets one leading zero. */
  lemma PaddedDigit(d: nat)
    requires d < 10
    ensures PadStart(DecimalString(d), 2, '0') == ['0', DigitChar(d)]
  {
    assert DecimalString(d) == [DigitChar(d)];
    assert seq(1, _ => '0') == ['0'];
  }

  /** A number from 10 to 99 is written with two digits. */
  lemma TwoDigits(n: nat)
    requires 10 <= n < 100
    ensures DecimalString(n) == [DigitChar(n / 10), DigitChar(n % 10)]
  {
    assert DecimalString(n / 10) == [DigitChar(n / 10)];
  }
}
