/**
 * The two field formats of the CSV table: Go's date layout "2006-01-02"
 * and fmt's "%f" verb. Each has a parser that inverts it.
 */
module Formats {
  import opened Wrappers
  import opened DecimalText
  import opened Calendar
  import opened Csv

  const MicrosPerUnit: int := 1000000

  /** time.Time.Format("2006-01-02") of a civil date: year with at least four digits, two-digit month and day. */
  function LayoutDate(d: Date): string
  {
    FormatInt(d.year, 4) + "-" + FormatInt(d.month, 2) + "-" + FormatInt(d.day, 2)
  }

  /** The date field of Unix time t, in UTC. */
  function FormatDate(t: int): string
  {
    LayoutDate(CivilFromUnix(t))
  }

  /**
   * fmt.Sprintf("%f", x) for the price x = v / 10^6: a '-' for negative
   * prices, the integer part without leading zeros, '.', and exactly six
   * fractional digits.
   */
  function FormatClose(v: int): string
  {
    var m := if v < 0 then -v else v;
    SignText(v) + Digits(m / MicrosPerUnit) + "." + Pad(Digits(m % MicrosPerUnit), 6)
  }

  /** Reads "[-]Y...Y-MM-DD" (at least four year digits) back into a date. */
  function ParseDate(s: string): Option<Date>
  {
    var neg := |s| > 0 && s[0] == '-';
    var b := if neg then s[1..] else s;
    var n := |b|;
    if n < 10 || b[n - 6] != '-' || b[n - 3] != '-' then None
    else
      var ys, ms, ds := b[..n - 6], b[n - 5..n - 3], b[n - 2..];
      if !AllDigits(ys) || !AllDigits(ms) || !AllDigits(ds) then None
      else Some(Date(if neg then -(Value(ys) as int) else Value(ys), Value(ms), Value(ds)))
  }

  /** Reads "[-]I...I.FFFFFF" back into a number of millionths. */
  function ParseClose(s: string): Option<int>
  {
    var neg := |s| > 0 && s[0] == '-';
    var b := if neg then s[1..] else s;
    var n := |b|;
    if n < 8 || b[n - 7] != '.' then None
    else
      var ip, fp := b[..n - 7], b[n - 6..];
      if !AllDigits(ip) || !AllDigits(fp) then None
      else
        var m := Value(ip) * MicrosPerUnit + Value(fp);
        Some(if neg then -m else m)
  }

  // ---- date field ----

  /** ParseDate takes a date text apart at its two fixed-position '-' separators. */
  lemma {:induction false} ParseDateParts(sign: string, yb: string, ms: string, ds: string)
    requires sign == "" || sign == "-"
    requires |yb| >= 4 && |ms| == 2 && |ds| == 2
    requires AllDigits(yb) && AllDigits(ms) && AllDigits(ds)
    ensures ParseDate(sign + yb + "-" + ms + "-" + ds)
         == Some(Date(if sign == "-" then -(Value(yb) as int) else Value(yb), Value(ms), Value(ds)))
  {
    var s := sign + yb + "-" + ms + "-" + ds;
    var b := yb + "-" + ms + "-" + ds;
    if sign == "-" {
      assert s[0] == '-' && s[1..] == b;
    } else {
      assert s == b && s[0] == yb[0] && IsDigit(s[0]);
    }
    var n := |b|;
    assert b[..n - 6] == yb && b[n - 5..n - 3] == ms && b[n - 2..] == ds;
    assert b[n - 6] == '-' && b[n - 3] == '-';
  }

  /** The date field reads back as the date it prints. */
  lemma {:induction false} ParseLayoutDate(d: Date)
    requires ValidDate(d)
    ensures ParseDate(LayoutDate(d)) == Some(d)
  {
    assert Pow10(2) == 100;
    FormatIntFixedWidth(d.month, 2);
    FormatIntFixedWidth(d.day, 2);
    MagnitudeValue(d.year, 4);
    var yb := Magnitude(d.year, 4);
    ParseDateParts(SignText(d.year), yb, FormatInt(d.month, 2), FormatInt(d.day, 2));
  }

  /** Unix time t's date field reads back as t's civil date. */
  lemma {:induction false} ParseFormatDate(t: int)
    ensures ParseDate(FormatDate(t)) == Some(CivilFromUnix(t))
  {
    CivilFromDaysCorrect(t / SecondsPerDay);
    ParseLayoutDate(CivilFromUnix(t));
  }

  /** A text built from a sign, digit groups and '-' separators holds only digits and '-'. */
  lemma {:induction false} DateTextChars(sign: string, yb: string, ms: string, ds: string)
    requires sign == "" || sign == "-"
    requires |yb| >= 1 && AllDigits(yb) && AllDigits(ms) && AllDigits(ds)
    ensures var s := sign + yb + "-" + ms + "-" + ds;
      (IsDigit(s[0]) || s[0] == '-') && forall i :: 0 <= i < |s| ==> IsDigit(s[i]) || s[i] == '-'
  {
    var s := sign + yb + "-" + ms + "-" + ds;
    var k := |sign|;
    forall i | 0 <= i < |s| ensures IsDigit(s[i]) || s[i] == '-' {
      if i < k { assert s[i] == sign[i]; }
      else if i < k + |yb| { assert s[i] == yb[i - k]; }
      else if k + |yb| < i < k + |yb| + 1 + |ms| { assert s[i] == ms[i - k - |yb| - 1]; }
      else if k + |yb| + 1 + |ms| < i { assert s[i] == ds[i - k - |yb| - |ms| - 2]; }
    }
  }

  /** The three parts of a date field: a sign, the year digits and the two-digit month and day. */
  lemma {:induction false} LayoutDateParts(d: Date)
    requires ValidDate(d)
    ensures LayoutDate(d) == SignText(d.year) + Magnitude(d.year, 4) + "-" + FormatInt(d.month, 2) + "-" + FormatInt(d.day, 2)
    ensures |Magnitude(d.year, 4)| >= 4 && AllDigits(Magnitude(d.year, 4))
    ensures |FormatInt(d.month, 2)| == 2 && AllDigits(FormatInt(d.month, 2))
    ensures |FormatInt(d.day, 2)| == 2 && AllDigits(FormatInt(d.day, 2))
  {
    assert Pow10(2) == 100;
    FormatIntFixedWidth(d.month, 2);
    FormatIntFixedWidth(d.day, 2);
    MagnitudeValue(d.year, 4);
  }

  /**
   * For years 0 through 9999 the date field is exactly "YYYY-MM-DD":
   * ten characters, '-' at positions 4 and 7, digits elsewhere.
   */
  lemma {:induction false} LayoutDateShape(d: Date)
    requires ValidDate(d) && 0 <= d.year <= 9999
    ensures var s := LayoutDate(d);
      |s| == 10 && s[4] == '-' && s[7] == '-' &&
      AllDigits(s[..4]) && AllDigits(s[5..7]) && AllDigits(s[8..])
  {
    assert Pow10(2) == 100 && Pow10(4) == 10000;
    FormatIntFixedWidth(d.year, 4);
    FormatIntFixedWidth(d.month, 2);
    FormatIntFixedWidth(d.day, 2);
    DateTextShape(FormatInt(d.year, 4), FormatInt(d.month, 2), FormatInt(d.day, 2));
  }

  lemma {:induction false} DateTextShape(yb: string, ms: string, ds: string)
    requires |yb| == 4 && |ms| == 2 && |ds| == 2
    ensures var s := yb + "-" + ms + "-" + ds;
      |s| == 10 && s[4] == '-' && s[7] == '-' && s[..4] == yb && s[5..7] == ms && s[8..] == ds
  {
    var s := yb + "-" + ms + "-" + ds;
    assert s[..4] == yb && s[5..7] == ms && s[8..] == ds;
  }

  /** The date field holds only digits and '-', and starts with one of them. */
  lemma {:induction false} DateFieldIsPlain(t: int)
    ensures var s := FormatDate(t);
      |s| > 0 && (IsDigit(s[0]) || s[0] == '-') &&
      forall i :: 0 <= i < |s| ==> IsDigit(s[i]) || s[i] == '-'
  {
    var d := CivilFromUnix(t);
    CivilFromDaysCorrect(t / SecondsPerDay);
    LayoutDateParts(d);
    DateTextChars(SignText(d.year), Magnitude(d.year, 4), FormatInt(d.month, 2), FormatInt(d.day, 2));
  }

  // ---- close field ----

  /** ParseClose takes a price text apart at the '.' seven places from its end. */
  lemma {:induction false} ParseCloseParts(sign: string, ip: string, fp: string)
    requires sign == "" || sign == "-"
    requires |ip| >= 1 && |fp| == 6 && AllDigits(ip) && AllDigits(fp)
    ensures var m := Value(ip) * MicrosPerUnit + Value(fp);
      ParseClose(sign + ip + "." + fp) == Some(if sign == "-" then -m else m)
  {
    var s := sign + ip + "." + fp;
    var b := ip + "." + fp;
    if sign == "-" {
      assert s[0] == '-' && s[1..] == b;
    } else {
      assert s == b && s[0] == ip[0] && IsDigit(s[0]);
    }
    var n := |b|;
    assert b[..n - 7] == ip && b[n - 6..] == fp && b[n - 7] == '.';
  }

  /** The integer and fractional digit groups of FormatClose. */
  lemma {:induction false} CloseParts(v: int)
    ensures var m := if v < 0 then -v else v;
      var ip, fp := Digits(m / MicrosPerUnit), Pad(Digits(m % MicrosPerUnit), 6);
      FormatClose(v) == SignText(v) + ip + "." + fp &&
      |ip| >= 1 && |fp| == 6 && AllDigits(ip) && AllDigits(fp) &&
      Value(ip) * MicrosPerUnit + Value(fp) == m
  {
    var m := if v < 0 then -v else v;
    assert Pow10(6) == 1000000;
    DigitsLength(m % MicrosPerUnit, 6);
    ValueOfDigits(m / MicrosPerUnit);
    ValueOfDigits(m % MicrosPerUnit);
    ValueOfPad(Digits(m % MicrosPerUnit), 6);
  }

  /** The close field reads back as the number of millionths it prints. */
  lemma {:induction false} ParseFormatClose(v: int)
    ensures ParseClose(FormatClose(v)) == Some(v)
  {
    var m := if v < 0 then -v else v;
    CloseParts(v);
    ParseCloseParts(SignText(v), Digits(m / MicrosPerUnit), Pad(Digits(m % MicrosPerUnit), 6));
  }

  /**
   * The close field is an optional '-' (present exactly for negative
   * prices), at least one integer digit, '.', and exactly six digits.
   */
  lemma {:induction false} CloseFieldShape(v: int)
    ensures var s := FormatClose(v);
      var b := if v < 0 then s[1..] else s;
      |s| > 0 && (v < 0 <==> s[0] == '-') && |b| >= 8 && b[|b| - 7] == '.' &&
      AllDigits(b[..|b| - 7]) && AllDigits(b[|b| - 6..])
  {
    var m := if v < 0 then -v else v;
    CloseParts(v);
    CloseTextShape(SignText(v), Digits(m / MicrosPerUnit), Pad(Digits(m % MicrosPerUnit), 6));
  }

  lemma {:induction false} CloseTextShape(sign: string, ip: string, fp: string)
    requires sign == "" || sign == "-"
    requires |ip| >= 1 && |fp| == 6 && AllDigits(ip) && AllDigits(fp)
    ensures var s := sign + ip + "." + fp;
      var b := if sign == "-" then s[1..] else s;
      |s| > 0 && (sign == "-" <==> s[0] == '-') && |b| >= 8 && b[|b| - 7] == '.' &&
      b[..|b| - 7] == ip && b[|b| - 6..] == fp &&
      forall i :: 0 <= i < |s| ==> !CsvSpecial(s[i])
  {
    var s := sign + ip + "." + fp;
    var b := ip + "." + fp;
    if sign == "-" { assert s[1..] == b; } else { assert s == b && s[0] == ip[0]; }
    var n := |b|;
    assert b[..n - 7] == ip && b[n - 6..] == fp && b[n - 7] == '.';
    var k := |sign|;
    forall i | 0 <= i < |s| ensures !CsvSpecial(s[i]) {
      if i < k { assert s[i] == sign[i]; }
      else if i < k + |ip| { assert s[i] == ip[i - k]; }
      else if i > k + |ip| { assert s[i] == fp[i - k - |ip| - 1]; }
    }
  }

  /** A field without delimiters, quotes or line breaks that starts with a digit or '-' is written verbatim. */
  lemma {:induction false} NumericFieldIsPlain(f: string)
    requires forall i :: 0 <= i < |f| ==> !CsvSpecial(f[i])
    requires f != [] && (IsDigit(f[0]) || f[0] == '-')
    ensures PlainField(f)
  {
    assert f[0] != '\\';
  }

  /** Neither field contains a delimiter, quote or line break, and each starts with a digit or '-'. */
  lemma {:induction false} FieldsArePlain(t: int, v: int)
    ensures forall i :: 0 <= i < |FormatDate(t)| ==> !CsvSpecial(FormatDate(t)[i])
    ensures forall i :: 0 <= i < |FormatClose(v)| ==> !CsvSpecial(FormatClose(v)[i])
    ensures FormatDate(t) != [] && (IsDigit(FormatDate(t)[0]) || FormatDate(t)[0] == '-')
    ensures FormatClose(v) != [] && (IsDigit(FormatClose(v)[0]) || FormatClose(v)[0] == '-')
  {
    DateFieldIsPlain(t);
    var m := if v < 0 then -v else v;
    var ip := Digits(m / MicrosPerUnit);
    CloseParts(v);
    CloseTextShape(SignText(v), ip, Pad(Digits(m % MicrosPerUnit), 6));
    assert v >= 0 ==> FormatClose(v)[0] == ip[0];
  }
}
