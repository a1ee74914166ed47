/** Rendering a whole number of seconds as `H:MM:SS` (app.py, `format_time`):
    a base-60 split by integer division, each field printed in decimal and
    zero-padded to at least two digits, the hours field unbounded. */
module TimeFormat {

  import opened Wrappers

  /** Hours, minutes and seconds of a duration. */
  datatype Hms = Hms(hours: nat, minutes: nat, seconds: nat)

  /** The number of seconds an `Hms` stands for. */
  function TotalOf(t: Hms): nat
  {
    t.hours * 3600 + t.minutes * 60 + t.seconds
  }

  /** The two `divmod` steps of `format_time`: first by 60 into minutes and
      seconds, then the minutes by 60 into hours and minutes. */
  function Split(total: nat): (t: Hms)
    ensures t.minutes < 60 && t.seconds < 60
    ensures TotalOf(t) == total
  {
    var m := total / 60;
    var t := Hms(m / 60, m % 60, total % 60);
    assert total == 60 * m + total % 60;
    assert m == 60 * (m / 60) + m % 60;
    t
  }

  /** The base-60 decomposition is the only one: any hours/minutes/seconds with
      minutes and seconds below 60 that add up to `total` are the ones `Split` gives. */
  lemma SplitUnique(total: nat, t: Hms)
    requires t.minutes < 60 && t.seconds < 60
    requires TotalOf(t) == total
    ensures Split(total) == t
  {
  }

  predicate IsDigit(c: char)
  {
    '0' <= c <= '9'
  }

  predicate AllDigits(s: string)
  {
    forall i :: 0 <= i < |s| ==> IsDigit(s[i])
  }

  /** The character of a decimal digit. */
  function DigitChar(d: nat): (c: char)
    requires d < 10
    ensures IsDigit(c) && (c as int) - ('0' as int) == d
  {
    ('0' as int + d) as char
  }

  /** Python's decimal rendering of a non-negative integer: no leading zeros,
      at least one digit. */
  function Decimal(n: nat): (r: string)
    ensures 1 <= |r| && AllDigits(r)
    ensures (n < 10) == (|r| == 1)
    ensures n < 100 ==> |r| <= 2
    ensures r[0] != '0' || n == 0
  {
    if n < 10 then [DigitChar(n)] else Decimal(n / 10) + [DigitChar(n % 10)]
  }

  /** The number a string of decimal digits denotes (leading zeros allowed). */
  function DigitsValue(s: string): nat
    requires AllDigits(s)
  {
    if s == [] then 0
    else 10 * DigitsValue(s[..|s| - 1]) + ((s[|s| - 1] as int) - ('0' as int))
  }

  /** Reading back the decimal rendering gives the number. */
  lemma {:induction false} DecimalValue(n: nat)
    ensures DigitsValue(Decimal(n)) == n
  {
    var r := Decimal(n);
    if n < 10 {
      assert r[..0] == [];
    } else {
      assert r[..|r| - 1] == Decimal(n / 10);
      DecimalValue(n / 10);
    }
  }

  /** Leading zeros do not change the value of a digit string. */
  lemma {:induction false} LeadingZeroValue(s: string)
    requires AllDigits(s)
    ensures DigitsValue(['0'] + s) == DigitsValue(s)
  {
    if s != [] {
      var z := ['0'] + s;
      assert z[..|z| - 1] == ['0'] + s[..|s| - 1];
      LeadingZeroValue(s[..|s| - 1]);
    } else {
      assert (['0'] + s)[..0] == [];
    }
  }

  /** The `:02d` format: decimal, left-padded with '0' to at least two characters. */
  function ZeroPad2(n: nat): (r: string)
    ensures 2 <= |r| && AllDigits(r)
    ensures n < 100 <==> |r| == 2
    ensures DigitsValue(r) == n
  {
    DecimalValue(n);
    if n < 10 then
      LeadingZeroValue(Decimal(n));
      ['0'] + Decimal(n)
    else
      Decimal(n)
  }

  /** `format_time` for a non-negative whole number of seconds. */
  function FormatTime(seconds: nat): (r: string)
    ensures 8 <= |r| && r[|r| - 3] == ':' && r[|r| - 6] == ':'
    ensures AllDigits(r[..|r| - 6]) && AllDigits(r[|r| - 5..|r| - 3]) && AllDigits(r[|r| - 2..])
    ensures seconds < 360000 ==> |r| == 8
  {
    var t := Split(seconds);
    var h, m, s := ZeroPad2(t.hours), ZeroPad2(t.minutes), ZeroPad2(t.seconds);
    var r := h + ":" + m + ":" + s;
    assert r[..|r| - 6] == h && r[|r| - 5..|r| - 3] == m && r[|r| - 2..] == s;
    r
  }

  /** Reference reader for the `H:MM:SS` text: the last two fields are exactly two
      digits each and below 60, the hours field is at least two digits. */
  function ParseTime(text: string): (r: Option<nat>)
    ensures r.Some? ==> |text| >= 8
  {
    if |text| < 8 || text[|text| - 3] != ':' || text[|text| - 6] != ':' then None
    else
      var h, m, s := text[..|text| - 6], text[|text| - 5..|text| - 3], text[|text| - 2..];
      if !AllDigits(h) || !AllDigits(m) || !AllDigits(s) then None
      else if DigitsValue(m) >= 60 || DigitsValue(s) >= 60 then None
      else Some(TotalOf(Hms(DigitsValue(h), DigitsValue(m), DigitsValue(s))))
  }

  /** Reading back a rendered duration gives the number of seconds. */
  lemma FormatParseRoundTrip(seconds: nat)
    ensures ParseTime(FormatTime(seconds)) == Some(seconds)
  {
    var t := Split(seconds);
    var h, m, s := ZeroPad2(t.hours), ZeroPad2(t.minutes), ZeroPad2(t.seconds);
    var r := h + ":" + m + ":" + s;
    assert r == FormatTime(seconds);
    assert r[..|r| - 6] == h && r[|r| - 5..|r| - 3] == m && r[|r| - 2..] == s;
  }

  /** Every well-formed text is the rendering of what it reads as, except for
      leading zeros in the hours field beyond two digits. */
  lemma ParseFormatCanonical(text: string)
    requires ParseTime(text).Some?
    requires text[0] != '0' || |text| == 8
    ensures FormatTime(ParseTime(text).value) == text
  {
    var h, m, s := text[..|text| - 6], text[|text| - 5..|text| - 3], text[|text| - 2..];
    var t := Hms(DigitsValue(h), DigitsValue(m), DigitsValue(s));
    SplitUnique(TotalOf(t), t);
    PadOf(m);
    PadOf(s);
    if |text| == 8 {
      PadOf(h);
    } else {
      assert h[0] == text[0];
      CanonicalDecimal(h);
      assert DigitsValue(h) >= 10 by { LongDigitsBig(h); }
    }
    var r := ZeroPad2(t.hours) + ":" + ZeroPad2(t.minutes) + ":" + ZeroPad2(t.seconds);
    assert r == text;
  }

  /** A two-digit string is the zero-padded rendering of its value. */
  lemma PadOf(s: string)
    requires |s| == 2 && AllDigits(s)
    ensures ZeroPad2(DigitsValue(s)) == s
  {
    assert s[..1][..0] == [] && s[..1][0] == s[0];
    assert DigitsValue(s[..1]) == (s[0] as int) - ('0' as int);
    var v := DigitsValue(s);
    var hi, lo := (s[0] as int) - ('0' as int), (s[1] as int) - ('0' as int);
    assert v == 10 * hi + lo;
    if v < 10 {
      assert hi == 0;
    } else {
      assert v / 10 == hi && v % 10 == lo;
      assert Decimal(v / 10) == [s[0]];
    }
  }

  /** A digit string with no leading zero is the decimal rendering of its value. */
  lemma {:induction false} CanonicalDecimal(s: string)
    requires 1 <= |s| && AllDigits(s) && (s[0] != '0' || |s| == 1)
    ensures Decimal(DigitsValue(s)) == s
  {
    var p := s[..|s| - 1];
    var d := (s[|s| - 1] as int) - ('0' as int);
    var v := DigitsValue(s);
    assert v == 10 * DigitsValue(p) + d;
    if |s| == 1 {
      assert p == [];
    } else {
      assert p[0] == s[0];
      CanonicalDecimal(p);
      LongDigitsBig(s);
      assert v / 10 == DigitsValue(p) && v % 10 == d;
      assert s == p + [s[|s| - 1]];
    }
  }

  /** A digit string of two or more characters with no leading zero denotes at least 10. */
  lemma {:induction false} LongDigitsBig(s: string)
    requires 2 <= |s| && AllDigits(s) && s[0] != '0'
    ensures DigitsValue(s) >= 10
  {
    var p := s[..|s| - 1];
    assert p[0] == s[0];
    if |p| == 1 {
      assert p[..0] == [];
    } else {
      LongDigitsBig(p);
    }
  }
}
