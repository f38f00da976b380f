/** The HH:MM:SS timer display: whole seconds split by integer division
    and remainder, each field rendered in decimal and zero-padded to two
    characters. Seconds are never negative, so Dafny's Euclidean `/` and `%`
    agree with `Math.floor(a / b)` and `%` on the page's numbers. */
module Clock {

  const SecondsPerHour: nat := 3600
  const SecondsPerMinute: nat := 60

  predicate IsDigit(c: char) {
    '0' <= c <= '9'
  }

  predicate IsDigits(s: string) {
    forall i :: 0 <= i < |s| ==> IsDigit(s[i])
  }

  /** The character for the decimal digit d. */
  function DigitChar(d: nat): (c: char)
    requires d < 10
    ensures IsDigit(c) && c as int - '0' as int == d
  {
    ('0' as int + d) as char
  }

  /** The number a string of decimal digits denotes; leading zeros are allowed. */
  function DigitsValue(s: string): nat
    requires IsDigits(s)
  {
    if s == [] then 0
    else DigitsValue(s[..|s| - 1]) * 10 + (s[|s| - 1] as int - '0' as int)
  }

  /** `n.toString()` for a non-negative integer: the shortest decimal
      numeral for n, "0" for zero. */
  function Decimal(n: nat): (s: string)
    ensures |s| >= 1 && IsDigits(s)
    ensures DigitsValue(s) == n
    ensures n == 0 <==> s == "0"
    ensures |s| > 1 ==> s[0] != '0'
    ensures n < 10 <==> |s| == 1
    ensures n < 100 ==> |s| <= 2
    decreases n
  {
    if n < 10 then [DigitChar(n)]
    else
      var prefix := Decimal(n / 10);
      var s := prefix + [DigitChar(n % 10)];
      assert s[..|s| - 1] == prefix;
      s
  }

  /** `s.padStart(2, '0')`. */
  function PadStart2(s: string): (r: string)
    ensures |r| == if |s| >= 2 then |s| else 2
    ensures r[|r| - |s|..] == s
    ensures forall i :: 0 <= i < |r| - |s| ==> r[i] == '0'
  {
    if |s| >= 2 then s else if |s| == 1 then "0" + s else "00"
  }

  /** A leading zero does not change the number a digit string denotes. */
  lemma {:induction false} LeadingZero(s: string)
    requires IsDigits(s)
    ensures IsDigits("0" + s) && DigitsValue("0" + s) == DigitsValue(s)
  {
    var z := "0" + s;
    if s != [] {
      assert z[..|z| - 1] == "0" + s[..|s| - 1];
      LeadingZero(s[..|s| - 1]);
    }
  }

  /** One display field: `n.toString().padStart(2, '0')`. */
  function Field(n: nat): (r: string)
    ensures |r| >= 2 && IsDigits(r)
    ensures DigitsValue(r) == n
    ensures n < 100 ==> |r| == 2
  {
    var d := Decimal(n);
    var r := PadStart2(d);
    if |d| == 1 then
      LeadingZero(d);
      assert r == "0" + d;
      r
    else r
  }

  /** A duration split into hours, minutes and seconds. */
  datatype Hms = Hms(hours: nat, minutes: nat, secs: nat)

  /** The three display fields of a second count. */
  function Split(seconds: nat): (t: Hms)
    ensures t.hours * SecondsPerHour + t.minutes * SecondsPerMinute + t.secs == seconds
    ensures t.minutes < 60 && t.secs < 60
    ensures seconds < 100 * SecondsPerHour ==> t.hours < 100
  {
    var h := seconds / SecondsPerHour;
    var rest := seconds % SecondsPerHour;
    var m := rest / SecondsPerMinute;
    var s := seconds % SecondsPerMinute;
    assert rest == m * 60 + s by {
      assert seconds == h * 3600 + rest;
      assert rest == m * 60 + rest % 60;
      assert seconds == (h * 60 + m) * 60 + rest % 60;
    }
    Hms(h, m, s)
  }

  /** The split is the only one with minutes and seconds below 60: the
      display shows exactly h, m and s whenever h*3600 + m*60 + s is the count. */
  lemma SplitUnique(seconds: nat, h: nat, m: nat, s: nat)
    requires h * 3600 + m * 60 + s == seconds && m < 60 && s < 60
    ensures Split(seconds) == Hms(h, m, s)
  {
    var t := Split(seconds);
    var x := m * 60 + s;
    assert x < 3600;
    assert t.minutes * 60 + t.secs < 3600;
    assert h == seconds / 3600 by {
      assert seconds == h * 3600 + x;
    }
    assert t.hours == h;
    assert m * 60 + s == t.minutes * 60 + t.secs;
    assert m == t.minutes;
  }

  /** An hours field of any width followed by two two-character fields
      puts the colons third and sixth from the end. */
  lemma Colons(hh: string, mm: string, ss: string)
    requires |hh| >= 2 && |mm| == 2 && |ss| == 2
    ensures var r := hh + ":" + mm + ":" + ss;
      |r| == |hh| + 6 && r[|r| - 3] == ':' && r[|r| - 6] == ':'
  {
  }

  /** The text of the timer display for a second count. */
  function Format(seconds: nat): (r: string)
    ensures |r| >= 8 && r[|r| - 3] == ':' && r[|r| - 6] == ':'
    ensures seconds < 100 * 3600 ==> |r| == 8
  {
    var t := Split(seconds);
    var hh, mm, ss := Field(t.hours), Field(t.minutes), Field(t.secs);
    Colons(hh, mm, ss);
    assert seconds < 100 * SecondsPerHour ==> |hh| == 2 by {
      if seconds < 100 * SecondsPerHour {
        assert t.hours < 100;
      }
    }
    hh + ":" + mm + ":" + ss
  }

  /** The display after a reset. */
  lemma FormatZero()
    ensures Format(0) == "00:00:00"
  {
    assert Split(0) == Hms(0, 0, 0);
    assert Decimal(0) == "0";
  }

  /** Three two-character fields joined by colons sit at fixed positions. */
  lemma JoinedFields(hh: string, mm: string, ss: string)
    requires |hh| == 2 && |mm| == 2 && |ss| == 2
    ensures var r := hh + ":" + mm + ":" + ss;
      |r| == 8 && r[2] == ':' && r[5] == ':' && r[0..2] == hh && r[3..5] == mm && r[6..8] == ss
  {
  }

  /** Below 100 hours the display is exactly "HH:MM:SS", and reading its
      three digit pairs back gives the second count it was made from. */
  lemma FormatReadsBack(seconds: nat)
    requires seconds < 100 * 3600
    ensures var r := Format(seconds);
      && |r| == 8 && r[2] == ':' && r[5] == ':'
      && IsDigits(r[0..2]) && IsDigits(r[3..5]) && IsDigits(r[6..8])
      && DigitsValue(r[3..5]) < 60 && DigitsValue(r[6..8]) < 60
      && DigitsValue(r[0..2]) * 3600 + DigitsValue(r[3..5]) * 60 + DigitsValue(r[6..8]) == seconds
  {
    var t := Split(seconds);
    assert t.hours < 100;
    var hh, mm, ss := Field(t.hours), Field(t.minutes), Field(t.secs);
    assert |hh| == 2 && |mm| == 2 && |ss| == 2;
    assert DigitsValue(hh) == t.hours && DigitsValue(mm) == t.minutes && DigitsValue(ss) == t.secs;
    JoinedFields(hh, mm, ss);
  }
}
