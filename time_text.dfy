/**
 * Wall-clock times as text, the way the appointment code keeps them:
 * `"HH:MM"` strings, read with `split(':')` and `parseInt`, and written
 * back from a count of minutes with `padStart(2, '0')`. Also the two
 * display helpers that work on such strings.
 */
module TimeText {

  predicate IsDigit(c: char) {
    '0' <= c <= '9'
  }

  /** A non-empty run of decimal digits. */
  predicate IsDigits(s: string) {
    |s| > 0 && forall i :: 0 <= i < |s| ==> IsDigit(s[i])
  }

  /** Position of the first ':' in `t`, or `|t|` when there is none. */
  function ColonIndex(t: string): (p: nat)
    ensures p <= |t|
    ensures p < |t| ==> t[p] == ':'
    ensures forall i :: 0 <= i < p ==> t[i] != ':'
  {
    if |t| == 0 || t[0] == ':' then 0 else 1 + ColonIndex(t[1..])
  }

  /**
   * Digits, one colon, digits: the times this model reads. It holds every
   * string NumberToTime writes. `timeToNumber` also reads other strings
   * without NaN (extra `:` fields, signs, spaces, trailing non-digits);
   * those are outside `Time`.
   */
  predicate IsTime(t: string) {
    var p := ColonIndex(t);
    p < |t| && IsDigits(t[..p]) && IsDigits(t[p + 1..])
  }

  type Time = t: string | IsTime(t) witness "00:00"

  /** The two-digit, colon, two-digit shape `HH:MM`. */
  predicate IsHourMinute(t: string) {
    |t| == 5 && IsDigit(t[0]) && IsDigit(t[1]) && t[2] == ':' && IsDigit(t[3]) && IsDigit(t[4])
  }

  function DigitValue(c: char): nat
    requires IsDigit(c)
  {
    c as int - '0' as int
  }

  function DigitChar(d: nat): (c: char)
    requires d < 10
    ensures IsDigit(c) && DigitValue(c) == d
  {
    ('0' as int + d) as char
  }

  /** `parseInt` of a string of decimal digits. */
  function ParseDecimal(s: string): nat
    requires forall i :: 0 <= i < |s| ==> IsDigit(s[i])
  {
    if |s| == 0 then 0 else 10 * ParseDecimal(s[..|s| - 1]) + DigitValue(s[|s| - 1])
  }

  /** The template-literal rendering `${n}` of a natural number. */
  function ShowDecimal(n: nat): (s: string)
    ensures IsDigits(s)
  {
    if n < 10 then [DigitChar(n)] else ShowDecimal(n / 10) + [DigitChar(n % 10)]
  }

  /** `s.padStart(width, '0')`. */
  function PadStart(s: string, width: nat): (r: string)
    ensures IsDigits(s) ==> IsDigits(r)
    decreases width - |s|
  {
    if |s| >= width then s else PadStart("0" + s, width)
  }

  /** The hour part, `split(':')[0]`. */
  function HourText(t: Time): string {
    t[..ColonIndex(t)]
  }

  /** The minute part, `split(':')[1]`. */
  function MinuteText(t: Time): string {
    t[ColonIndex(t) + 1..]
  }

  /** `timeToNumber`: minutes since midnight. */
  function TimeToNumber(t: Time): nat {
    ParseDecimal(HourText(t)) * 60 + ParseDecimal(MinuteText(t))
  }

  /** `numberToTime`: hours and minutes, each padded to two digits. */
  function NumberToTime(value: nat): Time {
    var hour := PadStart(ShowDecimal(value / 60), 2);
    var minutes := PadStart(ShowDecimal(value % 60), 2);
    JoinIsTime(hour, minutes);
    hour + ":" + minutes
  }

  lemma JoinIsTime(a: string, b: string)
    requires IsDigits(a) && IsDigits(b)
    ensures ColonIndex(a + ":" + b) == |a|
    ensures (a + ":" + b)[..|a|] == a && (a + ":" + b)[|a| + 1..] == b
    ensures IsTime(a + ":" + b)
  {
    var t := a + ":" + b;
    assert t[|a|] == ':';
    assert forall i :: 0 <= i < |a| ==> t[i] == a[i] && t[i] != ':';
    assert t[..|a|] == a;
    assert t[|a| + 1..] == b;
  }

  lemma {:induction false} ParseShowDecimal(n: nat)
    ensures ParseDecimal(ShowDecimal(n)) == n
  {
    if n >= 10 {
      ParseShowDecimal(n / 10);
      var s := ShowDecimal(n / 10) + [DigitChar(n % 10)];
      assert s[..|s| - 1] == ShowDecimal(n / 10);
    }
  }

  /** A leading zero does not change the value `parseInt` reads. */
  lemma {:induction false} ParseLeadingZero(s: string)
    requires forall i :: 0 <= i < |s| ==> IsDigit(s[i])
    ensures ParseDecimal("0" + s) == ParseDecimal(s)
  {
    if |s| > 0 {
      var init := s[..|s| - 1];
      ParseLeadingZero(init);
      assert ("0" + s)[..|s|] == "0" + init;
    }
  }

  lemma {:induction false} ParsePadStart(s: string, width: nat)
    requires IsDigits(s)
    ensures ParseDecimal(PadStart(s, width)) == ParseDecimal(s)
    decreases width - |s|
  {
    if |s| < width {
      ParseLeadingZero(s);
      ParsePadStart("0" + s, width);
    }
  }

  /** Reading back a written time gives the minutes it was written from, for every count of minutes. */
  lemma TimeRoundTrip(m: nat)
    ensures TimeToNumber(NumberToTime(m)) == m
  {
    var hour := PadStart(ShowDecimal(m / 60), 2);
    var minutes := PadStart(ShowDecimal(m % 60), 2);
    JoinIsTime(hour, minutes);
    ParsePadStart(ShowDecimal(m / 60), 2);
    ParsePadStart(ShowDecimal(m % 60), 2);
    ParseShowDecimal(m / 60);
    ParseShowDecimal(m % 60);
  }

  /** `TimeRoundTrip` for every minute count at once. */
  lemma TimeRoundTrips()
    ensures forall n: nat :: TimeToNumber(NumberToTime(n)) == n
  {
    forall n: nat ensures TimeToNumber(NumberToTime(n)) == n {
      TimeRoundTrip(n);
    }
  }

  /** Below one hundred, padding to two places writes the tens digit and the units digit. */
  lemma TwoDigits(k: nat)
    requires k < 100
    ensures PadStart(ShowDecimal(k), 2) == [DigitChar(k / 10), DigitChar(k % 10)]
  {
    if k >= 10 {
      assert ShowDecimal(k / 10) == [DigitChar(k / 10)];
    }
  }

  /**
   * Every time of day (indeed every count of minutes below one hundred
   * hours) is written as two zero-padded hour digits, a colon and two
   * zero-padded minute digits.
   */
  lemma NumberToTimeFormat(m: nat)
    requires m < 6000
    ensures NumberToTime(m) == [DigitChar(m / 60 / 10), DigitChar(m / 60 % 10), ':',
                                DigitChar(m % 60 / 10), DigitChar(m % 60 % 10)]
    ensures IsHourMinute(NumberToTime(m))
  {
    TwoDigits(m / 60);
    TwoDigits(m % 60);
  }

  lemma ParseTwoDigits(c0: char, c1: char)
    requires IsDigit(c0) && IsDigit(c1)
    ensures ParseDecimal([c0, c1]) == 10 * DigitValue(c0) + DigitValue(c1)
  {
    assert [c0, c1][..1] == [c0];
    assert [c0][..0] == [];
    assert ParseDecimal([c0]) == DigitValue(c0);
    assert ParseDecimal([c0, c1]) == 10 * ParseDecimal([c0]) + DigitValue(c1);
  }

  /** Writing an hour below 100 and a minute below 60 gives back their two digits each. */
  lemma WriteHourMinute(h: nat, m: nat)
    requires h < 100 && m < 60
    ensures NumberToTime(h * 60 + m) == [DigitChar(h / 10), DigitChar(h % 10), ':',
                                         DigitChar(m / 10), DigitChar(m % 10)]
  {
    var v := h * 60 + m;
    assert v / 60 == h && v % 60 == m;
    NumberToTimeFormat(v);
  }

  /** An `HH:MM` string reads as its hour digits times sixty plus its minute digits. */
  lemma HourMinuteValue(t: Time)
    requires IsHourMinute(t)
    ensures TimeToNumber(t) == (10 * DigitValue(t[0]) + DigitValue(t[1])) * 60 + 10 * DigitValue(t[3]) + DigitValue(t[4])
  {
    assert ColonIndex(t) == 2 by {
      assert t[0] != ':' && t[1] != ':';
    }
    assert HourText(t) == [t[0], t[1]] && MinuteText(t) == [t[3], t[4]];
    ParseTwoDigits(t[0], t[1]);
    ParseTwoDigits(t[3], t[4]);
  }

  /** A canonical `HH:MM` with minutes below 60 survives reading and writing back unchanged. */
  lemma CanonicalRoundTrip(t: Time)
    requires IsHourMinute(t)
    requires ParseDecimal(t[3..]) < 60
    ensures NumberToTime(TimeToNumber(t)) == t
  {
    var d0, d1, d3, d4 := DigitValue(t[0]), DigitValue(t[1]), DigitValue(t[3]), DigitValue(t[4]);
    var h, m := 10 * d0 + d1, 10 * d3 + d4;
    assert m < 60 by {
      assert t[3..] == [t[3], t[4]];
      ParseTwoDigits(t[3], t[4]);
    }
    HourMinuteValue(t);
    assert h / 10 == d0 && h % 10 == d1;
    assert m / 10 == d3 && m % 10 == d4;
    WriteHourMinute(h, m);
    assert DigitChar(d0) == t[0] && DigitChar(d1) == t[1];
    assert DigitChar(d3) == t[3] && DigitChar(d4) == t[4];
  }

  /** `str.endsWith('00')`. */
  predicate EndsWithDoubleZero(s: string) {
    |s| >= 2 && s[|s| - 2] == '0' && s[|s| - 1] == '0'
  }

  /**
   * `showTime`: the label shown beside grid row `index`: the day's end time
   * on the last row, the row's own time on the hour, and nothing otherwise.
   */
  function ShowTime(times: seq<Time>, time: string, endTime: string, index: int): string {
    var isLast := index == |times| - 1;
    var isShow := isLast || EndsWithDoubleZero(time);
    if isShow then (if isLast then endTime else time) else ""
  }

  /** A written time ends in "00" exactly when it falls on the hour. */
  lemma OnTheHour(m: nat)
    ensures EndsWithDoubleZero(NumberToTime(m)) <==> m % 60 == 0
  {
    var hour := PadStart(ShowDecimal(m / 60), 2);
    TwoDigits(m % 60);
    var t := NumberToTime(m);
    assert t == hour + ":" + [DigitChar(m % 60 / 10), DigitChar(m % 60 % 10)];
    assert t[|t| - 2] == DigitChar(m % 60 / 10) && t[|t| - 1] == DigitChar(m % 60 % 10);
  }

  /** `previewSelectedTimes`: `"start-end"` when both times are present, otherwise the empty string. */
  function PreviewSelectedTimes(selectedTimes: seq<string>): (r: string)
    ensures r != "" <==> |selectedTimes| == 2 && selectedTimes[0] != "" && selectedTimes[1] != ""
  {
    var isLegal := |selectedTimes| == 2 && selectedTimes[0] != "" && selectedTimes[1] != "";
    if isLegal then selectedTimes[0] + "-" + selectedTimes[1] else ""
  }

  /** The preview of two times splits back into those two times at its only '-'. */
  lemma PreviewSplits(a: Time, b: Time)
    ensures var r := PreviewSelectedTimes([a, b]);
      |r| == |a| + 1 + |b| && r[|a|] == '-' && r[..|a|] == a && r[|a| + 1..] == b
      && forall i :: 0 <= i < |r| && i != |a| ==> r[i] != '-'
  {
    var r := PreviewSelectedTimes([a, b]);
    assert r == a + "-" + b;
    forall i | 0 <= i < |r| && i != |a| ensures r[i] != '-' {
      TimeHasNoDash(a);
      TimeHasNoDash(b);
      if i < |a| {
        assert r[i] == a[i];
      } else {
        assert r[i] == b[i - |a| - 1];
      }
    }
  }

  lemma TimeHasNoDash(t: Time)
    ensures forall i :: 0 <= i < |t| ==> t[i] != '-'
  {
    var p := ColonIndex(t);
    forall i | 0 <= i < |t| ensures t[i] != '-' {
      if i < p {
        assert t[..p][i] == t[i];
      } else if i > p {
        assert t[p + 1..][i - p - 1] == t[i];
      }
    }
  }
}
