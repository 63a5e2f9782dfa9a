/**
 * The name of a recording session's folder, built by `getCurrentTime` from
 * the calendar components of the moment recording began. The calendar lookup
 * itself is outside the model: the components arrive as integers.
 */
module SessionName {
  import opened Wrappers
  import opened Decimal

  datatype CalendarTime = CalendarTime(year: int, month: int, day: int, hour: int, minute: int, second: int)

  /** Components a calendar can produce: a four-digit year, the rest below 100. */
  predicate FourDigitYear(t: CalendarTime) {
    && 1000 <= t.year <= 9999
    && 0 <= t.month < 100 && 0 <= t.day < 100
    && 0 <= t.hour < 100 && 0 <= t.minute < 100 && 0 <= t.second < 100
  }

  /**
   * The year as written, then month and day in two digits, a dash, then hour,
   * minute and second in two digits each, e.g. "20211229-093005".
   */
  function TimeString(t: CalendarTime): string {
    var date := IntToString(t.year) + Pad2(t.month) + Pad2(t.day);
    var time := Pad2(t.hour) + Pad2(t.minute) + Pad2(t.second);
    (date + "-") + time
  }

  /**
   * For any non-negative year: the year's digits and four more digits of
   * month and day, then the dash, then six digits of time; for a
   * four-digit year that makes fifteen characters with the dash at index 8.
   */
  lemma TimeStringShape(t: CalendarTime)
    requires t.year >= 0 && 0 <= t.month < 100 && 0 <= t.day < 100
    requires 0 <= t.hour < 100 && 0 <= t.minute < 100 && 0 <= t.second < 100
    ensures var s, y := TimeString(t), |IntToString(t.year)|;
      && |s| == y + 11 && s[y + 4] == '-'
      && AllDigits(s[..y + 4]) && AllDigits(s[y + 5..])
    ensures FourDigitYear(t) ==> |TimeString(t)| == 15 && TimeString(t)[8] == '-'
  {
    var s := TimeString(t);
    IntToStringSpec(t.year);
    Pad2Spec(t.month);
    Pad2Spec(t.day);
    Pad2Spec(t.hour);
    Pad2Spec(t.minute);
    Pad2Spec(t.second);
    var date := IntToString(t.year) + Pad2(t.month) + Pad2(t.day);
    var time := Pad2(t.hour) + Pad2(t.minute) + Pad2(t.second);
    DigitsConcat(IntToString(t.year), Pad2(t.month));
    DigitsConcat(IntToString(t.year) + Pad2(t.month), Pad2(t.day));
    DigitsConcat(Pad2(t.hour), Pad2(t.minute));
    DigitsConcat(Pad2(t.hour) + Pad2(t.minute), Pad2(t.second));
    assert s == date + ['-'] + time;
    assert s[..|date|] == date && s[|date| + 1..] == time;
    if FourDigitYear(t) {
      FourDigits(t.year);
    }
  }

  /**
   * Reads a fifteen-character name back into its components; the inverse of
   * `TimeString` on four-digit years.
   */
  function ParseTimeString(s: string): Option<CalendarTime> {
    if |s| == 15 && s[8] == '-' && AllDigits(s[..8]) && AllDigits(s[9..]) then
      DigitFields(s);
      Some(CalendarTime(
        ParseNat(s[..4]), ParseNat(s[4..6]), ParseNat(s[6..8]),
        ParseNat(s[9..11]), ParseNat(s[11..13]), ParseNat(s[13..])))
    else
      None
  }

  /** Every name of a four-digit year reads back to the components it was built from. */
  lemma TimeStringRoundTrip(t: CalendarTime)
    requires FourDigitYear(t)
    ensures ParseTimeString(TimeString(t)) == Some(t)
  {
    var s := TimeString(t);
    TimeStringShape(t);
    FourDigits(t.year);
    IntToStringSpec(t.year);
    Pad2Spec(t.month);
    Pad2Spec(t.day);
    Pad2Spec(t.hour);
    Pad2Spec(t.minute);
    Pad2Spec(t.second);
    Fields(IntToString(t.year), Pad2(t.month), Pad2(t.day), Pad2(t.hour), Pad2(t.minute), Pad2(t.second));
  }

  /** Where each field of a name sits. */
  lemma Fields(y: string, mo: string, d: string, h: string, mi: string, se: string)
    requires |y| == 4 && |mo| == 2 && |d| == 2 && |h| == 2 && |mi| == 2 && |se| == 2
    ensures var s := (y + mo + d + "-") + (h + mi + se);
      && s[..4] == y && s[4..6] == mo && s[6..8] == d
      && s[9..11] == h && s[11..13] == mi && s[13..] == se
  {
  }

  /**
   * Conversely, a fifteen-character name that parses, and whose year does
   * not start with a zero, is exactly the name of the components it parses to.
   */
  lemma ParseTimeStringSound(s: string, t: CalendarTime)
    requires ParseTimeString(s) == Some(t)
    requires s[0] != '0'
    ensures FourDigitYear(t)
    ensures TimeString(t) == s
  {
    DigitFields(s);
    assert s[..4][0] == s[0];
    YearField(s[..4]);
    TwoDigits(s[4..6]);
    TwoDigits(s[6..8]);
    TwoDigits(s[9..11]);
    TwoDigits(s[11..13]);
    TwoDigits(s[13..]);
    Reassemble(s);
  }

  /**
   * A name of a positive year never starts with a zero: `String(Int)` writes
   * no leading zero, so every name `getCurrentTime` produces meets the
   * requirement of `ParseTimeStringSound`.
   */
  lemma TimeStringNoLeadingZero(t: CalendarTime)
    requires t.year >= 1
    ensures |TimeString(t)| >= 1 && TimeString(t)[0] != '0'
  {
    NatToStringNoLeadingZero(t.year);
    IntToStringSpec(t.year);
  }

  /** Four digits without a leading zero are a four-digit year, written back as they are. */
  lemma YearField(y: string)
    requires |y| == 4 && AllDigits(y) && y[0] != '0'
    ensures 1000 <= ParseNat(y) < 10000
    ensures IntToString(ParseNat(y)) == y
  {
    NatToStringParse(y);
    ParseNatPositive(y);
    DigitsBound(y);
    assert Pow10(3) == 1000 && Pow10(4) == 10000;
  }

  lemma Reassemble(s: string)
    requires |s| == 15 && s[8] == '-'
    ensures s == (s[..4] + s[4..6] + s[6..8] + "-") + (s[9..11] + s[11..13] + s[13..])
  {
  }

  /** The six fields of a fifteen-character name are digit strings. */
  lemma DigitFields(s: string)
    requires |s| == 15 && AllDigits(s[..8]) && AllDigits(s[9..])
    ensures AllDigits(s[..4]) && AllDigits(s[4..6]) && AllDigits(s[6..8])
    ensures AllDigits(s[9..11]) && AllDigits(s[11..13]) && AllDigits(s[13..])
  {
    DigitSlice(s[..8], 0, 4);
    DigitSlice(s[..8], 4, 6);
    DigitSlice(s[..8], 6, 8);
    DigitSlice(s[9..], 0, 2);
    DigitSlice(s[9..], 2, 4);
    DigitSlice(s[9..], 4, 6);
    assert s[..8][0..4] == s[..4] && s[..8][4..6] == s[4..6] && s[..8][6..8] == s[6..8];
    assert s[9..][0..2] == s[9..11] && s[9..][2..4] == s[11..13] && s[9..][4..6] == s[13..];
  }

  lemma DigitsConcat(a: string, b: string)
    requires AllDigits(a) && AllDigits(b)
    ensures AllDigits(a + b)
  {
    assert forall i :: 0 <= i < |a + b| ==> (a + b)[i] == if i < |a| then a[i] else b[i - |a|];
  }

  lemma DigitSlice(s: string, i: nat, j: nat)
    requires AllDigits(s) && i <= j <= |s|
    ensures AllDigits(s[i..j])
  {
    assert forall k :: 0 <= k < j - i ==> s[i..j][k] == s[i + k];
  }

  /** Two digits name a number below 100 and are how `Pad2` writes it. */
  lemma TwoDigits(s: string)
    requires |s| == 2 && AllDigits(s)
    ensures ParseNat(s) < 100
    ensures Pad2(ParseNat(s)) == s
  {
    DigitsBound(s);
    Pad2Parse(s);
  }

  lemma {:induction false} DigitsBound(s: string)
    requires AllDigits(s)
    ensures ParseNat(s) < Pow10(|s|)
    decreases |s|
  {
    if s != [] {
      DigitsBound(s[..|s| - 1]);
    }
  }

}
