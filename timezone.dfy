/** getTimezone: a UTC offset in seconds is rendered as `UTC±HH:MM`.

    The hours field is taken from a floor division of the signed offset, and
    the minutes field from JavaScript's truncating `%` followed by another
    floor. For an offset west of UTC that is not a whole number of hours the
    two disagree about rounding: the hours come out one too many and the
    minutes are rounded up, so -12600 s (3 h 30 min west) renders as
    `UTC-04:30` and -3599 s as `UTC-01:60`. Timezone models the code as
    written; TimezoneCorrected renders the magnitude of the offset. */
module Timezones {
  import opened Wrappers
  import opened JsMath
  import opened JsStrings

  const SecondsPerHour: int := 3600
  const SecondsPerMinute: int := 60

  /** The three fields of a rendered offset: east of UTC (sign '+'), hours
      and minutes. */
  datatype OffsetFields = OffsetFields(east: bool, hours: nat, minutes: nat)

  /** The offset in seconds that a reader of the rendered fields understands. */
  function FieldsSeconds(f: OffsetFields): int
  {
    var magnitude := f.hours * SecondsPerHour + f.minutes * SecondsPerMinute;
    if f.east then magnitude else -magnitude
  }

  /** A number zero-padded to at least two digits; from 100 on it is the
      plain numeral, with nothing cut off and nothing added. */
  function Pad2(n: nat): (s: string)
    ensures DecimalValue(s) == n
    ensures AllDigits(s)
    ensures n < 100 ==> |s| == 2
    ensures n >= 100 ==> |s| >= 3 && s == NatToString(n)
  {
    var digits := NatToString(n);
    NatToStringDigits(n);
    PadStartValue(digits, 2);
    PadStart(digits, 2, '0')
  }

  /** The template `UTC${sign}${hours}:${minutes}` with both numbers padded. */
  function Render(f: OffsetFields): (s: string)
    ensures |s| >= 9 && s[..3] == "UTC"
    ensures s[3] == (if f.east then '+' else '-')
    ensures f.hours < 100 && f.minutes < 100 ==> |s| == 9 && s[6] == ':'
  {
    var sign := if f.east then '+' else '-';
    var hh, mm := Pad2(f.hours), Pad2(f.minutes);
    assert |hh| >= 2 && |mm| >= 2;
    var tail := hh + [':'] + mm;
    assert tail[|hh|] == ':';
    var s := ['U', 'T', 'C', sign] + tail;
    assert s[..3] == "UTC";
    s
  }

  /** Hours as the code computes them: Math.abs(Math.floor(offset / 3600)).
      They are the whole hours of the offset's magnitude, plus one for an
      offset west of UTC that is not a whole number of hours. */
  function Hours(offset: int): (h: nat)
    ensures h == Abs(offset) / SecondsPerHour + (if offset < 0 && offset % SecondsPerHour != 0 then 1 else 0)
  {
    Abs(FloorDiv(offset, SecondsPerHour))
  }

  /** Minutes as the code computes them:
      Math.abs(Math.floor((offset % 3600) / 60)). East of UTC they are the
      leftover seconds rounded down to minutes, west of UTC rounded up, so
      they can reach 60. */
  function Minutes(offset: int): (m: nat)
    ensures m == if offset >= 0 then offset % SecondsPerHour / SecondsPerMinute
                 else (-offset % SecondsPerHour + SecondsPerMinute - 1) / SecondsPerMinute
    ensures m <= 60
  {
    Abs(FloorDiv(TruncRem(offset, SecondsPerHour), SecondsPerMinute))
  }

  /** The fields getTimezone renders for an offset. For an offset in whole
      minutes they stand for the offset itself, except west of UTC off the
      whole hour, where they stand for one hour further west. */
  function TimezoneFields(offset: int): (f: OffsetFields)
    ensures f.east <==> offset >= 0
    ensures offset % SecondsPerMinute == 0 ==>
      FieldsSeconds(f) == if offset < 0 && offset % SecondsPerHour != 0 then offset - SecondsPerHour else offset
  {
    if offset % SecondsPerMinute == 0 then
      LeftoverWholeMinutes(Abs(offset));
      OffsetFields(offset >= 0, Hours(offset), Minutes(offset))
    else
      OffsetFields(offset >= 0, Hours(offset), Minutes(offset))
  }

  /** A magnitude in whole minutes leaves whole minutes after the hours. */
  lemma LeftoverWholeMinutes(a: nat)
    requires a % SecondsPerMinute == 0
    ensures a % SecondsPerHour == SecondsPerMinute * (a % SecondsPerHour / SecondsPerMinute)
  {
    var q, r := a / 3600, a % 3600;
    assert a == 60 * (60 * q + r / 60) + r % 60;
    assert a % 60 == r % 60;
  }

  /** getTimezone, as written. */
  function Timezone(offset: int): (r: string)
    ensures |r| >= 9 && r[..3] == "UTC"
    ensures r[3] == '+' || r[3] == '-'
    ensures r[3] == '+' <==> offset >= 0
  {
    Render(TimezoneFields(offset))
  }

  /** Below 100, Pad2 gives the tens digit and the units digit. */
  lemma Pad2Small(n: nat)
    requires n < 100
    ensures Pad2(n) == [DigitChar(n / 10), DigitChar(n % 10)]
  {
    var digits := NatToString(n);
    if n < 10 {
      assert digits == [DigitChar(n)];
      assert Repeat('0', 1) == [DigitChar(0)];
      assert PadStart(digits, 2, '0') == Repeat('0', 1) + digits;
    } else {
      assert NatToString(n / 10) == [DigitChar(n / 10)];
      assert digits == [DigitChar(n / 10), DigitChar(n % 10)];
    }
  }

  /** Renders fields whose numbers are below 100, one digit at a time. */
  lemma RenderSmall(f: OffsetFields)
    requires f.hours < 100 && f.minutes < 100
    ensures Render(f) == ['U', 'T', 'C', if f.east then '+' else '-',
                          DigitChar(f.hours / 10), DigitChar(f.hours % 10), ':',
                          DigitChar(f.minutes / 10), DigitChar(f.minutes % 10)]
  {
    var sign := if f.east then '+' else '-';
    var hh, mm := Pad2(f.hours), Pad2(f.minutes);
    assert Render(f) == ['U', 'T', 'C', sign] + (hh + [':'] + mm);
    Pad2Small(f.hours);
    Pad2Small(f.minutes);
  }

  /** The value of a two-digit numeral. */
  function TwoDigits(s: string): (n: nat)
    requires |s| == 2 && AllDigits(s)
    ensures n < 100
    ensures DecimalValue(s) == n
  {
    var first := s[..1];
    assert first[..0] == [] && first[0] == s[0] && s[..|s| - 1] == first;
    assert DecimalValue(first) == s[0] as int - '0' as int;
    10 * (s[0] as int - '0' as int) + (s[1] as int - '0' as int)
  }

  /** Reads a nine-character `UTC±HH:MM` string back into its fields. */
  function ParseTimezone(s: string): (r: Option<OffsetFields>)
    ensures r.Some? ==> |s| == 9 && r.value.hours < 100 && r.value.minutes < 100
  {
    if |s| == 9 && s[..3] == "UTC" && (s[3] == '+' || s[3] == '-')
      && AllDigits(s[4..6]) && s[6] == ':' && AllDigits(s[7..9])
    then Some(OffsetFields(s[3] == '+', TwoDigits(s[4..6]), TwoDigits(s[7..9])))
    else None
  }

  /** A two-digit numeral is what Pad2 makes of its value. */
  lemma Pad2OfTwoDigits(s: string)
    requires |s| == 2 && AllDigits(s)
    ensures Pad2(TwoDigits(s)) == s
  {
    var n := TwoDigits(s);
    assert n / 10 == s[0] as int - '0' as int && n % 10 == s[1] as int - '0' as int;
    Pad2Small(n);
  }

  /** Rendering fields of at most two digits and reading them back is the
      identity. */
  lemma ParseRender(f: OffsetFields)
    requires f.hours < 100 && f.minutes < 100
    ensures ParseTimezone(Render(f)) == Some(f)
  {
    var s := Render(f);
    RenderSmall(f);
    assert s[..3] == "UTC";
    assert s[4..6] == [DigitChar(f.hours / 10), DigitChar(f.hours % 10)];
    assert s[7..9] == [DigitChar(f.minutes / 10), DigitChar(f.minutes % 10)];
  }

  /** Rendering the values of two two-digit numerals gives back the numerals. */
  lemma RenderDigits(east: bool, hh: string, mm: string)
    requires |hh| == 2 && AllDigits(hh) && |mm| == 2 && AllDigits(mm)
    ensures Render(OffsetFields(east, TwoDigits(hh), TwoDigits(mm)))
         == ['U', 'T', 'C', if east then '+' else '-'] + (hh + [':'] + mm)
  {
    Pad2OfTwoDigits(hh);
    Pad2OfTwoDigits(mm);
  }

  /** Every string that parses is the rendering of what it parses to. */
  lemma RenderParse(s: string)
    requires ParseTimezone(s).Some?
    ensures Render(ParseTimezone(s).value) == s
  {
    var hh, mm := s[4..6], s[7..9];
    assert s == ['U', 'T', 'C', s[3]] + (hh + [':'] + mm) by {
      assert s[..4] == ['U', 'T', 'C', s[3]];
      assert s[4..] == hh + [':'] + mm;
      assert s == s[..4] + s[4..];
    }
    RenderDigits(s[3] == '+', hh, mm);
  }

  /** East of UTC (and at UTC) the fields are the plain hours and the
      leftover whole minutes; the rendering drops only the leftover seconds. */
  lemma TimezoneEast(offset: int)
    requires offset >= 0
    ensures Hours(offset) == offset / SecondsPerHour
    ensures Minutes(offset) == offset % SecondsPerHour / SecondsPerMinute
    ensures Minutes(offset) < 60
    ensures FieldsSeconds(TimezoneFields(offset)) == offset - offset % SecondsPerMinute
  {
    var q, r := offset / 3600, offset % 3600;
    var m, s := r / 60, r % 60;
    assert offset == 60 * (60 * q + m) + s;
    assert offset % 60 == s;
  }

  /** The minutes field never exceeds 60, and it reaches 60 exactly for the
      offsets west of UTC whose leftover is more than 59 minutes. */
  lemma MinutesRange(offset: int)
    ensures Minutes(offset) <= 60
    ensures offset % SecondsPerMinute == 0 ==> Minutes(offset) < 60
    ensures Minutes(offset) == 60 <==> offset < 0 && -offset % SecondsPerHour > 59 * SecondsPerMinute
  {
  }

  /** Offsets within 99 hours render as exactly nine characters that read back
      as the computed fields. */
  lemma TimezoneRoundTrip(offset: int)
    requires -99 * SecondsPerHour <= offset < 100 * SecondsPerHour
    ensures |Timezone(offset)| == 9
    ensures ParseTimezone(Timezone(offset)) == Some(TimezoneFields(offset))
  {
    MinutesRange(offset);
    ParseRender(TimezoneFields(offset));
  }

  lemma TimezoneExamples()
    ensures Timezone(0) == "UTC+00:00"
    ensures Timezone(19800) == "UTC+05:30"
    ensures Timezone(-18000) == "UTC-05:00"
    ensures Timezone(-12600) == "UTC-04:30"
    ensures Timezone(-3599) == "UTC-01:60"
  {
    assert TimezoneFields(0) == OffsetFields(true, 0, 0);
    RenderSmall(OffsetFields(true, 0, 0));
    assert TimezoneFields(19800) == OffsetFields(true, 5, 30);
    RenderSmall(OffsetFields(true, 5, 30));
    assert TimezoneFields(-18000) == OffsetFields(false, 5, 0);
    RenderSmall(OffsetFields(false, 5, 0));
    assert TimezoneFields(-12600) == OffsetFields(false, 4, 30);
    RenderSmall(OffsetFields(false, 4, 30));
    assert TimezoneFields(-3599) == OffsetFields(false, 1, 60);
    RenderSmall(OffsetFields(false, 1, 60));
  }

  /** The intended rendering: the magnitude of the offset split into whole
      hours and leftover whole minutes. Its minutes stay below 60, and it
      stands for the offset with its leftover seconds dropped, on either side
      of UTC (exactly the offset when that is in whole minutes). */
  function CorrectedFields(offset: int): (f: OffsetFields)
    ensures f.east <==> offset >= 0
    ensures f.minutes < 60
    ensures FieldsSeconds(f) == offset - TruncRem(offset, SecondsPerMinute)
    ensures offset % SecondsPerMinute == 0 ==> FieldsSeconds(f) == offset
  {
    SplitMagnitude(Abs(offset));
    OffsetFields(offset >= 0, Abs(offset) / SecondsPerHour, Abs(offset) % SecondsPerHour / SecondsPerMinute)
  }

  /** A magnitude is its whole hours, then its leftover whole minutes, then
      its leftover seconds. */
  lemma SplitMagnitude(a: nat)
    ensures a == SecondsPerHour * (a / SecondsPerHour)
               + SecondsPerMinute * (a % SecondsPerHour / SecondsPerMinute)
               + a % SecondsPerMinute
  {
    var q, r := a / 3600, a % 3600;
    assert a == 60 * (60 * q + r / 60) + r % 60;
    assert a % 60 == r % 60;
  }

  function TimezoneCorrected(offset: int): (r: string)
    ensures |r| >= 9 && r[..3] == "UTC"
    ensures r[3] == '+' <==> offset >= 0
  {
    Render(CorrectedFields(offset))
  }

  /** Both renderings agree east of UTC and on whole hours. */
  lemma TimezoneAgreesWithCorrected(offset: int)
    requires offset >= 0 || offset % SecondsPerHour == 0
    ensures Timezone(offset) == TimezoneCorrected(offset)
  {
    assert TimezoneFields(offset) == CorrectedFields(offset);
  }

  /** They disagree on every part-hour offset west of UTC: the code's hours
      are one more than the intended ones, so within 99 hours the two strings
      differ too. */
  lemma TimezoneDiffersFromCorrected(offset: int)
    requires offset < 0 && offset % SecondsPerHour != 0
    ensures TimezoneFields(offset).hours == CorrectedFields(offset).hours + 1
    ensures offset >= -99 * SecondsPerHour ==> Timezone(offset) != TimezoneCorrected(offset)
  {
    if offset >= -99 * SecondsPerHour {
      TimezoneRoundTrip(offset);
      ParseRender(CorrectedFields(offset));
    }
  }

  lemma CorrectedExamples()
    ensures TimezoneCorrected(-12600) == "UTC-03:30"
    ensures TimezoneCorrected(-3599) == "UTC-00:59"
  {
    assert DigitChar(0) == '0' && DigitChar(3) == '3' && DigitChar(5) == '5' && DigitChar(9) == '9';
    assert CorrectedFields(-12600) == OffsetFields(false, 3, 30);
    RenderSmall(OffsetFields(false, 3, 30));
    assert CorrectedFields(-3599) == OffsetFields(false, 0, 59);
    RenderSmall(OffsetFields(false, 0, 59));
  }
}
