/** The JavaScript arithmetic the weather client relies on (Math.floor,
    Math.abs and the `%` operator), restricted to integral arguments. */
module JsMath {

  /** Math.abs on an integer. */
  function Abs(x: int): (r: nat)
    ensures r == x || r == -x
  {
    if x < 0 then -x else x
  }

  /** Math.floor(a / b) for a positive divisor: the greatest q with q * b <= a. */
  function FloorDiv(a: int, b: int): (q: int)
    requires b > 0
    ensures q * b <= a < q * b + b
  {
    a / b
  }

  /** JavaScript's `a % b`: the result takes the sign of the dividend and its
      magnitude is |a| mod b (Dafny's own `%` never goes negative). */
  function TruncRem(a: int, b: int): (r: int)
    requires b > 0
    ensures a >= 0 ==> 0 <= r < b
    ensures a < 0 ==> -b < r <= 0
    ensures Abs(r) == Abs(a) % b
  {
    if a >= 0 then a % b else -((-a) % b)
  }
}

/** Number.prototype.toString and String.prototype.padStart, as the weather
    client uses them on non-negative integers. */
module JsStrings {

  predicate IsDigit(c: char) {
    '0' <= c <= '9'
  }

  predicate AllDigits(s: string) {
    forall i :: 0 <= i < |s| ==> IsDigit(s[i])
  }

  function DigitChar(d: nat): (c: char)
    requires d < 10
    ensures IsDigit(c) && c as int - '0' as int == d
  {
    ('0' as int + d) as char
  }

  /** The value of a decimal numeral, read from its last digit backwards; an
      empty numeral reads as 0. */
  function DecimalValue(s: string): int
    decreases |s|
  {
    if s == [] then 0
    else 10 * DecimalValue(s[..|s| - 1]) + (s[|s| - 1] as int - '0' as int)
  }

  /** Number.prototype.toString() on a non-negative integer: its decimal
      numeral, without leading zeros. */
  function NatToString(n: nat): (s: string)
    ensures |s| >= 1
    ensures |s| > 1 ==> s[0] != '0'
    ensures DecimalValue(s) == n
    ensures n < 10 <==> |s| == 1
    ensures n < 100 <==> |s| <= 2
    decreases n
  {
    if n < 10 then [DigitChar(n)]
    else
      var prefix := NatToString(n / 10);
      var s := prefix + [DigitChar(n % 10)];
      assert s[..|s| - 1] == prefix;
      s
  }

  /** The numeral of a number is made of digits only. */
  lemma {:induction false} NatToStringDigits(n: nat)
    ensures AllDigits(NatToString(n))
    decreases n
  {
    if n >= 10 {
      NatToStringDigits(n / 10);
    }
  }

  function Repeat(c: char, k: nat): (r: string)
    ensures |r| == k
  {
    if k == 0 then [] else [c] + Repeat(c, k - 1)
  }

  lemma {:induction false} RepeatContents(c: char, k: nat)
    ensures forall i :: 0 <= i < k ==> Repeat(c, k)[i] == c
  {
    if k > 0 {
      RepeatContents(c, k - 1);
    }
  }

  /** String.prototype.padStart(target, fill) with a one-character fill:
      `s` itself when it is already long enough, otherwise `s` preceded by as
      many copies of `fill` as make it `target` characters long. */
  function PadStart(s: string, target: nat, fill: char): (r: string)
    ensures |r| == if |s| >= target then |s| else target
  {
    if |s| >= target then s else Repeat(fill, target - |s|) + s
  }

  /** The padded string ends with the original and starts with fill only. */
  lemma PadStartContents(s: string, target: nat, fill: char)
    ensures var r := PadStart(s, target, fill);
      r[|r| - |s|..] == s && forall i :: 0 <= i < |r| - |s| ==> r[i] == fill
  {
    if |s| < target {
      RepeatContents(fill, target - |s|);
      var r := PadStart(s, target, fill);
      assert r[|r| - |s|..] == s;
    }
  }

  lemma {:induction false} AllZerosValue(z: string)
    requires forall i :: 0 <= i < |z| ==> z[i] == '0'
    ensures DecimalValue(z) == 0
    decreases |z|
  {
    if z != [] {
      AllZerosValue(z[..|z| - 1]);
    }
  }

  /** Leading zeros do not change the value of a numeral. */
  lemma {:induction false} LeadingZerosValue(z: string, s: string)
    requires forall i :: 0 <= i < |z| ==> z[i] == '0'
    ensures DecimalValue(z + s) == DecimalValue(s)
    decreases |s|
  {
    if s == [] {
      assert z + s == z;
      AllZerosValue(z);
    } else {
      var s' := s[..|s| - 1];
      assert (z + s)[..|z + s| - 1] == z + s';
      LeadingZerosValue(z, s');
    }
  }

  /** Zero-padding a numeral keeps its digits and its value. */
  lemma PadStartValue(s: string, target: nat)
    ensures DecimalValue(PadStart(s, target, '0')) == DecimalValue(s)
    ensures AllDigits(s) ==> AllDigits(PadStart(s, target, '0'))
  {
    if |s| < target {
      RepeatContents('0', target - |s|);
      LeadingZerosValue(Repeat('0', target - |s|), s);
    }
  }
}

/** The part of ECMAScript's Date that the weather client uses: `new Date(t)`
    and `getDay()`. */
module JsDates {
  import opened Wrappers
  import opened JsMath

  const MsPerDay: int := 86_400_000

  /** The largest magnitude of a valid time value, in milliseconds. */
  const MaxTimeValue: int := 8_640_000_000_000_000

  /** A Date object: a time value in milliseconds since the epoch, or an
      Invalid Date. */
  datatype DateValue = ValidDate(time: int) | InvalidDate

  /** Day of the week, 0 for Sunday through 6 for Saturday. */
  type Weekday = d: int | 0 <= d < 7

  /** `new Date(t)` for an integral t: TimeClip turns a time value beyond
      8.64e15 ms on either side of the epoch into an Invalid Date. */
  function MakeDate(t: int): (d: DateValue)
    ensures d.ValidDate? <==> -MaxTimeValue <= t <= MaxTimeValue
    ensures d.ValidDate? ==> d.time == t
  {
    if -MaxTimeValue <= t <= MaxTimeValue then ValidDate(t) else InvalidDate
  }

  /** ECMAScript's WeekDay(t): whole days since the epoch, counted with a
      floor so that instants before 1970 fall on the earlier day, plus the
      epoch's weekday Thursday (4), modulo 7. */
  function WeekDay(t: int): (w: Weekday)
    ensures w == (FloorDiv(t, MsPerDay) + 4) % 7
  {
    (t / MsPerDay + 4) % 7
  }

  /** `getDay()`: the weekday of the local time, where hostOffsetMs is the
      host time zone's offset from UTC at that instant; an Invalid Date has
      no weekday (NaN). */
  function GetDay(d: DateValue, hostOffsetMs: int): (r: Option<Weekday>)
    ensures r.Some? <==> d.ValidDate?
    ensures r.Some? ==> r.value == WeekDay(d.time + hostOffsetMs)
  {
    match d
    case ValidDate(t) => Some(WeekDay(t + hostOffsetMs))
    case InvalidDate => None
  }

  /** Calendar cross-checks: 1 January 2000 (946684800000 ms) was a
      Saturday and 31 December 1969, the day before the epoch, a Wednesday. */
  lemma WeekDayCalendar()
    ensures WeekDay(946_684_800_000) == 6
    ensures WeekDay(-1) == 3
  {
  }

  /** One day later is the next weekday, wrapping from Saturday to Sunday. */
  lemma WeekDayNextDay(t: int)
    ensures WeekDay(t + MsPerDay) == (WeekDay(t) + 1) % 7
  {
    assert (t + MsPerDay) / MsPerDay == t / MsPerDay + 1;
  }
}
