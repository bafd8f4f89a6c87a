/** getDayName: the weekday index of a date is looked up in a fixed table of
    English day names. */
module DayNames {
  import opened Wrappers
  import opened JsDates

  /** The name table, indexed from Sunday (0) to Saturday (6). */
  const Days: seq<string> :=
    ["Sunday", "Monday", "Tuesday", "Wednesday", "Thursday", "Friday", "Saturday"]

  /** The name of a weekday index. */
  function DayName(d: Weekday): (name: string)
    ensures name in Days
  {
    Days[d]
  }

  /** The first position at or after `from` where `x` occurs in `s`. */
  function IndexFrom(s: seq<string>, x: string, from: nat): (r: Option<nat>)
    requires from <= |s|
    ensures r.Some? ==> from <= r.value < |s| && s[r.value] == x
    ensures r.Some? ==> forall j :: from <= j < r.value ==> s[j] != x
    ensures r.None? <==> forall j :: from <= j < |s| ==> s[j] != x
    decreases |s| - from
  {
    if from == |s| then None
    else if s[from] == x then Some(from)
    else IndexFrom(s, x, from + 1)
  }

  /** The inverse of DayName: the index of a day name, if it is one. */
  function DayIndex(name: string): (r: Option<Weekday>)
    ensures r.Some? <==> name in Days
    ensures r.Some? ==> DayName(r.value) == name
  {
    match IndexFrom(Days, name, 0)
    case Some(i) => Some(i)
    case None => None
  }

  /** No name occurs twice in the table. */
  lemma DaysDistinct(i: int, j: int)
    requires 0 <= i < j < |Days|
    ensures Days[i] != Days[j]
  {
    assert Days[i][0] != Days[j][0] || Days[i][1] != Days[j][1];
  }

  /** Looking a day's name up again gives back the day. */
  lemma DayIndexOfDayName(d: Weekday)
    ensures DayIndex(DayName(d)) == Some(d)
  {
    var r := IndexFrom(Days, Days[d], 0);
    assert r.Some?;
    if r.value < d {
      DaysDistinct(r.value, d);
    }
  }

  /** Distinct weekday indices give distinct names. */
  lemma DayNameInjective(d: Weekday, e: Weekday)
    ensures DayName(d) == DayName(e) <==> d == e
  {
    DayIndexOfDayName(d);
    DayIndexOfDayName(e);
  }

  /** The two ends of the table. */
  lemma DayNameEnds()
    ensures DayName(0) == "Sunday" && DayName(6) == "Saturday"
  {
  }
}
