/** The condition-code classifier: a provider condition code is mapped to the
    glyph shown next to the description. */
module WeatherIcons {

  /** The glyphs the classifier can return. Drizzle and rain share one. */
  datatype Glyph = Thunderstorm | Rain | Snow | Atmosphere | Clear | Clouds | Unknown
  {
    /** The emoji text of the glyph, each followed by the emoji
        presentation selector U+FE0F. */
    function ToString(): (s: string)
      ensures |s| == 2 && s[1] == '\U{FE0F}'
    {
      match this
      case Thunderstorm => "\U{26C8}\U{FE0F}"
      case Rain => "\U{1F327}\U{FE0F}"
      case Snow => "\U{2744}\U{FE0F}"
      case Atmosphere => "\U{1F32B}\U{FE0F}"
      case Clear => "\U{2600}\U{FE0F}"
      case Clouds => "\U{2601}\U{FE0F}"
      case Unknown => "\U{1F321}\U{FE0F}"
    }
  }

  /** getWeatherIcon: the first range that holds the code decides. The
      drizzle and rain branches together cover [300, 600), and the final
      branch covers everything below 200 and from 900 on. */
  function WeatherIcon(conditionId: int): (g: Glyph)
    ensures g == Rain <==> 300 <= conditionId < 600
    ensures g == Unknown <==> conditionId < 200 || conditionId >= 900
  {
    if 200 <= conditionId < 300 then Thunderstorm
    else if 300 <= conditionId < 500 then Rain       // drizzle
    else if 500 <= conditionId < 600 then Rain       // rain
    else if 600 <= conditionId < 700 then Snow
    else if 700 <= conditionId < 800 then Atmosphere
    else if conditionId == 800 then Clear
    else if 800 < conditionId < 900 then Clouds
    else Unknown
  }

  /** Each glyph is chosen for exactly one band of condition codes. */
  lemma IconBoundaries(c: int)
    ensures WeatherIcon(c) == Thunderstorm <==> 200 <= c < 300
    ensures WeatherIcon(c) == Rain <==> 300 <= c < 600
    ensures WeatherIcon(c) == Snow <==> 600 <= c < 700
    ensures WeatherIcon(c) == Atmosphere <==> 700 <= c < 800
    ensures WeatherIcon(c) == Clear <==> c == 800
    ensures WeatherIcon(c) == Clouds <==> 800 < c < 900
    ensures WeatherIcon(c) == Unknown <==> c < 200 || c >= 900
  {
  }

  /** Distinct glyphs render as distinct text, so the seven glyphs are seven
      different strings. */
  lemma ToStringInjective(g: Glyph, h: Glyph)
    ensures g.ToString() == h.ToString() <==> g == h
  {
    if g != h {
      assert g.ToString()[0] != h.ToString()[0];
    }
  }

  /** A half-open band [lo, hi) of condition codes and its glyph. */
  datatype Band = Band(lo: int, hi: int, glyph: Glyph)

  /** The classification as a table of bands, independent of the order of
      the tests in WeatherIcon. */
  const IconTable: seq<Band> := [
    Band(200, 300, Thunderstorm),
    Band(300, 600, Rain),
    Band(600, 700, Snow),
    Band(700, 800, Atmosphere),
    Band(800, 801, Clear),
    Band(801, 900, Clouds)
  ]

  /** The glyph of the first band that holds c, or Unknown when none does. */
  function Lookup(table: seq<Band>, c: int): (g: Glyph)
    ensures g != Unknown ==> exists i :: 0 <= i < |table| && table[i].lo <= c < table[i].hi && table[i].glyph == g
    ensures (forall i :: 0 <= i < |table| ==> !(table[i].lo <= c < table[i].hi)) ==> g == Unknown
    ensures forall i ::
      (0 <= i < |table| && table[i].lo <= c < table[i].hi
       && forall j :: 0 <= j < i ==> !(table[j].lo <= c < table[j].hi))
      ==> g == table[i].glyph
  {
    if table == [] then Unknown
    else if table[0].lo <= c < table[0].hi then table[0].glyph
    else Lookup(table[1..], c)
  }

  /** No two bands of the table overlap, so the table is unambiguous. */
  lemma IconTableDisjoint(i: int, j: int, c: int)
    requires 0 <= i < j < |IconTable|
    ensures !(IconTable[i].lo <= c < IconTable[i].hi && IconTable[j].lo <= c < IconTable[j].hi)
  {
  }

  /** Because the bands are disjoint, any band of the table that holds c
      decides its glyph, not only the first one. */
  lemma AnyHoldingBandDecides(i: int, c: int)
    requires 0 <= i < |IconTable| && IconTable[i].lo <= c < IconTable[i].hi
    ensures Lookup(IconTable, c) == IconTable[i].glyph
  {
    forall j | 0 <= j < i
      ensures !(IconTable[j].lo <= c < IconTable[j].hi)
    {
      IconTableDisjoint(j, i, c);
    }
  }

  /** The if/else chain agrees with the band table on every code. */
  lemma WeatherIconMatchesTable(c: int)
    ensures WeatherIcon(c) == Lookup(IconTable, c)
  {
    if 200 <= c < 300 { AnyHoldingBandDecides(0, c); }
    else if 300 <= c < 600 { AnyHoldingBandDecides(1, c); }
    else if 600 <= c < 700 { AnyHoldingBandDecides(2, c); }
    else if 700 <= c < 800 { AnyHoldingBandDecides(3, c); }
    else if c == 800 { AnyHoldingBandDecides(4, c); }
    else if 800 < c < 900 { AnyHoldingBandDecides(5, c); }
  }
}
