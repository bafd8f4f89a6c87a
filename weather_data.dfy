/** The object-building part of getWeather: the provider's decoded JSON body
    is turned into a WeatherData record with three derived fields (icon, day
    and formatted timezone) and a shifted instant. */
module WeatherReport {
  import opened Wrappers
  import opened JsDates
  import opened WeatherIcons
  import opened DayNames
  import opened Timezones

  /** One entry of the payload's `weather` array. */
  datatype Condition = Condition(id: int, description: string)

  datatype Main<N> = Main(temp: N, humidity: N)
  datatype Wind<N> = Wind(speed: N)
  datatype Sys = Sys(country: string)
  datatype Coord<N> = Coord(lon: N, lat: N)

  /** The provider's body. N stands for a JavaScript floating-point number:
      such values are only copied, never computed with. `dt` is the
      observation time in Unix seconds and `timezone` the location's offset
      from UTC in seconds. */
  datatype Payload<N> = Payload(
    main: Main<N>,
    weather: seq<Condition>,
    wind: Wind<N>,
    sys: Sys,
    coord: Coord<N>,
    name: string,
    dt: int,
    timezone: int)

  /** The record the client returns. */
  datatype WeatherData<N> = WeatherData(
    temperature: N,
    description: string,
    humidity: N,
    windSpeed: N,
    country: string,
    city: string,
    dateTime: DateValue,
    lon: N,
    lat: N,
    icon: Glyph,
    day: Option<string>,
    timezone: string)

  /** Reading `weather[0]` of an empty array yields undefined, and taking its
      `description` throws. */
  datatype MappingError = MissingCondition

  /** `new Date(dt * 1000 + timezone * 1000)`: the observation instant moved by
      the location's offset, in milliseconds. */
  function ShiftedInstant(dt: int, timezone: int): (d: DateValue)
    ensures d.ValidDate? <==> -MaxTimeValue <= (dt + timezone) * 1000 <= MaxTimeValue
    ensures d.ValidDate? ==> d.time == (dt + timezone) * 1000
  {
    MakeDate(dt * 1000 + timezone * 1000)
  }

  /** getDayName(date): `days[date.getDay()]`. An Invalid Date has weekday
      NaN, and indexing the table with it gives undefined (None). */
  function DayOf(date: DateValue, hostOffsetMs: int): (r: Option<string>)
    ensures r.Some? <==> date.ValidDate?
    ensures r.Some? ==> DayIndex(r.value) == Some(WeekDay(date.time + hostOffsetMs))
  {
    match GetDay(date, hostOffsetMs)
    case Some(w) =>
      DayIndexOfDayName(w);
      Some(DayName(w))
    case None => None
  }

  /** The object literal of getWeather. hostOffsetMs is the offset of the
      time zone of the process running the client, which getDay() uses. */
  function ToWeatherData<N>(data: Payload<N>, hostOffsetMs: int): (r: Result<WeatherData<N>, MappingError>)
    ensures r.Failure? <==> |data.weather| == 0
    ensures r.Success? ==>
      var w := r.value;
      && w.temperature == data.main.temp && w.humidity == data.main.humidity
      && w.windSpeed == data.wind.speed && w.country == data.sys.country
      && w.lon == data.coord.lon && w.lat == data.coord.lat
      && w.city == data.name
      && w.description == data.weather[0].description
      && w.icon == WeatherIcon(data.weather[0].id)
      && w.timezone == Timezone(data.timezone)
      && w.dateTime == ShiftedInstant(data.dt, data.timezone)
      && w.day == DayOf(w.dateTime, hostOffsetMs)
  {
    if |data.weather| == 0 then Failure(MissingCondition)
    else
      var localTime := ShiftedInstant(data.dt, data.timezone);
      Success(WeatherData(
        temperature := data.main.temp,
        description := data.weather[0].description,
        humidity := data.main.humidity,
        windSpeed := data.wind.speed,
        country := data.sys.country,
        city := data.name,
        dateTime := localTime,
        lon := data.coord.lon,
        lat := data.coord.lat,
        icon := WeatherIcon(data.weather[0].id),
        day := DayOf(localTime, hostOffsetMs),
        timezone := Timezone(data.timezone)))
  }

  /** Only the first condition of the payload is read: the rest of the array
      can be anything. */
  lemma OnlyFirstConditionRead<N>(data: Payload<N>, rest: seq<Condition>, hostOffsetMs: int)
    requires |data.weather| > 0
    ensures ToWeatherData(data.(weather := data.weather[..1] + rest), hostOffsetMs)
         == ToWeatherData(data, hostOffsetMs)
  {
    var other := data.(weather := data.weather[..1] + rest);
    assert other.weather[0] == data.weather[0];
  }

  /** The host time zone affects the day name and nothing else. */
  lemma HostOffsetOnlyAffectsDay<N>(data: Payload<N>, host1: int, host2: int)
    requires |data.weather| > 0
    ensures ToWeatherData(data, host1).value.(day := None)
         == ToWeatherData(data, host2).value.(day := None)
  {
  }

  /** The day field names the weekday of the shifted instant in the host's
      zone whenever that instant is a valid date; the record's day and
      dateTime therefore agree. */
  lemma DayMatchesDateTime<N>(data: Payload<N>, hostOffsetMs: int)
    requires |data.weather| > 0
    requires -MaxTimeValue <= (data.dt + data.timezone) * 1000 <= MaxTimeValue
    ensures ToWeatherData(data, hostOffsetMs).value.day
         == Some(DayName(WeekDay((data.dt + data.timezone) * 1000 + hostOffsetMs)))
  {
  }

  /** The timezone field reads back as the code's hours and minutes for any
      offset within 99 hours, and states the offset exactly when it is a whole
      number of hours. */
  lemma TimezoneFieldReadsBack<N>(data: Payload<N>, hostOffsetMs: int)
    requires |data.weather| > 0
    requires -99 * SecondsPerHour <= data.timezone < 100 * SecondsPerHour
    ensures var f := ParseTimezone(ToWeatherData(data, hostOffsetMs).value.timezone);
      && f == Some(TimezoneFields(data.timezone))
      && (data.timezone % SecondsPerHour == 0 ==> FieldsSeconds(f.value) == data.timezone)
  {
    TimezoneRoundTrip(data.timezone);
    if data.timezone % SecondsPerHour == 0 {
      assert data.timezone % SecondsPerMinute == 0;
    }
  }

  /** The provider's reply for London used as the end-to-end scenario:
      15.0 degrees, clear sky (code 800), 70% humidity, wind 3.5 m/s, at
      Unix time 1700000000 with a zero offset, seen from a host on UTC. */
  function LondonPayload(): Payload<real>
  {
    Payload(Main(15.0, 70.0), [Condition(800, "clear sky")], Wind(3.5),
            Sys("GB"), Coord(-0.1257, 51.5085), "London", 1_700_000_000, 0)
  }

  lemma LondonExample()
    ensures var r := ToWeatherData(LondonPayload(), 0);
      && r.Success?
      && r.value.city == "London" && r.value.country == "GB"
      && r.value.temperature == 15.0 && r.value.description == "clear sky"
      && r.value.icon == Clear && r.value.humidity == 70.0 && r.value.windSpeed == 3.5
      && r.value.dateTime == ValidDate(1_700_000_000_000)
      && r.value.day == Some("Tuesday")
      && r.value.timezone == Timezone(0)
  {
    assert WeekDay(1_700_000_000_000) == 2;
  }
}
