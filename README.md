# Weather client core, modelled in Dafny

The repository is a command-line weather client. Its class `WeatherApp`
(`index.ts`) fetches a city's current conditions from OpenWeatherMap and
turns the JSON reply into a `WeatherData` record. This project models the
pure part of that class and proves properties of it:

- `getWeatherIcon` maps a provider condition code to a glyph by integer
  ranges. It is modelled as `WeatherIcons.WeatherIcon`, with the glyphs as
  the enumeration `Glyph` and their emoji text in `Glyph.ToString`.
- `getDayName` looks a weekday index up in a fixed table of seven English
  names. It is modelled as `DayNames.DayName`, with an inverse `DayIndex`.
- `getTimezone` renders a UTC offset in seconds as `UTC±HH:MM`. It is
  modelled as `Timezones.Timezone`. The JavaScript arithmetic is spelled out
  in `JsMath`: `Math.floor(a / b)` is `FloorDiv`, and the `%` operator, which
  gives a result with the dividend's sign, is `TruncRem`. `toString` and
  `padStart` are in `JsStrings`.
- The object literal built by `getWeather` is modelled as
  `WeatherReport.ToWeatherData`, a function from the decoded payload to the
  record. For an empty array, `weather[0]` is `undefined` and reading its
  `description` throws; here that is the error `MissingCondition`. The shifted instant
  `new Date(dt * 1000 + timezone * 1000)` is `ShiftedInstant`, and
  `getDay()` is `JsDates.GetDay`.

Two inputs of the source are not part of the payload, so they are
parameters here:

- The floating-point fields (temperature, humidity, wind speed, longitude,
  latitude) are only copied. The payload and the record are generic in
  their type `N`.
- `getDay()` reads the local time of the process running the client. The
  host zone's offset at that instant is the parameter `hostOffsetMs`.

Three properties of the code are worth knowing before reading the table:

- The classifier has eight branches but seven distinct glyphs, because
  drizzle (300–499) and rain (500–599) share one.
- A half-hour offset keeps its minutes: 19800 renders as `UTC+05:30`
  (`Timezones.TimezoneExamples`).
- For negative offsets the code does not split the magnitude into hours and
  minutes; see Findings.

## Model

| member | source | states |
|---|---|---|
| `JsMath.Abs` | index.ts:88-89 | `Math.abs` on an integer: a natural number equal to x or -x |
| `JsMath.FloorDiv` | index.ts:88 | `Math.floor(a / b)` for b > 0 is the greatest q with q*b <= a |
| `JsMath.TruncRem` | index.ts:89 | JavaScript `a % b`: the result has the dividend's sign, magnitude below b, and magnitude equal to abs(a) mod b |
| `JsStrings.NatToString` | index.ts:91 | `toString` of a non-negative integer: a non-empty numeral without leading zeros whose decimal value is n; one digit iff n < 10, at most two iff n < 100 |
| `JsStrings.NatToStringDigits` | index.ts:91 | every character of that numeral is a digit |
| `JsStrings.PadStart` | index.ts:91 | `padStart(target, fill)` has length max(length of s, target) |
| `JsStrings.PadStartContents` | index.ts:91 | the padded string ends with s and everything before s is the fill character |
| `JsStrings.PadStartValue` | index.ts:91 | zero-padding keeps a numeral's decimal value and keeps it all digits |
| `JsDates.MakeDate` | index.ts:41 | `new Date(t)` is a valid date exactly when abs(t) <= 8.64e15 ms, and then holds t |
| `JsDates.GetDay` | index.ts:84 | `getDay()` is defined exactly for valid dates and is the weekday of the time shifted by the host offset |
| `JsDates.WeekDay` | index.ts:84 | the weekday is the count of whole days since the epoch, taken with a floor, plus Thursday (4), modulo 7 |
| `JsDates.WeekDayCalendar` | index.ts:84 | calendar cross-check: 1 January 2000 is a Saturday and 31 December 1969 a Wednesday |
| `JsDates.WeekDayNextDay` | index.ts:84 | one day later is the next weekday, wrapping from Saturday to Sunday |
| `WeatherIcons.Glyph.ToString` | index.ts:64-78 | each glyph's text is one emoji followed by the presentation selector U+FE0F |
| `WeatherIcons.ToStringInjective` | index.ts:64-78 | two glyphs have the same text iff they are the same glyph, so there are seven distinct texts |
| `WeatherIcons.WeatherIcon` | index.ts:62-80 | `getWeatherIcon`: the drizzle and rain branches together give the rain glyph exactly on [300,600), and the default glyph is given exactly below 200 and from 900 on |
| `WeatherIcons.IconBoundaries` | index.ts:62-80 | for every integer exactly one glyph: [200,300) thunderstorm, [300,600) rain (drizzle and rain), [600,700) snow, [700,800) atmosphere, 800 clear, (800,900) clouds, everything else unknown, each as an iff |
| `WeatherIcons.Lookup` | index.ts:62-80 | reference lookup in a band table: the first band holding the code gives its glyph; a non-unknown result comes from a band holding the code; if no band holds it, the result is unknown |
| `WeatherIcons.IconTableDisjoint` | index.ts:63-76 | the bands of the table do not overlap |
| `WeatherIcons.AnyHoldingBandDecides` | index.ts:63-76 | since the bands are disjoint, any band of the table that holds the code gives the lookup's glyph |
| `WeatherIcons.WeatherIconMatchesTable` | index.ts:62-80 | the if/else chain agrees with the band table on every code |
| `DayNames.DayName` | index.ts:82-85 | a weekday index 0..6 gives one of the seven table names |
| `DayNames.DayIndex` | index.ts:83 | inverse lookup: defined exactly for the seven names, and DayName of the index is the name |
| `DayNames.DaysDistinct` | index.ts:83 | no name occurs twice in the table |
| `DayNames.DayIndexOfDayName` | index.ts:83-84 | looking a day's name up again gives back the day |
| `DayNames.DayNameInjective` | index.ts:83-84 | two indices have the same name iff they are equal |
| `DayNames.DayNameEnds` | index.ts:83 | 0 is "Sunday" and 6 is "Saturday" |
| `Timezones.Pad2` | index.ts:91 | `toString().padStart(2, '0')`: all digits with decimal value n; two characters when n < 100, and from 100 on exactly the plain numeral of n, never cut off |
| `Timezones.Render` | index.ts:91 | the template: starts with "UTC", then the sign, and is nine characters with ':' at position 6 when both numbers are below 100 |
| `Timezones.Hours` | index.ts:88 | `Math.abs(Math.floor(offset / 3600))` is the whole hours of abs(offset), plus one for a negative offset that is not a whole number of hours |
| `Timezones.Minutes` | index.ts:89 | `Math.abs(Math.floor((offset % 3600) / 60))` is the leftover seconds rounded down to minutes for offset >= 0 and rounded up for offset < 0, at most 60 |
| `Timezones.TimezoneFields` | index.ts:88-90 | the sign is east exactly when offset >= 0; for an offset in whole minutes the fields stand for the offset itself, except a negative part-hour offset, for which they stand for one hour further west |
| `Timezones.Timezone` | index.ts:87-92 | `getTimezone`: starts with "UTC"; the sign character is '+' exactly when offset >= 0 and '-' otherwise; at least nine characters |
| `Timezones.TwoDigits` | index.ts:91 | the value of a two-digit numeral is below 100 and equals its decimal value |
| `Timezones.ParseTimezone` | index.ts:91 | reads `UTC±HH:MM` back; a string that parses has nine characters and fields below 100 |
| `Timezones.Pad2Small` | index.ts:91 | below 100, padding gives the tens digit then the units digit |
| `Timezones.RenderSmall` | index.ts:91 | below 100, the rendering is exactly `UTC`, sign, two hour digits, ':', two minute digits |
| `Timezones.ParseRender` | index.ts:91 | rendering fields below 100 and parsing the result gives back the fields |
| `Timezones.RenderParse` | index.ts:91 | every string that parses is the rendering of its fields |
| `Timezones.TimezoneEast` | index.ts:88-89 | for offset >= 0: hours = offset / 3600, minutes = (offset % 3600) / 60 < 60, and the rendered offset is the offset with its leftover seconds dropped |
| `Timezones.MinutesRange` | index.ts:89 | minutes never exceed 60; they are below 60 when offset % 60 == 0; they equal 60 exactly for negative offsets whose leftover exceeds 59 minutes |
| `Timezones.TimezoneRoundTrip` | index.ts:87-92 | offsets within 99 hours render as nine characters that parse back to the computed fields |
| `Timezones.TimezoneExamples` | index.ts:87-92 | 0 gives "UTC+00:00", 19800 "UTC+05:30", -18000 "UTC-05:00", -12600 "UTC-04:30", -3599 "UTC-01:60" |
| `Timezones.CorrectedFields` | index.ts:87-92 | the intended fields: east exactly when offset >= 0, minutes below 60, standing for the offset truncated toward zero to whole minutes (exactly the offset when offset % 60 == 0) |
| `Timezones.TimezoneCorrected` | index.ts:87-92 | the rendering of the offset's magnitude: starts with "UTC" and the sign is '+' exactly when offset >= 0 |
| `Timezones.TimezoneAgreesWithCorrected` | index.ts:87-92 | the two renderings agree for offset >= 0 and for whole hours |
| `Timezones.TimezoneDiffersFromCorrected` | index.ts:87-92 | for every negative part-hour offset the code's hours are one more than the intended hours, and within 99 hours the two strings differ |
| `Timezones.CorrectedExamples` | index.ts:87-92 | the corrected rendering gives "UTC-03:30" for -12600 and "UTC-00:59" for -3599 |
| `WeatherReport.ShiftedInstant` | index.ts:41 | the local-time date is valid exactly when abs((dt + timezone) * 1000) <= 8.64e15, and then holds that instant in ms |
| `WeatherReport.DayOf` | index.ts:53 | the day name is defined exactly for valid dates, and it is the name of the date's weekday in the host zone |
| `WeatherReport.ToWeatherData` | index.ts:40-55 | fails exactly when `weather` is empty; otherwise copies name, country, humidity, temperature, wind speed, lon/lat and the first condition's description, sets icon, timezone, the shifted instant, and a day consistent with that instant |
| `WeatherReport.OnlyFirstConditionRead` | index.ts:44-52 | conditions after the first one do not change the record |
| `WeatherReport.HostOffsetOnlyAffectsDay` | index.ts:41-55 | the host time zone changes the day field and nothing else |
| `WeatherReport.DayMatchesDateTime` | index.ts:41-53 | for a valid shifted instant, day names the weekday of (dt + timezone) * 1000 ms in the host zone |
| `WeatherReport.TimezoneFieldReadsBack` | index.ts:54 | the timezone field parses back to the computed hours and minutes; for whole-hour offsets it states the payload's offset exactly |
| `WeatherReport.LondonExample` | index.ts:42-55 | London, 15.0, "clear sky", code 800, humidity 70, wind 3.5, dt 1700000000, offset 0: record with icon clear, day "Tuesday" and the shifted instant 1700000000000 ms |

## Left out

- The HTTP request (`axios.get` with `q`, `appid`, `units=metric`), `async`/`await` and the catch-log-rethrow (index.ts:32-38, 56-59). These are network I/O and logging. The failure of the object literal itself is kept, as `MissingCondition`.
- `dotenv.config()`, the API key read from the environment and the literal base URL set in the constructor (index.ts:4, 22-28). This is configuration for the HTTP request.
- `displayWeather` and `toLocaleString` (index.ts:94-102). This is console output with locale-dependent formatting.
- `run()`, the `'London'` default argument and the top-level error log (index.ts:105-117). This is command-line glue.
- Payloads of the wrong shape: missing `main`, `sys`, `wind` or `coord` objects, or a non-numeric or absent `dt` or `timezone`. The payload is typed, so the only shape error modelled is an empty `weather` array.
- Condition codes that are not integers: `Condition.id` is an `int`. In the source a missing id (undefined, compared as NaN) falls to the default glyph, and a fractional id such as 800.5 lands in a band by the same comparisons; neither input exists in the model.
- WeatherIcons.Glyph.ToString: its text is a sequence of Unicode code points, two per glyph. JavaScript measures strings in UTF-16 units, so the glyphs whose emoji lies outside the Basic Multilingual Plane (rain, atmosphere, unknown) have `.length` 3 there; nothing in the core reads that length.
- JsStrings.NatToString: gives plain decimal digits for every natural number. JavaScript switches to exponent notation from 1e21 on, which no real offset reaches.
- JsDates.GetDay: the weekday rule is ECMAScript's `WeekDay(LocalTime(t))` (epoch on a Thursday, floor division by ms per day). It is an assumption about the runtime. The host zone's offset at that instant (with any daylight saving) is the parameter `hostOffsetMs`, not computed from zone data.
- Floating-point values: temperature, humidity, wind speed and coordinates are only copied, so they are a type parameter. `dt` and `timezone` are integers.
- WeatherReport.ShiftedInstant and Timezones.Hours: the model computes `dt * 1000 + timezone * 1000` and `Math.floor(offset / 3600)` with unbounded integers. They agree with JavaScript's doubles when abs(dt) and abs(timezone) are at most 2^53/1000 s (about 9·10^12 s), which every real payload meets. Beyond that the products are rounded, and terms of opposite sign can cancel to a valid date that differs from the exact one: dt = 2^60 with timezone = -(2^60 - 256) is 256000 ms exactly but 262144 ms in doubles.
- WeatherReport.ToWeatherData: the icon field holds the `Glyph` rather than its emoji text. `Glyph.ToString` gives the text, and `ToStringInjective` shows that nothing is lost.

## Findings

| source | as written | input that shows it | evidently intended | confidence | as-written member | corrected member |
|---|---|---|---|---|---|---|
| index.ts:88-89 | hours are `Math.abs(Math.floor(offset / 3600))` and minutes `Math.abs(Math.floor((offset % 3600) / 60))`. For a negative offset that is not a whole number of hours, the floor rounds the hours away from zero and the minutes up | -12600 (3 h 30 min west) gives "UTC-04:30"; -3599 gives "UTC-01:60" | the magnitude split into whole hours and leftover minutes: "UTC-03:30" and "UTC-00:59" | high; proved, not executed | `Timezones.TimezoneExamples` (with `Timezones.TimezoneFields`) | `Timezones.TimezoneCorrected` (with `Timezones.CorrectedFields`) |

`WeatherReport.ToWeatherData` still uses the as-written `Timezone`, because it
models what `getWeather` returns (index.ts:54). `TimezoneAgreesWithCorrected`
and `TimezoneDiffersFromCorrected` show where the record's timezone field
departs from the corrected rendering. For every negative offset that is not
a whole number of hours the code's hours are one too many. Within 99 hours
of UTC the two strings then differ. Every other offset renders the same
either way.
