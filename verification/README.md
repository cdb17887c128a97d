# Historical tag readers: a Dafny model

This project models the reading side of the `time_series` CSV reader. Each tag
(a measured variable) has its own history file. Every line of the file is
`dd.mm.yyyy HH:MM:SS;value`, the value uses a decimal comma, and the
timestamps are UTC. The reader does the following:

- it splits each line on `;`;
- it turns the timestamp into epoch seconds;
- it rewrites the decimal comma and parses the number;
- it converts the number to base units through a fixed table of affine rules (`value / scale - offset`);
- it keeps the rows of a closed time window `[begin, end]`, and stops at the first row past the window.

`read_csvs` applies this to a list of tags, in order. `csv_tag_reader` reads a single tag.

Modules, in the order of the header `csv_reader/time_series/csv_timeseries_readers.h`:

- `Calendar`: proleptic Gregorian day arithmetic. This is the part of `gmtime_s` and `chrono::parse` that maps dates to day numbers.
- `TimeCodec`: `UnixToString` (`FormatTime`) and `StringToUnix` (`ParseTime`). A timestamp that does not parse yields 0, the epoch.
- `Decimal`: the string rewrite inside `str2double`. The numeric parse `ss >> result` is a function parameter.
- `Text`: `split_str`, plus the character search it shares with `str2double`.
- `Units`: `converter_dimension`. There is the table as written, the corrected table, and the conversion.
- `Reader`: `csv_timeseries_reader::read`. It is a recursive scan over the file's lines, with a reference definition of what it emits.
- `TagReaders`: `read_csvs` (both overloads) and `csv_tag_reader::read_csv` (both overloads).
- `Wrappers`: `Option` and `Result`.

The file system, the numeric parse and the three physical constants are
parameters, bundled in `Reader.Env`. A file that cannot be opened is `None`.
All values are `real`.

## Model

| member | source | states |
|---|---|---|
| Calendar.CivilFromDaysInverse | csv_reader/time_series/csv_timeseries_readers.h:27-34 | every day number is a valid civil date (month 1..12, day within the month, leap years included) whose day number is the same day |
| Calendar.DaysFromCivilInverse | csv_reader/time_series/csv_timeseries_readers.h:39-49 | every valid civil date is recovered from its day number, so distinct dates get distinct day numbers |
| TimeCodec.FormatTime | csv_reader/time_series/csv_timeseries_readers.h:27-34 | for any epoch second whose UTC year has four digits, the text has the zero-padded `dd.mm.yyyy HH:MM:SS` shape (19 characters, separators at fixed places, digits elsewhere), and parsing it gives the same second back |
| TimeCodec.ParseTime | csv_reader/time_series/csv_timeseries_readers.h:39-49 | result fits a 64-bit `time_t`; a readable, valid timestamp yields the second whose UTC breakdown equals the fields read; anything else yields 0 |
| Calendar.EpochDay | csv_reader/time_series/csv_timeseries_readers.h:44-46 | day number 0 is 1970-01-01 in both directions, the epoch of `time_t` |
| Calendar.NextDayNumber | csv_reader/time_series/csv_timeseries_readers.h:27-49 | the day after a valid date (next day, first of next month, or 1 January of next year) is valid and has the next day number; with `EpochDay` this fixes every day number |
| TimeCodec.EpochFormat | csv_reader/time_series/csv_timeseries_readers.h:27-34 | second 0 is formatted as `01.01.1970 00:00:00` |
| TimeCodec.EpochParse | csv_reader/time_series/csv_timeseries_readers.h:39-49 | `01.01.1970 00:00:00` is read as second 0 |
| TimeCodec.TextRoundTrip | csv_reader/time_series/csv_timeseries_readers.h:27-49 | a canonical `dd.mm.yyyy HH:MM:SS` text of a valid four-digit-year time is reproduced by parsing then formatting |
| Text.IndexOf | csv_reader/time_series/csv_timeseries_readers.h:65-66 | the position of the first occurrence of the character, or the length (npos) exactly when it does not occur |
| Text.Split | csv_reader/time_series/csv_timeseries_readers.h:90-101 | no field contains the delimiter; the empty line and only it gives zero fields |
| Text.JoinSplit | csv_reader/time_series/csv_timeseries_readers.h:90-101 | joining the fields with the delimiter rebuilds the line, except that one trailing delimiter is dropped |
| Text.SplitCount | csv_reader/time_series/csv_timeseries_readers.h:90-101 | one field per delimiter, plus one when the line is non-empty and does not end with the delimiter |
| Text.SplitJoin | csv_reader/time_series/csv_timeseries_readers.h:90-101 | splitting joined, delimiter-free fields whose last field is non-empty gives the fields back |
| Decimal.NormaliseSeparator | csv_reader/time_series/csv_timeseries_readers.h:55-84 | same length; with separator `.` or an absent separator the text is unchanged; otherwise the first separator alone becomes `.` |
| Decimal.RewriteCounts | csv_reader/time_series/csv_timeseries_readers.h:73-80 | the rewrite removes exactly one separator and adds exactly one `.` |
| Decimal.SeparatorTolerance | csv_reader/time_series/csv_timeseries_readers.h:64-81 | a number written with the separator reads the same as the same number written with `.` |
| Decimal.AbsentSeparator | csv_reader/time_series/csv_timeseries_readers.h:66-72 | without the separator in the text, the reading equals the plain `.` reading |
| Decimal.CommaExample | csv_reader/time_series/csv_timeseries_readers.h:55-84 | `12,5` and `12.5` with separator `,`, and `12.5` with `.`, all parse the text `12.5` |
| Units.ConvertDimension | csv_reader/time_series/csv_timeseries_readers.h:112-115 | the result, plus the offset, times the scale gives back the input value |
| Units.IdentityRule | csv_reader/time_series/csv_timeseries_readers.h:112 | the default pair `(1.0, 0.0)` leaves the value unchanged |
| Units.Rules | csv_reader/time_series/csv_timeseries_readers.h:133-146 | the corrected table has the keys of the written one and agrees with it except on `m3/h-m3/s`; every scale is positive |
| Units.Convert | csv_reader/time_series/csv_timeseries_readers.h:121-129 | an instruction outside the table returns the value unchanged; a listed one returns the value the rule maps back to the input |
| Units.ConvertAsWritten | csv_reader/time_series/csv_timeseries_readers.h:121-146 | over the written table, the conversion agrees with `Convert` for every instruction but `m3/h-m3/s`, which never gives a finite value |
| Units.UnknownInstruction | csv_reader/tests/unit_tests.h:13 | `""`, `kg/m3` (the unit of the repository's test) and `not-a-real-unit` pass values through |
| Units.IdentityInstructions | csv_reader/time_series/csv_timeseries_readers.h:134-138 | `m3/s` and `K` are identity conversions |
| Units.GaugeAlias | csv_reader/time_series/csv_timeseries_readers.h:139-140 | `kgf/cm2` and `kgf/cm2(e)` are the same rule |
| Units.Celsius | csv_reader/time_series/csv_timeseries_readers.h:137 | `C` adds the Kelvin offset |
| Units.GaugeOverAbsolute | csv_reader/time_series/csv_timeseries_readers.h:139-141 | a `kgf/cm2(e)` reading exceeds the `kgf/cm2(a)` reading by atmospheric pressure over technical atmosphere |
| Units.HourlyFlowAsWritten | csv_reader/time_series/csv_timeseries_readers.h:135 | as written the `m3/h-m3/s` scale is 0 and no value converts to a finite number |
| Units.HourlyFlowCorrected | csv_reader/time_series/csv_timeseries_readers.h:135-136 | with scale 1/3600 the rule multiplies by 3600 and `m3/h` undoes it |
| Units.ViscosityRoundTrip | csv_reader/time_series/csv_timeseries_readers.h:144-145 | `mm^2/s-m^2/s` followed by `mm^2/s` gives the value back |
| Reader.LineStep | csv_reader/time_series/csv_timeseries_readers.h:222-240 | an emitted row lies inside the window; a skipped or stopping line had a timestamp field; the failure and skip/stop cases are stated by `Reader.LineStepCases` |
| Reader.LineStepCases | csv_reader/time_series/csv_timeseries_readers.h:222-233 | a line fails as malformed exactly when it has no field, or one field whose time is inside the window; a line with a field is skipped exactly when its time is before the window, and stops the loop exactly when its time is past the window and not before it |
| Reader.Scan | csv_reader/time_series/csv_timeseries_readers.h:215-244 | time and value vectors of equal length, no longer than the file, every time inside `[begin, end]`; a failure names a malformed line of the file |
| Reader.Read | csv_reader/time_series/csv_timeseries_readers.h:207-245 | fails with `FileNotFound` exactly when the file cannot be opened; otherwise it is the scan of the file's lines, so `ScanCharacterisation` describes it |
| Reader.WellFormedStep | csv_reader/time_series/csv_timeseries_readers.h:222-240 | a line with two fields before the window is skipped, one past it (and not before it) stops the loop, one inside it is emitted with its time and converted value; it never fails |
| Reader.ScanCharacterisation | csv_reader/time_series/csv_timeseries_readers.h:220-242 | the read emits, in file order, exactly the in-window rows before the first line that is past the window or malformed, and fails exactly when that line is malformed |
| Reader.ChronologicalScanIsFilter | csv_reader/time_series/csv_timeseries_readers.h:220-242 | on well-formed lines with non-decreasing timestamps, the early exit loses nothing: the read equals the plain in-window filter of the whole file |
| Reader.UnboundedKeepsEveryLine | csv_reader/time_series/csv_timeseries_readers.h:207-208 | with the default bounds every well-formed line is emitted in file order, with its own timestamp and the converted value of its second field |
| Reader.UnsortedExample | csv_reader/time_series/csv_timeseries_readers.h:226-231 | rows stamped `t3, t1, t2` with window `[t1, t2]` give no rows: the first line ends the read |
| TagReaders.ReadAll | csv_reader/time_series/csv_timeseries_readers.h:183-198 | on success one series per tag, index-aligned, each the read of `name + ".csv"` with the tag's instruction; fails exactly when some tag's read fails, with the error of the first failing tag |
| TagReaders.MissingFileAbortsBatch | csv_reader/time_series/csv_timeseries_readers.h:192-195 | a tag whose file cannot be opened fails the whole batch |
| TagReaders.FormattedBounds | csv_reader/time_series/csv_timeseries_readers.h:170-176 | both string overloads, given formatted bounds, read the same window as the epoch-second overloads |
| TagReaders.TagReaderOpensBareName | csv_reader/time_series/csv_timeseries_readers.h:282-293 | `csv_tag_reader` opens the tag name as given: given the name with `.csv` it reads what `read_csvs` reads for the bare name; a bare name that cannot be opened fails with `FileNotFound` of that name, and differs from `read_csvs` when `name.csv` can be opened |
| TagReaders.UnparsableBound | csv_reader/time_series/csv_timeseries_readers.h:170-176 | an unparsable start bound becomes the epoch, 0 |

## Notes on behaviour

- A timestamp that cannot be read is not an error. `chrono::parse` leaves the time point at its default, so `StringToUnix` returns 0. A row with such a timestamp is then skipped, stops the read, or is kept at time 0, depending on the window.
- Numeric fields of the timestamp take one up to the field width of digits: two, or four for the year. A space in the format matches any run of white space, including none. Text after the seconds is ignored.
- Field 0 is read for every line, and field 1 only for a line inside the window. So an empty line, or an in-window line with fewer than two fields, is `MalformedRow`. That includes a line without `;` and a line whose only `;` is its last character, such as `01.08.2021 00:00:00;`. A one-field line outside the window is skipped or stops the read as usual.
- The window is not validated. With `begin > end` nothing is emitted.
- `kgf/cm2(e)` adds `ATMOSPHERIC_PRESSURE / TECHNICAL_ATMOSPHERE` after scaling, not `ATMOSPHERIC_PRESSURE` (`Units.GaugeOverAbsolute`). Whether that is intended depends on the units of constants that are not part of this model, so it is stated but not corrected.
- The table is self-consistent if `A-B` means "to `A` from `B`". For example, `MPa-kPa` divides by 1000 and `mm^2/s-m^2/s` multiplies by 10^6. So `m3/h-m3/s` is meant to multiply by 3600, and 3600 m3/s does not convert to 1.

## Findings

| source | as written | input that shows it | evidently intended | confidence | as-written member | corrected member |
|---|---|---|---|---|---|---|
| csv_reader/time_series/csv_timeseries_readers.h:135 | `{1 / 3600, 0.0}` divides two integers, so the scale is 0 and `value / 0.0` is an infinity or NaN | any value with instruction `m3/h-m3/s`, e.g. 1.0 gives +inf and 0.0 gives NaN | scale `1.0 / 3600`, so the rule multiplies by 3600, as the `mm^2/s-m^2/s` rule (scale `1e-6`) multiplies by 10^6 and `mm^2/s` divides it back | high (C++ integer division), not executed | Units.HourlyFlowAsWritten | Units.HourlyFlowCorrected |

The reader and the tag readers use the corrected table (`Units.Rules`).

## Left out

- File I/O: opening the file with `ifstream` and reading it with `getline` is replaced by `Env.files`, which gives the file's lines or `None`.
- The numeric parse `stringstream >> double` and IEEE-754 arithmetic are not modelled. The parse is the parameter `Env.parse`, and values are exact reals. Rounding, overflow and the parse's own failure value are therefore not modelled.
- `KELVIN_OFFSET`, `TECHNICAL_ATMOSPHERE` and `ATMOSPHERIC_PRESSURE`: the headers that define them are not part of this model. They are positive parameters (`Units.Constants`).
- TimeCodec.FormatTime: defined only for moments whose UTC year has four digits, because `%Y` prints other years with another width. The call `gmtime_s(&tm, &t)` at csv_reader/time_series/csv_timeseries_readers.h:30 has the MSVC argument order. That `gmtime_s` returns `EINVAL` for moments before 1970-01-01 00:00:00 UTC and after 3000-12-31 23:59:59 UTC, and fills `tm` with -1. Line 30 ignores the return value, so for those moments the source formats an invalid `tm`. The model formats the proleptic UTC time instead, for example `31.12.1969 00:00:00` for -86400. So for negative moments and for years 3001 to 9999, the model promises a text that the source does not produce.
- Reader.LineStep: values are converted with the corrected table `Units.Rules`. As written, a row read with instruction `m3/h-m3/s` holds `value / 0.0`, that is +inf, -inf or NaN (`Units.ConvertAsWritten`, `Units.HourlyFlowAsWritten`), where the model holds 3600 times the value. The same applies to `Reader.Scan`, `Reader.Read` and `TagReaders.ReadAll`.
- TimeCodec.ParseTime: a sign before the year, leap second 60, and other leniencies of particular `chrono::parse` implementations are not modelled.
- Out-of-range `operator[]` on the split fields is undefined behaviour in the source. The model reports it as `MalformedRow` instead of guessing an outcome.
- The stored references `filename_dim` and `tagname_dim` only matter for C++ object lifetimes, so they are not modelled. The model passes the tag list by value.
- The multi-tag aligner `vector_timeseries_t` is not part of this model, and neither are the test harness and `main`.
