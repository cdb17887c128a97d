/**
 * Conversion between epoch seconds (UTC) and the `dd.mm.yyyy HH:MM:SS`
 * timestamps of the history files (`UnixToString` / `StringToUnix`).
 */
module TimeCodec {
  import opened Wrappers
  import opened Calendar

  /** The broken-down time of one second: date and time of day. */
  datatype Stamp = Stamp(date: Date, hour: int, minute: int, second: int)

  predicate ValidStamp(st: Stamp) {
    ValidDate(st.date) && 0 <= st.hour < 24 && 0 <= st.minute < 60 && 0 <= st.second < 60
  }

  const SecondsPerDay := 86400

  /** Epoch seconds of a broken-down time. */
  function ToUnix(st: Stamp): int
    requires ValidStamp(st)
  {
    DaysFromCivil(st.date) * SecondsPerDay + st.hour * 3600 + st.minute * 60 + st.second
  }

  /** Broken-down UTC time of epoch seconds (`gmtime_s`). */
  function FromUnix(t: int): Stamp {
    var s := t % SecondsPerDay;
    Stamp(CivilFromDays(t / SecondsPerDay), s / 3600, s % 3600 / 60, s % 60)
  }

  // ---------------------------------------------------------------------
  // Digits
  // ---------------------------------------------------------------------

  predicate IsDigit(c: char) {
    '0' <= c <= '9'
  }

  predicate AllDigits(s: string) {
    forall i :: 0 <= i < |s| ==> IsDigit(s[i])
  }

  function DigitChar(n: int): char
    requires 0 <= n < 10
  {
    ('0' as int + n) as char
  }

  /** Value of a string of decimal digits, most significant first. */
  function DigitsValue(s: string): nat
    requires AllDigits(s)
  {
    if s == [] then 0
    else DigitsValue(s[..|s| - 1]) * 10 + (s[|s| - 1] as int - '0' as int)
  }

  /** Two digits, zero-padded (`%d`, `%m`, `%H`, `%M`, `%S`). */
  function Pad2(n: int): string
    requires 0 <= n < 100
  {
    [DigitChar(n / 10), DigitChar(n % 10)]
  }

  /** Four digits, zero-padded (`%Y` of a four-digit year). */
  function Pad4(n: int): string
    requires 0 <= n < 10000
  {
    [DigitChar(n / 1000), DigitChar(n / 100 % 10), DigitChar(n / 10 % 10), DigitChar(n % 10)]
  }

  // ---------------------------------------------------------------------
  // Formatting
  // ---------------------------------------------------------------------

  /** The `HH:MM:SS` part of a broken-down time. */
  function ClockText(st: Stamp): (s: string)
    requires ValidStamp(st)
    ensures |s| == 8 && IsDigit(s[0]) && s[2] == ':' && s[5] == ':'
  {
    Pad2(st.hour) + (":" + (Pad2(st.minute) + (":" + Pad2(st.second))))
  }

  /** The text of a broken-down time with a four-digit year. */
  function Render(st: Stamp): string
    requires ValidStamp(st) && 0 <= st.date.year < 10000
  {
    Pad2(st.date.day) + ("." + (Pad2(st.date.month) + ("." + (Pad4(st.date.year) + (" " + ClockText(st))))))
  }

  /**
   * The shape of `dd.mm.yyyy HH:MM:SS`: nineteen characters, the separators
   * at fixed places and a digit everywhere else (fields are zero-padded).
   */
  predicate Canonical(s: string) {
    && |s| == 19
    && s[2] == '.' && s[5] == '.' && s[10] == ' ' && s[13] == ':' && s[16] == ':'
    && forall k :: 0 <= k < 19 && k != 2 && k != 5 && k != 10 && k != 13 && k != 16 ==> IsDigit(s[k])
  }

  /** True when the UTC year of `t` is printed by `%Y` with exactly four digits. */
  predicate FourDigitYear(t: int) {
    1000 <= FromUnix(t).date.year <= 9999
  }

  /** `UnixToString`: `strftime` with `%d.%m.%Y %H:%M:%S` of the UTC time of `t`. */
  function FormatTime(t: int): (s: string)
    requires FourDigitYear(t)
    ensures Canonical(s)
    ensures ParseTime(s) == t
  {
    var st := FromUnix(t);
    FromUnixValid(t);
    RenderShape(st);
    RenderParses(st);
    ParseTimeOfStamp(Render(st), st);
    Render(st)
  }

  // ---------------------------------------------------------------------
  // Parsing (`std::chrono::parse` with "%d.%m.%Y %H:%M:%S")
  // ---------------------------------------------------------------------

  /** A number read from the front of the input and the input after it. */
  datatype Field = Field(value: nat, rest: string)

  /** How many digits, at most `width`, start `s`. */
  function LeadingDigits(s: string, width: nat): (n: nat)
    ensures n <= width && n <= |s|
    ensures AllDigits(s[..n])
    ensures n < width && n < |s| ==> !IsDigit(s[n])
  {
    if width == 0 || s == [] || !IsDigit(s[0]) then 0
    else
      var n := 1 + LeadingDigits(s[1..], width - 1);
      assert s[..n] == s[..1] + s[1..][..n - 1];
      n
  }

  /** A numeric field of one to `width` digits; none when `s` starts with no digit. */
  function Number(s: string, width: nat): (r: Option<Field>)
    ensures r.Some? ==> r.value.value < Pow10(width) && |r.value.rest| < |s|
  {
    var n := LeadingDigits(s, width);
    if n == 0 then None
    else
      DigitsBound(s[..n]);
      Pow10Monotone(n, width);
      Some(Field(DigitsValue(s[..n]), s[n..]))
  }

  /** A numeric field followed by the literal `sep`; the rest starts after `sep`. */
  function NumberThen(s: string, width: nat, sep: char): Option<Field> {
    var f :- Number(s, width);
    var rest :- Literal(f.rest, sep);
    Some(Field(f.value, rest))
  }

  /** A literal character of the format. */
  function Literal(s: string, c: char): Option<string> {
    if |s| > 0 && s[0] == c then Some(s[1..]) else None
  }

  predicate IsSpace(c: char) {
    c == ' ' || c == '\t' || c == '\n' || c == '\r' || c as int == 0x0B || c as int == 0x0C
  }

  /** A space in the format matches zero or more white-space characters. */
  function SkipSpaces(s: string): (r: string)
    ensures |r| <= |s| && r == s[|s| - |r|..]
    ensures r == [] || !IsSpace(r[0])
  {
    if s != [] && IsSpace(s[0]) then SkipSpaces(s[1..]) else s
  }

  /** A date read from the front of the input and the input after it. */
  datatype DateField = DateField(date: Date, rest: string)

  /** A time of day (hour, minute, second) read from the front of the input. */
  datatype Clock = Clock(hour: int, minute: int, second: int)

  /** `%d.%m.%Y`: the year field is at most four digits wide. */
  function ParseDate(s: string): (r: Option<DateField>)
    ensures r.Some? ==> 0 <= r.value.date.year < 10000
  {
    var day :- NumberThen(s, 2, '.');
    var month :- NumberThen(day.rest, 2, '.');
    var year :- Number(month.rest, 4);
    assert Pow10(4) == 10000;
    Some(DateField(Date(year.value, month.value, day.value), year.rest))
  }

  /** `%H:%M:%S`; whatever follows the seconds is ignored. */
  function ParseClock(s: string): Option<Clock> {
    var hour :- NumberThen(s, 2, ':');
    var minute :- NumberThen(hour.rest, 2, ':');
    var second :- Number(minute.rest, 2);
    Some(Clock(hour.value, minute.value, second.value))
  }

  /** The fields read by the whole format `%d.%m.%Y %H:%M:%S`. */
  function ParseStamp(s: string): (r: Option<Stamp>)
    ensures r.Some? ==> 0 <= r.value.date.year < 10000
  {
    var date :- ParseDate(s);
    var clock :- ParseClock(SkipSpaces(date.rest));
    Some(Stamp(date.date, clock.hour, clock.minute, clock.second))
  }

  const TimeMin := -0x8000_0000_0000_0000
  const TimeMax := 0x7FFF_FFFF_FFFF_FFFF

  /**
   * `StringToUnix`. When the text does not match the format or names an
   * impossible date or time, the parse leaves the time point at its
   * default, the epoch, so the result is 0; no error is raised.
   */
  function ParseTime(s: string): (t: int)
    ensures TimeMin <= t <= TimeMax
    ensures ParseStamp(s).Some? && ValidStamp(ParseStamp(s).value) ==> FromUnix(t) == ParseStamp(s).value
    ensures ParseStamp(s).None? || !ValidStamp(ParseStamp(s).value) ==> t == 0
  {
    match ParseStamp(s)
    case Some(st) =>
      if ValidStamp(st) then
        DaysFromCivilBounds(st.date);
        FromUnixToUnix(st);
        ToUnix(st)
      else 0
    case None => 0
  }

  // ---------------------------------------------------------------------
  // Proofs
  // ---------------------------------------------------------------------

  /** The epoch seconds of a successfully read, valid broken-down time. */
  lemma ParseTimeOfStamp(s: string, st: Stamp)
    requires ParseStamp(s) == Some(st) && ValidStamp(st)
    ensures ParseTime(s) == ToUnix(st)
  {
  }

  /** Leading digits are counted up to the field width. */
  lemma {:induction false} LeadingDigitsOfDigits(ds: string, rest: string, width: nat)
    requires AllDigits(ds) && |ds| == width
    ensures LeadingDigits(ds + rest, width) == width
    decreases width
  {
    if width > 0 {
      assert (ds + rest)[1..] == ds[1..] + rest;
      LeadingDigitsOfDigits(ds[1..], rest, width - 1);
    }
  }

  /** A full-width digit field is read back exactly, whatever follows it. */
  lemma NumberOfDigits(ds: string, rest: string)
    requires AllDigits(ds) && |ds| > 0
    ensures Number(ds + rest, |ds|) == Some(Field(DigitsValue(ds), rest))
  {
    LeadingDigitsOfDigits(ds, rest, |ds|);
    assert (ds + rest)[..|ds|] == ds;
    assert (ds + rest)[|ds|..] == rest;
  }

  lemma DigitsAppend(s: string, c: char)
    requires AllDigits(s) && IsDigit(c)
    ensures AllDigits(s + [c]) && DigitsValue(s + [c]) == DigitsValue(s) * 10 + (c as int - '0' as int)
  {
    assert (s + [c])[..|s|] == s;
  }

  lemma Pad2Value(n: int)
    requires 0 <= n < 100
    ensures AllDigits(Pad2(n)) && DigitsValue(Pad2(n)) == n
  {
    DigitsAppend([], DigitChar(n / 10));
    assert [] + [DigitChar(n / 10)] == [DigitChar(n / 10)];
    DigitsAppend([DigitChar(n / 10)], DigitChar(n % 10));
    assert [DigitChar(n / 10)] + [DigitChar(n % 10)] == Pad2(n);
  }

  /** One more digit: `t` is `s` followed by the last decimal digit of `v`. */
  lemma DigitStep(s: string, c: char, v: int, t: string)
    requires AllDigits(s) && 0 <= v && DigitsValue(s) == v / 10
    requires c == DigitChar(v % 10) && t == s + [c]
    ensures AllDigits(t) && DigitsValue(t) == v
  {
    DigitsAppend(s, c);
  }

  lemma NestedTenths(n: int)
    requires 0 <= n < 10000
    ensures n / 10 / 10 == n / 100 && n / 100 / 10 == n / 1000 && n / 1000 / 10 == 0
    ensures n / 1000 % 10 == n / 1000
  {
  }

  lemma Pad4Value(n: int)
    requires 0 <= n < 10000
    ensures AllDigits(Pad4(n)) && DigitsValue(Pad4(n)) == n
  {
    var a, b, c, d := DigitChar(n / 1000), DigitChar(n / 100 % 10), DigitChar(n / 10 % 10), DigitChar(n % 10);
    NestedTenths(n);
    DigitStep([], a, n / 1000, [a]);
    DigitStep([a], b, n / 100, [a, b]);
    DigitStep([a, b], c, n / 10, [a, b, c]);
    DigitStep([a, b, c], d, n, Pad4(n));
  }

  /** A full-width field followed by its separator is read back exactly. */
  lemma NumberThenOfDigits(ds: string, sep: char, rest: string)
    requires AllDigits(ds) && |ds| > 0
    ensures NumberThen(ds + ([sep] + rest), |ds|, sep) == Some(Field(DigitsValue(ds), rest))
  {
    NumberOfDigits(ds, [sep] + rest);
    assert ([sep] + rest)[1..] == rest;
  }

  lemma ClockParses(st: Stamp)
    requires ValidStamp(st)
    ensures ParseClock(ClockText(st)) == Some(Clock(st.hour, st.minute, st.second))
  {
    Pad2Value(st.hour);
    Pad2Value(st.minute);
    Pad2Value(st.second);
    var t1 := Pad2(st.second);
    var t0 := Pad2(st.minute) + (":" + t1);
    NumberThenOfDigits(Pad2(st.hour), ':', t0);
    NumberThenOfDigits(Pad2(st.minute), ':', t1);
    NumberOfDigits(Pad2(st.second), []);
    assert t1 + [] == t1;
  }

  lemma DateParses(d: Date, rest: string)
    requires ValidDate(d) && 0 <= d.year < 10000
    ensures ParseDate(Pad2(d.day) + ("." + (Pad2(d.month) + ("." + (Pad4(d.year) + rest)))))
         == Some(DateField(d, rest))
  {
    Pad2Value(d.day);
    Pad2Value(d.month);
    Pad4Value(d.year);
    var t1 := Pad4(d.year) + rest;
    var t0 := Pad2(d.month) + ("." + t1);
    NumberThenOfDigits(Pad2(d.day), '.', t0);
    NumberThenOfDigits(Pad2(d.month), '.', t1);
    NumberOfDigits(Pad4(d.year), rest);
  }

  /** The single space before the clock is skipped. */
  lemma SkipOneSpace(clock: string)
    requires clock != [] && !IsSpace(clock[0])
    ensures SkipSpaces(" " + clock) == clock
  {
    assert (" " + clock)[1..] == clock;
  }

  /** The rendered text parses back into the same broken-down time. */
  lemma RenderParses(st: Stamp)
    requires ValidStamp(st) && 0 <= st.date.year < 10000
    ensures ParseStamp(Render(st)) == Some(st)
  {
    RenderedDateParses(st);
    ClockAfterSpace(st);
  }

  /** The clock is read after the space that separates it from the date. */
  lemma ClockAfterSpace(st: Stamp)
    requires ValidStamp(st)
    ensures ParseClock(SkipSpaces(" " + ClockText(st))) == Some(Clock(st.hour, st.minute, st.second))
  {
    ClockParses(st);
    SpaceBeforeClock(ClockText(st), Clock(st.hour, st.minute, st.second));
  }

  /** A space in front of a readable clock is skipped: the clock starts with a digit. */
  lemma SpaceBeforeClock(text: string, c: Clock)
    requires ParseClock(text) == Some(c)
    ensures ParseClock(SkipSpaces(" " + text)) == Some(c)
  {
    assert LeadingDigits(text, 2) > 0;
    SkipOneSpace(text);
  }

  /** The date part of the rendered text is read back, leaving the space and the clock. */
  lemma RenderedDateParses(st: Stamp)
    requires ValidStamp(st) && 0 <= st.date.year < 10000
    ensures ParseDate(Render(st)) == Some(DateField(st.date, " " + ClockText(st)))
  {
    DateParses(st.date, " " + ClockText(st));
  }

  /** The rendered text has the canonical shape. */
  lemma RenderShape(st: Stamp)
    requires ValidStamp(st) && 0 <= st.date.year < 10000
    ensures Canonical(Render(st))
  {
    Pad2Value(st.date.day);
    Pad2Value(st.date.month);
    Pad4Value(st.date.year);
    Pad2Value(st.hour);
    Pad2Value(st.minute);
    Pad2Value(st.second);
  }

  /** The formatted text of a moment is the rendering of its broken-down time. */
  lemma FormatOfStamp(t: int, st: Stamp)
    requires FourDigitYear(t) && FromUnix(t) == st
    ensures ValidStamp(st) && FormatTime(t) == Render(st)
  {
    FromUnixValid(t);
  }

  /** The text of midnight, 1 January 1970. */
  lemma EpochText()
    ensures Render(Stamp(Date(1970, 1, 1), 0, 0, 0)) == "01.01.1970 00:00:00"
  {
  }

  /** Second 0 falls at midnight, 1 January 1970. */
  lemma EpochStamp()
    ensures FromUnix(0) == Stamp(Date(1970, 1, 1), 0, 0, 0)
    ensures ValidStamp(FromUnix(0)) && ToUnix(FromUnix(0)) == 0
  {
    EpochDay();
  }

  /** Second 0 is formatted as `01.01.1970 00:00:00`. */
  lemma EpochFormat()
    ensures FourDigitYear(0) && FormatTime(0) == "01.01.1970 00:00:00"
  {
    EpochStamp();
    FormatOfStamp(0, Stamp(Date(1970, 1, 1), 0, 0, 0));
    EpochText();
  }

  /** `01.01.1970 00:00:00` is read as second 0. */
  lemma EpochParse()
    ensures ParseTime("01.01.1970 00:00:00") == 0
  {
    var st := Stamp(Date(1970, 1, 1), 0, 0, 0);
    EpochStamp();
    EpochText();
    RenderParses(st);
    ParseTimeOfStamp(Render(st), st);
  }

  /** Hours, minutes and seconds of a second of the day. */
  lemma ClockOfSeconds(s: int)
    requires 0 <= s < SecondsPerDay
    ensures 0 <= s / 3600 < 24 && 0 <= s % 3600 / 60 < 60 && 0 <= s % 60 < 60
    ensures s / 3600 * 3600 + s % 3600 / 60 * 60 + s % 60 == s
  {
  }

  /** `FromUnix` yields a valid broken-down time that maps back to `t`. */
  lemma FromUnixValid(t: int)
    ensures ValidStamp(FromUnix(t))
    ensures ToUnix(FromUnix(t)) == t
  {
    var z, s := t / SecondsPerDay, t % SecondsPerDay;
    CivilFromDaysInverse(z);
    ClockOfSeconds(s);
    assert t == z * SecondsPerDay + s;
  }

  /** A valid broken-down time is recovered from its epoch seconds. */
  lemma FromUnixToUnix(st: Stamp)
    requires ValidStamp(st)
    ensures FromUnix(ToUnix(st)) == st
  {
    var z := DaysFromCivil(st.date);
    var s := st.hour * 3600 + st.minute * 60 + st.second;
    assert 0 <= s < SecondsPerDay;
    assert ToUnix(st) / SecondsPerDay == z && ToUnix(st) % SecondsPerDay == s;
    assert s / 3600 == st.hour && s % 3600 / 60 == st.minute && s % 60 == st.second;
    DaysFromCivilInverse(st.date);
  }

  lemma {:induction false} DigitsBound(s: string)
    requires AllDigits(s)
    ensures DigitsValue(s) < Pow10(|s|)
  {
    if s != [] {
      DigitsBound(s[..|s| - 1]);
    }
  }

  function Pow10(n: nat): nat {
    if n == 0 then 1 else 10 * Pow10(n - 1)
  }

  lemma {:induction false} Pow10Monotone(m: nat, n: nat)
    requires m <= n
    ensures Pow10(m) <= Pow10(n)
    decreases n
  {
    if m < n {
      Pow10Monotone(m, n - 1);
    }
  }

  /** Parsing then formatting a canonical timestamp of a four-digit year gives it back. */
  lemma TextRoundTrip(st: Stamp)
    requires ValidStamp(st) && 1000 <= st.date.year <= 9999
    ensures FourDigitYear(ParseTime(Render(st)))
    ensures FormatTime(ParseTime(Render(st))) == Render(st)
  {
    RenderParses(st);
  }
}
