/**
 * `csv_timeseries_reader::read`: one tag's history file, read line by line,
 * restricted to a closed time window, with an early exit at the first line
 * past the window.
 */
module Reader {
  import opened Wrappers
  import opened Text
  import opened Decimal
  import opened TimeCodec
  import opened Units

  /** The closed interval `[begin, end]` of epoch seconds. */
  datatype Window = Window(begin: int, end: int)

  /** The default bounds: the whole range of a 64-bit `time_t`. */
  const Unbounded := Window(TimeMin, TimeMax)

  /** The time and value vectors of one tag, in file order. */
  datatype Series = Series(times: seq<int>, values: seq<real>)

  const NoRows := Series([], [])

  /**
   * Why a read failed. `FileNotFound` is the `runtime_error` thrown when the
   * file cannot be opened; `MalformedRow` is a line whose first or second
   * field the reader indexes although `split_str` did not produce it.
   */
  datatype ReadError = FileNotFound(path: string) | MalformedRow(line: string)

  /**
   * What the reader relies on but does not define: the file system (the lines
   * of a file, or `None` when it cannot be opened), the numeric parse of
   * `str2double`, and the physical constants of the unit table.
   */
  datatype Env = Env(files: string -> Option<seq<string>>, parse: string -> real, constants: Constants) {
    predicate Valid() {
      constants.Valid()
    }
  }

  const FieldDelimiter := ';'
  const DecimalComma := ','

  /** What the loop body does with one line. */
  datatype Step = Skip | Stop | Emit(time: int, value: real) | Malformed

  /**
   * One iteration of the loop: field 0 is always read; a time before the
   * window continues, a time after it breaks; field 1 is read only for a
   * line inside the window.
   */
  function LineStep(line: string, instruction: string, w: Window, env: Env): (step: Step)
    requires env.Valid()
    ensures step.Emit? ==> w.begin <= step.time <= w.end
    ensures step.Skip? || step.Stop? ==> Split(line, FieldDelimiter) != []
  {
    var fields := Split(line, FieldDelimiter);
    if |fields| == 0 then Malformed
    else
      var t := ParseTime(fields[0]);
      if t < w.begin then Skip
      else if t > w.end then Stop
      else if |fields| < 2 then Malformed
      else Emit(t, Convert(StrToDouble(fields[1], DecimalComma, env.parse), instruction, env.constants))
  }

  /** The loop over the lines of an opened file. */
  function Scan(lines: seq<string>, instruction: string, w: Window, env: Env): (r: Result<Series, ReadError>)
    requires env.Valid()
    ensures r.Success? ==> |r.value.times| == |r.value.values|
    ensures r.Success? ==> forall i :: 0 <= i < |r.value.times| ==> w.begin <= r.value.times[i] <= w.end
    ensures r.Success? ==> |r.value.times| <= |lines|
    ensures r.Failure? ==> r.error.MalformedRow? && r.error.line in lines
    decreases |lines|
  {
    if lines == [] then Success(NoRows)
    else
      match LineStep(lines[0], instruction, w, env)
      case Malformed => Failure(MalformedRow(lines[0]))
      case Stop => Success(NoRows)
      case Skip => Scan(lines[1..], instruction, w, env)
      case Emit(t, v) =>
        var rest :- Scan(lines[1..], instruction, w, env);
        Success(Series([t] + rest.times, [v] + rest.values))
  }

  /** `csv_timeseries_reader::read(filename, dimension, time_begin, time_end)`. */
  function Read(path: string, instruction: string, w: Window, env: Env): (r: Result<Series, ReadError>)
    requires env.Valid()
    ensures env.files(path).None? <==> r == Failure(FileNotFound(path))
    ensures r.Success? ==> |r.value.times| == |r.value.values|
    ensures r.Success? ==> forall i :: 0 <= i < |r.value.times| ==> w.begin <= r.value.times[i] <= w.end
    ensures env.files(path).Some? ==> r == Scan(env.files(path).value, instruction, w, env)
  {
    match env.files(path)
    case None => Failure(FileNotFound(path))
    case Some(lines) => Scan(lines, instruction, w, env)
  }

  // ---------------------------------------------------------------------
  // Reference definitions
  // ---------------------------------------------------------------------

  /** Index of the first line that stops the loop or is malformed; `|lines|` if none. */
  function StopIndex(lines: seq<string>, instruction: string, w: Window, env: Env): (i: nat)
    requires env.Valid()
    ensures i <= |lines|
    ensures forall j :: 0 <= j < i ==> !LineStep(lines[j], instruction, w, env).Stop? && !LineStep(lines[j], instruction, w, env).Malformed?
    ensures i < |lines| ==> LineStep(lines[i], instruction, w, env).Stop? || LineStep(lines[i], instruction, w, env).Malformed?
    decreases |lines|
  {
    if lines == [] then 0
    else
      var step := LineStep(lines[0], instruction, w, env);
      if step.Stop? || step.Malformed? then 0
      else 1 + StopIndex(lines[1..], instruction, w, env)
  }

  /** The in-window rows of `lines` in order, ignoring every other line. */
  function Emitted(lines: seq<string>, instruction: string, w: Window, env: Env): Series
    requires env.Valid()
    decreases |lines|
  {
    if lines == [] then NoRows
    else
      var rest := Emitted(lines[1..], instruction, w, env);
      match LineStep(lines[0], instruction, w, env)
      case Emit(t, v) => Series([t] + rest.times, [v] + rest.values)
      case _ => rest
  }

  /** A line with a timestamp field and a value field. */
  predicate WellFormed(line: string) {
    |Split(line, FieldDelimiter)| >= 2
  }

  /** The timestamp of a well-formed line. */
  function TimeOf(line: string): int
    requires WellFormed(line)
  {
    ParseTime(Split(line, FieldDelimiter)[0])
  }

  /** The converted value of a well-formed line. */
  function ValueOf(line: string, instruction: string, env: Env): real
    requires env.Valid() && WellFormed(line)
  {
    Convert(StrToDouble(Split(line, FieldDelimiter)[1], DecimalComma, env.parse), instruction, env.constants)
  }

  /** Well-formed lines whose timestamps never decrease. */
  predicate Chronological(lines: seq<string>) {
    && (forall i :: 0 <= i < |lines| ==> WellFormed(lines[i]))
    && (forall i, j :: 0 <= i < j < |lines| ==> TimeOf(lines[i]) <= TimeOf(lines[j]))
  }

  // ---------------------------------------------------------------------
  // Proofs
  // ---------------------------------------------------------------------

  /** `Emitted` of a prefix that starts with the first line. */
  lemma EmittedPrefix(lines: seq<string>, i: nat, instruction: string, w: Window, env: Env)
    requires env.Valid() && 0 < i <= |lines|
    ensures Emitted(lines[..i], instruction, w, env)
         == match LineStep(lines[0], instruction, w, env)
            case Emit(t, v) =>
              var rest := Emitted(lines[1..][..i - 1], instruction, w, env);
              Series([t] + rest.times, [v] + rest.values)
            case _ => Emitted(lines[1..][..i - 1], instruction, w, env)
  {
    assert lines[..i][0] == lines[0];
    assert lines[..i][1..] == lines[1..][..i - 1];
  }

  /**
   * The loop emits, in file order, exactly the in-window rows before the
   * first line that stops it; it fails when that line is malformed. Lines
   * before the window do not stop it.
   */
  lemma {:induction false} ScanCharacterisation(lines: seq<string>, instruction: string, w: Window, env: Env)
    requires env.Valid()
    ensures var i := StopIndex(lines, instruction, w, env);
      Scan(lines, instruction, w, env)
        == if i < |lines| && LineStep(lines[i], instruction, w, env).Malformed?
           then Failure(MalformedRow(lines[i]))
           else Success(Emitted(lines[..i], instruction, w, env))
    decreases |lines|
  {
    if lines != [] {
      var i := StopIndex(lines, instruction, w, env);
      var step := LineStep(lines[0], instruction, w, env);
      if step.Stop? || step.Malformed? {
        assert i == 0 && lines[..0] == [];
      } else {
        var tail := lines[1..];
        ScanCharacterisation(tail, instruction, w, env);
        var k := StopIndex(tail, instruction, w, env);
        assert i == 1 + k;
        assert i < |lines| ==> lines[i] == tail[k];
        EmittedPrefix(lines, i, instruction, w, env);
      }
    }
  }

  /** Late lines emit nothing. */
  lemma {:induction false} LateLinesEmitNothing(lines: seq<string>, instruction: string, w: Window, env: Env)
    requires env.Valid()
    requires forall j :: 0 <= j < |lines| ==> WellFormed(lines[j]) && TimeOf(lines[j]) > w.end
    ensures Emitted(lines, instruction, w, env) == NoRows
    decreases |lines|
  {
    if lines != [] {
      LateLinesEmitNothing(lines[1..], instruction, w, env);
    }
  }

  /** The lines after the first line of a chronological file are chronological and no earlier. */
  lemma ChronologicalTail(lines: seq<string>)
    requires Chronological(lines) && lines != []
    ensures Chronological(lines[1..])
    ensures forall j :: 0 <= j < |lines[1..]| ==> TimeOf(lines[0]) <= TimeOf(lines[1..][j])
  {
    var tail := lines[1..];
    forall j | 0 <= j < |tail|
      ensures TimeOf(lines[0]) <= TimeOf(tail[j])
    {
      assert tail[j] == lines[j + 1];
    }
  }

  /**
   * A well-formed line never makes the loop fail: it is skipped before the
   * window, stops the loop after it and is emitted inside it.
   */
  lemma WellFormedStep(line: string, instruction: string, w: Window, env: Env)
    requires env.Valid() && WellFormed(line)
    ensures TimeOf(line) < w.begin ==> LineStep(line, instruction, w, env).Skip?
    ensures w.begin <= TimeOf(line) && w.end < TimeOf(line) ==> LineStep(line, instruction, w, env).Stop?
    ensures w.begin <= TimeOf(line) <= w.end
        ==> LineStep(line, instruction, w, env) == Emit(TimeOf(line), ValueOf(line, instruction, env))
    ensures LineStep(line, instruction, w, env).Stop? ==> w.end < TimeOf(line)
  {
  }

  /**
   * What the loop does with any line: it fails on a line without fields and
   * on a one-field line inside the window (field 1 is read only there); a
   * line with a field is skipped before the window and stops the loop past it.
   */
  lemma LineStepCases(line: string, instruction: string, w: Window, env: Env)
    requires env.Valid()
    ensures var fields := Split(line, FieldDelimiter);
      (LineStep(line, instruction, w, env).Malformed? <==>
         fields == [] || (|fields| == 1 && w.begin <= ParseTime(fields[0]) <= w.end))
    ensures var fields := Split(line, FieldDelimiter);
      fields != [] ==>
        && (LineStep(line, instruction, w, env).Skip? <==> ParseTime(fields[0]) < w.begin)
        && (LineStep(line, instruction, w, env).Stop? <==> w.begin <= ParseTime(fields[0]) && w.end < ParseTime(fields[0]))
  {
  }

  /** In a chronological file, a line past the window leaves nothing to emit after it. */
  lemma StopEndsFile(lines: seq<string>, instruction: string, w: Window, env: Env)
    requires env.Valid() && Chronological(lines) && lines != []
    requires TimeOf(lines[0]) > w.end
    ensures Emitted(lines[1..], instruction, w, env) == NoRows
  {
    ChronologicalTail(lines);
    LateLinesEmitNothing(lines[1..], instruction, w, env);
  }

  /**
   * On a chronological file the early exit loses nothing: the loop gives
   * every in-window row of the whole file.
   */
  lemma {:induction false} ChronologicalScanIsFilter(lines: seq<string>, instruction: string, w: Window, env: Env)
    requires env.Valid() && Chronological(lines)
    ensures Scan(lines, instruction, w, env) == Success(Emitted(lines, instruction, w, env))
    decreases |lines|
  {
    if lines != [] {
      ChronologicalTail(lines);
      WellFormedStep(lines[0], instruction, w, env);
      if LineStep(lines[0], instruction, w, env).Stop? {
        StopEndsFile(lines, instruction, w, env);
      } else {
        ChronologicalScanIsFilter(lines[1..], instruction, w, env);
      }
    }
  }

  /** An emitted first line is put in front of the rows of the remaining lines. */
  lemma ScanEmitStep(lines: seq<string>, instruction: string, w: Window, env: Env)
    requires env.Valid() && lines != [] && LineStep(lines[0], instruction, w, env).Emit?
    requires Scan(lines[1..], instruction, w, env).Success?
    ensures Scan(lines, instruction, w, env).Success?
    ensures Scan(lines, instruction, w, env).value.times
         == [LineStep(lines[0], instruction, w, env).time] + Scan(lines[1..], instruction, w, env).value.times
    ensures Scan(lines, instruction, w, env).value.values
         == [LineStep(lines[0], instruction, w, env).value] + Scan(lines[1..], instruction, w, env).value.values
  {
  }

  /** With the default bounds a well-formed line is always inside the window. */
  lemma UnboundedEmits(line: string, instruction: string, env: Env)
    requires env.Valid() && WellFormed(line)
    ensures LineStep(line, instruction, Unbounded, env).Emit?
    ensures LineStep(line, instruction, Unbounded, env) == Emit(TimeOf(line), ValueOf(line, instruction, env))
  {
  }

  /** With the default bounds every well-formed line is kept, in order. */
  lemma {:induction false} UnboundedKeepsEveryLine(lines: seq<string>, instruction: string, env: Env)
    requires env.Valid()
    requires forall j :: 0 <= j < |lines| ==> WellFormed(lines[j])
    ensures Scan(lines, instruction, Unbounded, env).Success?
    ensures |Scan(lines, instruction, Unbounded, env).value.times| == |lines|
    ensures forall j :: 0 <= j < |lines| ==> Scan(lines, instruction, Unbounded, env).value.times[j] == TimeOf(lines[j])
    ensures forall j :: 0 <= j < |lines| ==> Scan(lines, instruction, Unbounded, env).value.values[j] == ValueOf(lines[j], instruction, env)
    decreases |lines|
  {
    if lines != [] {
      var tail := lines[1..];
      UnboundedKeepsEveryLine(tail, instruction, env);
      UnboundedEmits(lines[0], instruction, env);
      ScanEmitStep(lines, instruction, Unbounded, env);
      var r := Scan(lines, instruction, Unbounded, env);
      forall j | 0 <= j < |lines|
        ensures r.value.times[j] == TimeOf(lines[j])
        ensures r.value.values[j] == ValueOf(lines[j], instruction, env)
      {
        if j > 0 {
          assert lines[j] == tail[j - 1];
        }
      }
    }
  }

  /**
   * Rows are not re-sorted: with times `[t3, t1, t2]`, `t1 < t2 < t3`, and
   * window `[t1, t2]`, the first line already ends the read with no rows.
   */
  lemma UnsortedExample(a: string, b: string, c: string, instruction: string, env: Env)
    requires env.Valid()
    requires WellFormed(a) && WellFormed(b) && WellFormed(c)
    requires TimeOf(b) < TimeOf(c) < TimeOf(a)
    ensures Scan([a, b, c], instruction, Window(TimeOf(b), TimeOf(c)), env) == Success(NoRows)
  {
  }
}
