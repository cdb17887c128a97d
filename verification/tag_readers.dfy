/**
 * The two front ends of the reader: `csv_timeseries_reader::read_csvs`,
 * which reads every tag of a list, and `csv_tag_reader::read_csv`, which
 * reads one tag.
 */
module TagReaders {
  import opened Wrappers
  import opened TimeCodec
  import opened Reader

  /** A tag name (the file path without extension) and its unit instruction. */
  datatype Tag = Tag(name: string, instruction: string)

  const Extension := ".csv"

  /** The body of the `read_csvs` loop: the tag's file is its name plus `.csv`. */
  function ReadTag(tag: Tag, w: Window, env: Env): Result<Series, ReadError>
    requires env.Valid()
  {
    Read(tag.name + Extension, tag.instruction, w, env)
  }

  /**
   * `read_csvs(start_period, end_period)`: one series per tag, in the order
   * of the tags; the first failing read aborts the whole batch.
   */
  function ReadAll(tags: seq<Tag>, w: Window, env: Env): (r: Result<seq<Series>, ReadError>)
    requires env.Valid()
    ensures r.Success? ==> |r.value| == |tags|
    ensures r.Success? ==> forall i :: 0 <= i < |tags| ==> ReadTag(tags[i], w, env) == Success(r.value[i])
    ensures r.Failure? <==> exists i :: 0 <= i < |tags| && ReadTag(tags[i], w, env).Failure?
    ensures r.Failure? ==> exists i :: 0 <= i < |tags| && ReadTag(tags[i], w, env) == Failure(r.error)
                                        && forall j :: 0 <= j < i ==> ReadTag(tags[j], w, env).Success?
    decreases |tags|
  {
    if tags == [] then Success([])
    else
      var first :- ReadTag(tags[0], w, env);
      var rest :- ReadAll(tags[1..], w, env);
      Success([first] + rest)
  }

  /** `read_csvs(unixtime_from, unixtime_to)`: the bounds are timestamps to parse. */
  function ReadAllBetween(tags: seq<Tag>, from: string, to: string, env: Env): Result<seq<Series>, ReadError>
    requires env.Valid()
  {
    ReadAll(tags, Window(ParseTime(from), ParseTime(to)), env)
  }

  /**
   * `csv_tag_reader::read_csv(start_period, end_period)`: declares the
   * `.csv` extension but opens the tag name as it is.
   */
  function TagRead(tag: Tag, w: Window, env: Env): Result<Series, ReadError>
    requires env.Valid()
  {
    Read(tag.name, tag.instruction, w, env)
  }

  /** `csv_tag_reader::read_csv(unixtime_from, unixtime_to)`. */
  function TagReadBetween(tag: Tag, from: string, to: string, env: Env): Result<Series, ReadError>
    requires env.Valid()
  {
    TagRead(tag, Window(ParseTime(from), ParseTime(to)), env)
  }

  // ---------------------------------------------------------------------
  // Proofs
  // ---------------------------------------------------------------------

  /** A tag whose file cannot be opened fails the whole batch; no series is returned. */
  lemma MissingFileAbortsBatch(tags: seq<Tag>, i: nat, w: Window, env: Env)
    requires env.Valid() && i < |tags|
    requires env.files(tags[i].name + Extension).None?
    ensures ReadAll(tags, w, env).Failure?
  {
    assert ReadTag(tags[i], w, env).Failure?;
  }

  /** Bounds given as formatted timestamps select the same window as the epoch seconds. */
  lemma FormattedBounds(tags: seq<Tag>, tag: Tag, from: int, to: int, env: Env)
    requires env.Valid() && FourDigitYear(from) && FourDigitYear(to)
    ensures ReadAllBetween(tags, FormatTime(from), FormatTime(to), env) == ReadAll(tags, Window(from, to), env)
    ensures TagReadBetween(tag, FormatTime(from), FormatTime(to), env) == TagRead(tag, Window(from, to), env)
  {
  }

  /**
   * The single-tag reader opens the bare tag name: given the name with
   * `.csv` it reads what `read_csvs` reads for the bare name, and a bare
   * name that cannot be opened fails even when `name.csv` could be.
   */
  lemma TagReaderOpensBareName(tag: Tag, w: Window, env: Env)
    requires env.Valid()
    ensures TagRead(Tag(tag.name + Extension, tag.instruction), w, env) == ReadTag(tag, w, env)
    ensures ReadAll([tag], w, env)
         == match TagRead(Tag(tag.name + Extension, tag.instruction), w, env)
            case Success(s) => Success([s])
            case Failure(e) => Failure(e)
    ensures env.files(tag.name).None? ==> TagRead(tag, w, env) == Failure(FileNotFound(tag.name))
    ensures env.files(tag.name).None? && env.files(tag.name + Extension).Some?
        ==> ReadTag(tag, w, env) != TagRead(tag, w, env)
  {
    assert [tag][1..] == [];
    assert ReadAll([], w, env) == Success([]);
    match ReadTag(tag, w, env)
    case Success(s) =>
      assert [s] + [] == [s];
    case Failure(e) =>
  }

  /** An unparsable bound is the epoch: `StringToUnix` leaves its time point at 0. */
  lemma UnparsableBound(tags: seq<Tag>, from: string, to: string, env: Env)
    requires env.Valid() && ParseStamp(from).None?
    ensures ReadAllBetween(tags, from, to, env) == ReadAll(tags, Window(0, ParseTime(to)), env)
  {
  }
}
