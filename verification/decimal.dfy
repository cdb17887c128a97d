/**
 * `str2double`: a number written with `.` or with a caller-chosen decimal
 * separator. Only the rewrite of the separator is modelled; the stream
 * extraction `ss >> result` is the parameter `parse`.
 */
module Decimal {
  import opened Text

  /** The text handed to the numeric parse: the first `sep` becomes `.`. */
  function NormaliseSeparator(s: string, sep: char): (r: string)
    ensures |r| == |s|
    ensures sep == '.' || sep !in s ==> r == s
    ensures sep != '.' && sep in s ==>
      exists i :: 0 <= i < |s| && s[i] == sep && sep !in s[..i] && r == s[..i] + "." + s[i + 1..]
  {
    if sep == '.' then s
    else
      var i := IndexOf(s, sep);
      if i == |s| then s
      else
        assert s[i := '.'] == s[..i] + "." + s[i + 1..];
        s[i := '.']
  }

  /** `str2double(str, sep)` with the numeric parse `parse`. */
  function StrToDouble(s: string, sep: char, parse: string -> real): real {
    parse(NormaliseSeparator(s, sep))
  }

  // ---------------------------------------------------------------------
  // Proofs
  // ---------------------------------------------------------------------

  /** The rewrite replaces the first `sep`, the one after a `sep`-free head. */
  lemma SeparatorSplice(head: string, rest: string, sep: char)
    requires sep != '.' && sep !in head
    ensures NormaliseSeparator(head + [sep] + rest, sep) == head + ['.'] + rest
  {
    var s := head + [sep] + rest;
    IndexOfAfter(head, rest, sep);
    assert s[|head| := '.'] == head + ['.'] + rest;
  }

  /** Exactly one separator is rewritten: one `sep` fewer and one `.` more. */
  lemma RewriteCounts(s: string, sep: char)
    requires sep != '.' && sep in s
    ensures Count(NormaliseSeparator(s, sep), sep) == Count(s, sep) - 1
    ensures Count(NormaliseSeparator(s, sep), '.') == Count(s, '.') + 1
  {
    var head, rest := FirstDelimiter(s, sep);
    SeparatorSplice(head, rest, sep);
    CountSplice(head, sep, rest, sep);
    CountSplice(head, sep, rest, '.');
    CountSplice(head, '.', rest, sep);
    CountSplice(head, '.', rest, '.');
  }

  /**
   * A number whose integer part holds no `sep` reads the same with `sep`
   * as with `.` as its decimal separator.
   */
  lemma SeparatorTolerance(whole: string, fraction: string, sep: char, parse: string -> real)
    requires sep != '.' && sep !in whole
    ensures StrToDouble(whole + [sep] + fraction, sep, parse) == StrToDouble(whole + "." + fraction, '.', parse)
  {
    SeparatorSplice(whole, fraction, sep);
  }

  /** Without a `sep` in the text the number is read as with `.`. */
  lemma AbsentSeparator(s: string, sep: char, parse: string -> real)
    requires sep !in s
    ensures StrToDouble(s, sep, parse) == StrToDouble(s, '.', parse)
  {
  }

  /** `12,5` and `12.5` are the same number when `,` is the separator. */
  lemma CommaExample(parse: string -> real)
    ensures StrToDouble("12,5", ',', parse) == parse("12.5")
    ensures StrToDouble("12.5", ',', parse) == parse("12.5")
    ensures StrToDouble("12.5", '.', parse) == parse("12.5")
  {
    SeparatorTolerance("12", "5", ',', parse);
    assert "12" + [','] + "5" == "12,5";
    assert "12" + "." + "5" == "12.5";
  }
}
