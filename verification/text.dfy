/**
 * Character search and the line splitter `split_str`, which reads fields
 * with `getline(stream, field, delimiter)` until the stream is exhausted.
 */
module Text {

  /** Position of the first `c` in `s`, or `|s|` when there is none (`npos`). */
  function IndexOf(s: string, c: char): (i: nat)
    ensures i <= |s|
    ensures c !in s[..i]
    ensures i < |s| <==> c in s
    ensures i < |s| ==> s[i] == c
  {
    if s == [] then 0
    else if s[0] == c then 0
    else
      var i := 1 + IndexOf(s[1..], c);
      assert s[..i] == [s[0]] + s[1..][..i - 1];
      i
  }

  /** Number of occurrences of `c` in `s`. */
  function Count(s: string, c: char): nat {
    if s == [] then 0
    else (if s[0] == c then 1 else 0) + Count(s[1..], c)
  }

  /**
   * `split_str`: each `getline` call yields the characters up to the next
   * delimiter (which it consumes) or to the end of the line; it fails only
   * when nothing is left. Hence empty fields between delimiters are kept, a
   * final delimiter opens no further field, and the empty line gives none.
   */
  function Split(s: string, d: char): (fields: seq<string>)
    ensures forall k :: 0 <= k < |fields| ==> d !in fields[k]
    ensures s == [] <==> fields == []
    decreases |s|
  {
    if s == [] then []
    else
      var i := IndexOf(s, d);
      if i == |s| then [s] else [s[..i]] + Split(s[i + 1..], d)
  }

  /** The fields written back with the delimiter between each two of them. */
  function Join(fields: seq<string>, d: char): string {
    if fields == [] then []
    else if |fields| == 1 then fields[0]
    else fields[0] + [d] + Join(fields[1..], d)
  }

  function Last(s: string): char
    requires s != []
  {
    s[|s| - 1]
  }

  // ---------------------------------------------------------------------
  // Proofs
  // ---------------------------------------------------------------------

  lemma {:induction false} CountAppend(a: string, b: string, c: char)
    ensures Count(a + b, c) == Count(a, c) + Count(b, c)
    decreases |a|
  {
    if a == [] {
      assert a + b == b;
    } else {
      assert (a + b)[1..] == a[1..] + b;
      CountAppend(a[1..], b, c);
    }
  }

  lemma {:induction false} CountAbsent(s: string, c: char)
    requires c !in s
    ensures Count(s, c) == 0
    decreases |s|
  {
    if s != [] {
      CountAbsent(s[1..], c);
    }
  }

  /** The first delimiter of `f + [d] + rest` is the one after `f` when `f` holds none. */
  lemma {:induction false} IndexOfAfter(f: string, rest: string, d: char)
    requires d !in f
    ensures IndexOf(f + [d] + rest, d) == |f|
    decreases |f|
  {
    if f != [] {
      assert (f + [d] + rest)[1..] == f[1..] + [d] + rest;
      IndexOfAfter(f[1..], rest, d);
    }
  }

  /** A line holding the delimiter is a delimiter-free head, the delimiter and the rest. */
  lemma FirstDelimiter(s: string, d: char) returns (head: string, rest: string)
    requires d in s
    ensures d !in head && s == head + [d] + rest
  {
    var i := IndexOf(s, d);
    head, rest := s[..i], s[i + 1..];
  }

  /** The last character of `head + [d] + rest`. */
  lemma LastCons(head: string, d: char, rest: string)
    ensures rest == [] ==> Last(head + [d] + rest) == d
    ensures rest != [] ==> Last(head + [d] + rest) == Last(rest)
  {
  }

  /** Count of the delimiter in a delimiter-free head, the delimiter and the rest. */
  lemma CountCons(head: string, d: char, rest: string)
    requires d !in head
    ensures Count(head + [d] + rest, d) == 1 + Count(rest, d)
  {
    CountAbsent(head, d);
    assert head + [d] + rest == head + ([d] + rest);
    CountAppend(head, [d] + rest, d);
    assert ([d] + rest)[1..] == rest;
  }

  /** Count of any character in a head, one character and the rest. */
  lemma CountSplice(head: string, c: char, rest: string, x: char)
    ensures Count(head + [c] + rest, x) == Count(head, x) + (if c == x then 1 else 0) + Count(rest, x)
  {
    assert head + [c] + rest == head + ([c] + rest);
    CountAppend(head, [c] + rest, x);
    assert ([c] + rest)[1..] == rest;
  }

  /** Splitting a delimiter-free field, a delimiter and more text. */
  lemma SplitCons(f: string, rest: string, d: char)
    requires d !in f
    ensures Split(f + [d] + rest, d) == [f] + Split(rest, d)
  {
    var s := f + [d] + rest;
    IndexOfAfter(f, rest, d);
    assert s[..|f|] == f;
    assert s[|f| + 1..] == rest;
  }

  /** Joining a field in front of further fields puts one delimiter between them. */
  lemma JoinCons(f: string, tail: seq<string>, d: char)
    requires tail != []
    ensures Join([f] + tail, d) == f + [d] + Join(tail, d)
  {
    assert ([f] + tail)[1..] == tail;
  }

  /** Splitting then joining `head + [d] + rest` keeps `head + [d]` in front. */
  lemma JoinSplitCons(head: string, rest: string, d: char)
    requires d !in head && rest != []
    ensures Join(Split(head + [d] + rest, d), d) == head + [d] + Join(Split(rest, d), d)
  {
    SplitCons(head, rest, d);
    JoinCons(head, Split(rest, d), d);
  }

  /** Appending a delimiter after `head + [d] + j` appends it to `j`. */
  lemma AppendDelimiter(head: string, d: char, j: string)
    ensures head + [d] + j + [d] == head + [d] + (j + [d])
  {
  }

  /**
   * Joining the fields rebuilds the line, except that one trailing
   * delimiter is dropped.
   */
  lemma {:induction false} JoinSplit(s: string, d: char)
    ensures s != [] && Last(s) == d ==> Join(Split(s, d), d) + [d] == s
    ensures s == [] || Last(s) != d ==> Join(Split(s, d), d) == s
    decreases |s|
  {
    if s != [] && d in s {
      var head, rest := FirstDelimiter(s, d);
      LastCons(head, d, rest);
      if rest == [] {
        SplitCons(head, rest, d);
        assert Split(s, d) == [head];
      } else {
        JoinSplit(rest, d);
        JoinSplitCons(head, rest, d);
        AppendDelimiter(head, d, Join(Split(rest, d), d));
      }
    } else if s != [] {
      assert s[|s| - 1] in s;
      assert Split(s, d) == [s];
    }
  }

  /**
   * One field per delimiter, plus one for the text after the last delimiter
   * when the line does not end with one.
   */
  lemma {:induction false} SplitCount(s: string, d: char)
    ensures |Split(s, d)| == Count(s, d) + (if s != [] && Last(s) != d then 1 else 0)
    decreases |s|
  {
    if s != [] {
      if d !in s {
        CountAbsent(s, d);
      } else {
        var head, rest := FirstDelimiter(s, d);
        SplitCons(head, rest, d);
        CountCons(head, d, rest);
        LastCons(head, d, rest);
        SplitCount(rest, d);
      }
    }
  }

  /**
   * Splitting joined fields gives them back when no field holds the
   * delimiter and the last field is not empty.
   */
  lemma {:induction false} SplitJoin(fields: seq<string>, d: char)
    requires forall k :: 0 <= k < |fields| ==> d !in fields[k]
    requires fields != [] ==> fields[|fields| - 1] != []
    ensures Split(Join(fields, d), d) == fields
    decreases |fields|
  {
    if |fields| == 1 {
      assert IndexOf(fields[0], d) == |fields[0]|;
    } else if |fields| > 1 {
      var f := fields[0];
      var rest := fields[1..];
      assert fields == [f] + rest;
      JoinCons(f, rest, d);
      SplitCons(f, Join(rest, d), d);
      SplitJoin(rest, d);
    }
  }
}
