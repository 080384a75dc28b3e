/**
  Joining fields with a separator and splitting text at a separator, as
  Python's `str.join` and `str.split(sep)` do. The CSV export writes fields
  joined by ',' and lines ended by '\n'; splitting is what a reader of that
  file would do.
 */
module Text {

  /** The fields of `parts` with `d` between consecutive ones. */
  function Join(parts: seq<string>, d: char): (s: string)
    ensures |parts| == 1 ==> s == parts[0]
    decreases |parts|
  {
    if |parts| == 0 then ""
    else if |parts| == 1 then parts[0]
    else parts[0] + [d] + Join(parts[1..], d)
  }

  /** The pieces of `s` between occurrences of `d`; there is always at least one. */
  function Split(s: string, d: char): (pieces: seq<string>)
    ensures |pieces| > 0
    decreases |s|
  {
    if |s| == 0 then [""]
    else
      var rest := Split(s[1..], d);
      if s[0] == d then [""] + rest
      else [[s[0]] + rest[0]] + rest[1..]
  }

  /** Every line followed by a line break, all concatenated. */
  function Lines(ls: seq<string>): (s: string)
    decreases |ls|
  {
    if |ls| == 0 then "" else ls[0] + "\n" + Lines(ls[1..])
  }

  predicate NoneContains(parts: seq<string>, d: char) {
    forall k :: 0 <= k < |parts| ==> d !in parts[k]
  }

  lemma {:induction false} SplitWithoutSeparator(s: string, d: char)
    requires d !in s
    ensures Split(s, d) == [s]
    decreases |s|
  {
    if |s| > 0 {
      SplitWithoutSeparator(s[1..], d);
      assert [s[0]] + s[1..] == s;
    }
  }

  /** Splitting at the first separator peels off the text before it. */
  lemma {:induction false} SplitAtFirstSeparator(a: string, d: char, b: string)
    requires d !in a
    ensures Split(a + [d] + b, d) == [a] + Split(b, d)
    decreases |a|
  {
    var s := a + [d] + b;
    if |a| == 0 {
      assert s[1..] == b;
    } else {
      assert s[1..] == a[1..] + [d] + b;
      SplitAtFirstSeparator(a[1..], d, b);
      assert [a[0]] + a[1..] == a;
    }
  }

  /** Splitting joined fields gives back the fields when none contains the separator. */
  lemma {:induction false} SplitJoin(parts: seq<string>, d: char)
    requires |parts| > 0 && NoneContains(parts, d)
    ensures Split(Join(parts, d), d) == parts
    decreases |parts|
  {
    if |parts| == 1 {
      SplitWithoutSeparator(parts[0], d);
    } else {
      SplitJoin(parts[1..], d);
      SplitAtFirstSeparator(parts[0], d, Join(parts[1..], d));
      assert [parts[0]] + parts[1..] == parts;
    }
  }

  /** Splitting line-terminated text at line breaks gives the lines and one empty piece after the last break. */
  lemma {:induction false} SplitLines(ls: seq<string>)
    requires NoneContains(ls, '\n')
    ensures Split(Lines(ls), '\n') == ls + [""]
    decreases |ls|
  {
    if |ls| > 0 {
      SplitLines(ls[1..]);
      SplitAtFirstSeparator(ls[0], '\n', Lines(ls[1..]));
      assert ls[0] + "\n" + Lines(ls[1..]) == ls[0] + ['\n'] + Lines(ls[1..]);
      assert [ls[0]] + (ls[1..] + [""]) == ls + [""];
    }
  }

  lemma {:induction false} LinesAppend(ls: seq<string>, l: string)
    ensures Lines(ls + [l]) == Lines(ls) + l + "\n"
    decreases |ls|
  {
    if |ls| > 0 {
      assert (ls + [l])[1..] == ls[1..] + [l];
      LinesAppend(ls[1..], l);
    }
  }

  /** Joining the pieces restores the text, and no piece contains the separator. */
  lemma {:induction false} JoinSplit(s: string, d: char)
    ensures Join(Split(s, d), d) == s
    ensures NoneContains(Split(s, d), d)
    decreases |s|
  {
    if |s| > 0 {
      var rest := Split(s[1..], d);
      JoinSplit(s[1..], d);
      if s[0] == d {
        assert ([""] + rest)[1..] == rest;
        assert s == [d] + s[1..];
      } else {
        var p := Split(s, d);
        assert p == [[s[0]] + rest[0]] + rest[1..];
        assert p[1..] == rest[1..];
        if |rest| > 1 {
          assert Join(rest, d) == rest[0] + [d] + Join(rest[1..], d);
        }
        assert s == [s[0]] + s[1..];
        forall k | 0 <= k < |p|
          ensures d !in p[k]
        {
          if k > 0 {
            assert p[k] == rest[k];
          }
        }
      }
    }
  }

  /** A character absent from the text is absent from every piece. */
  lemma {:induction false} SplitKeepsOut(s: string, d: char, c: char)
    requires c !in s
    ensures NoneContains(Split(s, d), c)
    decreases |s|
  {
    if |s| > 0 {
      var rest := Split(s[1..], d);
      SplitKeepsOut(s[1..], d, c);
      var p := Split(s, d);
      forall k | 0 <= k < |p|
        ensures c !in p[k]
      {
        if s[0] == d {
          if k > 0 {
            assert p[k] == rest[k - 1];
          }
        } else {
          if k > 0 {
            assert p[k] == rest[k];
          } else {
            assert p[0] == [s[0]] + rest[0];
          }
        }
      }
    }
  }

  /** Line-terminated text is the lines joined by line breaks, followed by one empty piece. */
  lemma {:induction false} LinesAsJoin(ls: seq<string>)
    ensures Join(ls + [""], '\n') == Lines(ls)
    decreases |ls|
  {
    if |ls| > 0 {
      LinesAsJoin(ls[1..]);
      assert (ls + [""])[1..] == ls[1..] + [""];
    }
  }
}
