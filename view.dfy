/** The string helpers the statistics viewer uses to build its reports:
    label line normalisation, run-length encoding of table index values,
    statistic column filtering, benchmark labels, padding, units, legend
    order and output file names. Strings are sequences of characters;
    case folding is ASCII only. */
module View {
  import opened Wrappers

  // ---------------------------------------------------------------------
  // Joining and splitting lines
  // ---------------------------------------------------------------------

  /** `sep.join(xs)`. */
  function Join<T>(sep: seq<T>, xs: seq<seq<T>>): seq<T>
    decreases |xs|
  {
    if xs == [] then [] else if |xs| == 1 then xs[0] else Join(sep, xs[..|xs| - 1]) + sep + xs[|xs| - 1]
  }

  /** `s.split(d)`: the pieces between the delimiters, never none. */
  function Split<T(==)>(s: seq<T>, d: T): (r: seq<seq<T>>)
    ensures |r| >= 1
    decreases |s|
  {
    if s == [] then [[]]
    else
      var p := Split(s[..|s| - 1], d);
      var c := s[|s| - 1];
      if c == d then p + [[]] else p[..|p| - 1] + [p[|p| - 1] + [c]]
  }

  /** One more element either ends the last piece (a delimiter) or extends
      it. */
  lemma SplitSnoc<T>(s: seq<T>, c: T, d: T)
    ensures var p := Split(s, d);
      Split(s + [c], d) == if c == d then p + [[]] else p[..|p| - 1] + [p[|p| - 1] + [c]]
  {
    assert (s + [c])[..|s|] == s;
  }

  /** No piece holds the delimiter. */
  lemma {:induction false} SplitPieces<T>(s: seq<T>, d: T)
    ensures forall i :: 0 <= i < |Split(s, d)| ==> d !in Split(s, d)[i]
    decreases |s|
  {
    if s != [] {
      var init, c := s[..|s| - 1], s[|s| - 1];
      SplitPieces(init, d);
      assert init + [c] == s;
      SplitSnoc(init, c, d);
      var p := Split(init, d);
      if c != d {
        var last := p[|p| - 1] + [c];
        assert d !in p[|p| - 1];
        assert d !in last;
        var q := p[..|p| - 1] + [last];
        assert forall i :: 0 <= i < |q| - 1 ==> q[i] == p[i];
      } else {
        var q := p + [[]];
        assert forall i :: 0 <= i < |q| - 1 ==> q[i] == p[i];
      }
    }
  }

  /** Joining the pieces with the delimiter gives the input back. */
  lemma {:induction false} SplitJoinBack<T>(s: seq<T>, d: T)
    ensures Join([d], Split(s, d)) == s
    decreases |s|
  {
    if s != [] {
      var init, c := s[..|s| - 1], s[|s| - 1];
      SplitJoinBack(init, d);
      assert init + [c] == s;
      SplitSnoc(init, c, d);
      var p := Split(init, d);
      if c == d {
        JoinSnoc([d], p, []);
      } else if |p| == 1 {
        assert Split(s, d) == [p[0] + [c]];
      } else {
        var p' := p[..|p| - 1];
        assert p' + [p[|p| - 1]] == p;
        JoinSnoc([d], p', p[|p| - 1]);
        JoinSnoc([d], p', p[|p| - 1] + [c]);
      }
    }
  }

  /** Joining one piece more adds the separator and that piece. */
  lemma JoinSnoc<T>(sep: seq<T>, xs: seq<seq<T>>, x: seq<T>)
    requires xs != []
    ensures Join(sep, xs + [x]) == Join(sep, xs) + sep + x
  {
    assert (xs + [x])[..|xs|] == xs;
  }

  /** `s.splitlines()` for newline-separated text: the lines, with no empty
      line after a final newline and none at all for the empty string. */
  function SplitLines(s: string): (r: seq<string>)
    ensures forall i :: 0 <= i < |r| ==> '\n' !in r[i]
  {
    if s == "" then []
    else
      var p := Split(s, '\n');
      SplitPieces(s, '\n');
      if p[|p| - 1] == "" then p[..|p| - 1] else p
  }

  /** Splitting a run without the delimiter gives just that run. */
  lemma {:induction false} SplitPlain<T>(l: seq<T>, d: T)
    requires d !in l
    ensures Split(l, d) == [l]
    decreases |l|
  {
    if l != [] {
      var l', c := l[..|l| - 1], l[|l| - 1];
      assert l' + [c] == l;
      assert d !in l' by {
        forall i | 0 <= i < |l'| ensures l'[i] != d { assert l[i] != d; }
      }
      SplitPlain(l', d);
      SplitSnoc(l', c, d);
    }
  }

  /** Splitting after a delimiter adds the run that follows as a piece. */
  lemma {:induction false} SplitAppend<T>(a: seq<T>, d: T, l: seq<T>)
    requires d !in l
    ensures Split(a + [d] + l, d) == Split(a, d) + [l]
    decreases |l|
  {
    if l == [] {
      assert a + [d] + l == a + [d];
      SplitSnoc(a, d, d);
    } else {
      var l', c := l[..|l| - 1], l[|l| - 1];
      assert l' + [c] == l;
      assert d !in l' by {
        forall i | 0 <= i < |l'| ensures l'[i] != d { assert l[i] != d; }
      }
      SplitAppend(a, d, l');
      assert a + [d] + l == (a + [d] + l') + [c];
      SplitSnoc(a + [d] + l', c, d);
      var p := Split(a, d) + [l'];
      assert p[..|p| - 1] == Split(a, d);
    }
  }

  /** Splitting joined runs that hold no delimiter gives the runs back. */
  lemma {:induction false} SplitJoin<T>(xs: seq<seq<T>>, d: T)
    requires |xs| >= 1 && forall i :: 0 <= i < |xs| ==> d !in xs[i]
    ensures Split(Join([d], xs), d) == xs
    decreases |xs|
  {
    if |xs| == 1 {
      SplitPlain(xs[0], d);
    } else {
      var init, x := xs[..|xs| - 1], xs[|xs| - 1];
      SplitJoin(init, d);
      assert init + [x] == xs;
      JoinSnoc([d], init, x);
      SplitAppend(Join([d], init), d, x);
    }
  }

  /** `splitlines` undoes the newline join of lines without newlines, as
      long as the last line is not empty. */
  lemma SplitLinesJoin(xs: seq<string>)
    requires forall i :: 0 <= i < |xs| ==> '\n' !in xs[i]
    requires xs == [] || xs[|xs| - 1] != ""
    ensures SplitLines(Join("\n", xs)) == xs
  {
    if xs != [] {
      SplitJoin(xs, '\n');
    }
  }

  /** Splitting then joining with newlines gives the text back. */
  lemma SplitNewlinesJoin(s: string)
    ensures Join("\n", Split(s, '\n')) == s
  {
    SplitJoinBack(s, '\n');
  }

  /** Joining two non-empty runs of pieces puts one separator between. */
  lemma {:induction false} JoinAppend<T>(sep: seq<T>, a: seq<seq<T>>, b: seq<seq<T>>)
    requires a != [] && b != []
    ensures Join(sep, a + b) == Join(sep, a) + sep + Join(sep, b)
    decreases |b|
  {
    if |b| == 1 {
      JoinSnoc(sep, a, b[0]);
    } else {
      var b', x := b[..|b| - 1], b[|b| - 1];
      assert b' + [x] == b;
      assert a + b == (a + b') + [x];
      JoinAppend(sep, a, b');
      JoinSnoc(sep, a + b', x);
      JoinSnoc(sep, b', x);
    }
  }

  /** Pieces without the element joined by a separator without it hold
      no such element. */
  lemma {:induction false} JoinNoNewline<T>(sep: seq<T>, xs: seq<seq<T>>, d: T)
    requires d !in sep && forall i :: 0 <= i < |xs| ==> d !in xs[i]
    ensures d !in Join(sep, xs)
    decreases |xs|
  {
    if |xs| > 1 {
      JoinNoNewline(sep, xs[..|xs| - 1], d);
    }
  }

  // ---------------------------------------------------------------------
  // normalize_to_num_lines
  // ---------------------------------------------------------------------

  /** The padding line `normalize_to_num_lines` puts on top. */
  const PadLine: string := "$~$"

  /** `normalize_to_num_lines` on the list of lines: pad lines on top when
      there are fewer than `lines`, otherwise the first excess + 1 lines
      joined with spaces into one (Python's slice clamps at the end). */
  function NormalizeLines(ls: seq<string>, lines: int): seq<string>
  {
    var numPad := lines - |ls|;
    if numPad >= 0 then seq(numPad, _ => PadLine) + ls
    else
      var cut := if -numPad + 1 <= |ls| then -numPad + 1 else |ls|;
      [Join(" ", ls[..cut])] + ls[cut..]
  }

  /** The label comes out with exactly the lines asked for whenever at least
      one is; asked for none or fewer, it comes out as at most one line. */
  lemma NormalizeLinesCount(ls: seq<string>, lines: int)
    ensures lines >= 1 ==> |NormalizeLines(ls, lines)| == lines
    ensures lines < 1 ==> |NormalizeLines(ls, lines)| == (if lines == 0 && ls == [] then 0 else 1)
  {
  }

  /** Padding only adds pad lines on top of the label's own lines. */
  lemma NormalizeLinesPads(ls: seq<string>, lines: int)
    requires lines >= |ls|
    ensures var r := NormalizeLines(ls, lines);
      r[lines - |ls|..] == ls && forall i :: 0 <= i < lines - |ls| ==> r[i] == PadLine
  {
  }

  /** Reducing only moves line breaks: the words in order, joined by
      spaces, stay the same. */
  lemma NormalizeLinesKeepsWords(ls: seq<string>, lines: int)
    requires lines < |ls|
    ensures Join(" ", NormalizeLines(ls, lines)) == Join(" ", ls)
  {
    var cut := if |ls| - lines + 1 <= |ls| then |ls| - lines + 1 else |ls|;
    assert NormalizeLines(ls, lines) == [Join(" ", ls[..cut])] + ls[cut..];
    if cut > 0 {
      JoinMerge(" ", ls, cut);
    }
  }

  /** Joining a joined prefix with the rest is joining everything. */
  lemma JoinMerge<T>(sep: seq<T>, xs: seq<seq<T>>, cut: nat)
    requires 0 < cut <= |xs|
    ensures Join(sep, [Join(sep, xs[..cut])] + xs[cut..]) == Join(sep, xs)
  {
    if cut < |xs| {
      JoinAppend(sep, [Join(sep, xs[..cut])], xs[cut..]);
      JoinAppend(sep, xs[..cut], xs[cut..]);
      assert xs[..cut] + xs[cut..] == xs;
    } else {
      assert xs[..cut] == xs;
      assert [Join(sep, xs[..cut])] + xs[cut..] == [Join(sep, xs)];
    }
  }

  /** `normalize_to_num_lines`. */
  function NormalizeToNumLines(text: string, lines: int): string
  {
    Join("\n", NormalizeLines(SplitLines(text), lines))
  }

  /** The normalised label has exactly `lines` lines when read back with
      `splitlines`, for a label whose last line is not empty. */
  lemma NormalizeToNumLinesCount(text: string, lines: int)
    requires lines >= 1
    requires var ls := SplitLines(text); ls == [] || ls[|ls| - 1] != ""
    ensures |SplitLines(NormalizeToNumLines(text, lines))| == lines
  {
    var ls := SplitLines(text);
    var r := NormalizeLines(ls, lines);
    NormalizeLinesCount(ls, lines);
    if lines < |ls| {
      var cut := |ls| - lines + 1;
      JoinNoNewline(" ", ls[..cut], '\n');
      if cut == |ls| {
        assert ls[..cut][..cut - 1] == ls[..cut - 1];
      }
    }
    assert forall i :: 0 <= i < |r| ==> '\n' !in r[i];
    SplitLinesJoin(r);
  }

  // ---------------------------------------------------------------------
  // dedup_and_count: run-length encoding
  // ---------------------------------------------------------------------

  /** The run-length encoding of `s`: each maximal run of equal values as
      the value and the run's length. */
  function RunLengths<T(==)>(s: seq<T>): seq<(T, nat)>
    decreases |s|
  {
    if s == [] then []
    else
      var p := RunLengths(s[..|s| - 1]);
      var x := s[|s| - 1];
      if p != [] && p[|p| - 1].0 == x then p[..|p| - 1] + [(x, p[|p| - 1].1 + 1)] else p + [(x, 1)]
  }

  /** One more value either lengthens the last run or starts a new one. */
  lemma RunLengthsSnoc<T>(s: seq<T>, x: T)
    ensures var p := RunLengths(s);
      RunLengths(s + [x]) ==
        if p != [] && p[|p| - 1].0 == x then p[..|p| - 1] + [(x, p[|p| - 1].1 + 1)] else p + [(x, 1)]
  {
    assert (s + [x])[..|s|] == s;
  }

  /** An encoding is empty only for the empty input, has positive counts,
      never puts two equal values side by side, and ends with the input's
      last value. */
  lemma {:induction false} RunLengthsShape<T>(s: seq<T>)
    ensures var r := RunLengths(s);
      && (s == [] <==> r == [])
      && (forall i :: 0 <= i < |r| ==> r[i].1 > 0)
      && (forall i :: 0 <= i < |r| - 1 ==> r[i].0 != r[i + 1].0)
      && (r != [] ==> r[|r| - 1].0 == s[|s| - 1])
    decreases |s|
  {
    if s != [] {
      var init, x := s[..|s| - 1], s[|s| - 1];
      RunLengthsShape(init);
      assert init + [x] == s;
      RunLengthsSnoc(init, x);
      var p := RunLengths(init);
      if p != [] && p[|p| - 1].0 == x {
        RunsReplaceLast(p, (x, p[|p| - 1].1 + 1));
      } else {
        RunsAppend(p, (x, 1));
      }
    }
  }

  /** Replacing the last run by a longer run of the same value keeps the
      counts positive and neighbours distinct. */
  lemma RunsReplaceLast<T>(p: seq<(T, nat)>, e: (T, nat))
    requires p != [] && p[|p| - 1].0 == e.0 && e.1 > 0
    requires forall i :: 0 <= i < |p| ==> p[i].1 > 0
    requires forall i :: 0 <= i < |p| - 1 ==> p[i].0 != p[i + 1].0
    ensures var r := p[..|p| - 1] + [e];
      && (forall i :: 0 <= i < |r| ==> r[i].1 > 0)
      && (forall i :: 0 <= i < |r| - 1 ==> r[i].0 != r[i + 1].0)
  {
    var r := p[..|p| - 1] + [e];
    assert forall i :: 0 <= i < |r| - 1 ==> r[i] == p[i];
  }

  /** A new run of a value other than the last keeps neighbours distinct. */
  lemma RunsAppend<T>(p: seq<(T, nat)>, e: (T, nat))
    requires p != [] ==> p[|p| - 1].0 != e.0
    requires e.1 > 0
    requires forall i :: 0 <= i < |p| ==> p[i].1 > 0
    requires forall i :: 0 <= i < |p| - 1 ==> p[i].0 != p[i + 1].0
    ensures var r := p + [e];
      && (forall i :: 0 <= i < |r| ==> r[i].1 > 0)
      && (forall i :: 0 <= i < |r| - 1 ==> r[i].0 != r[i + 1].0)
  {
    var r := p + [e];
    assert forall i :: 0 <= i < |p| ==> r[i] == p[i];
  }

  /** The values an encoding stands for, each repeated its count. */
  function Expand<T>(r: seq<(T, nat)>): seq<T>
    decreases |r|
  {
    if r == [] then [] else Expand(r[..|r| - 1]) + Repeat1(r[|r| - 1].0, r[|r| - 1].1)
  }

  /** The sum of an encoding's counts. */
  function Total<T>(r: seq<(T, nat)>): nat
    decreases |r|
  {
    if r == [] then 0 else Total(r[..|r| - 1]) + r[|r| - 1].1
  }

  /** Expanding the encoding gives the input back. */
  lemma {:induction false} RunLengthsExpand<T>(s: seq<T>)
    ensures Expand(RunLengths(s)) == s
    decreases |s|
  {
    if s != [] {
      var init, x := s[..|s| - 1], s[|s| - 1];
      RunLengthsExpand(init);
      assert init + [x] == s;
      ExpandStep(init, x);
    }
  }

  /** The step of `RunLengthsExpand`: one more value expands to one more
      value at the end. */
  lemma ExpandStep<T>(init: seq<T>, x: T)
    requires Expand(RunLengths(init)) == init
    ensures Expand(RunLengths(init + [x])) == init + [x]
  {
    RunLengthsSnoc(init, x);
    var p := RunLengths(init);
    if p != [] && p[|p| - 1].0 == x {
      var p', c := p[..|p| - 1], p[|p| - 1].1;
      assert p' + [(x, c)] == p;
      ExpandMerge(p', x, c);
    } else {
      ExpandSnoc(p, (x, 1));
    }
  }

  /** Lengthening the last run by one expands to one more value. */
  lemma ExpandMerge<T>(p: seq<(T, nat)>, x: T, c: nat)
    ensures Expand(p + [(x, c + 1)]) == Expand(p + [(x, c)]) + [x]
  {
    ExpandSnoc(p, (x, c));
    ExpandSnoc(p, (x, c + 1));
    assert Repeat1(x, c + 1) == Repeat1(x, c) + [x];
  }

  /** Expanding an encoding with one pair more adds that pair's run. */
  lemma ExpandSnoc<T>(r: seq<(T, nat)>, e: (T, nat))
    ensures Expand(r + [e]) == Expand(r) + Repeat1(e.0, e.1)
  {
    assert (r + [e])[..|r|] == r;
  }

  /** The counts add up to the input's length. */
  lemma {:induction false} RunLengthsTotal<T>(s: seq<T>)
    ensures Total(RunLengths(s)) == |s|
  {
    RunLengthsExpand(s);
    ExpandLength(RunLengths(s));
  }

  /** An encoding expands to as many values as its counts add up to. */
  lemma {:induction false} ExpandLength<T>(r: seq<(T, nat)>)
    ensures |Expand(r)| == Total(r)
    decreases |r|
  {
    if r != [] {
      ExpandLength(r[..|r| - 1]);
    }
  }

  /** The values of a list without `None`. */
  function Values<T>(l: seq<Option<T>>): (r: seq<T>)
    requires forall i :: 0 <= i < |l| ==> l[i].Some?
    ensures |r| == |l| && forall i :: 0 <= i < |l| ==> l[i] == Some(r[i])
  {
    seq(|l|, i requires 0 <= i < |l| => l[i].value)
  }

  /** `dedup_and_count`: the run-length encoding of the index values, or
      `None` where the source's assertion rejects a `None` value. */
  method DedupAndCount<T(==)>(l: seq<Option<T>>) returns (r: Option<seq<(T, nat)>>)
    ensures r.None? <==> None in l
    ensures r.Some? ==> forall i :: 0 <= i < |l| ==> l[i].Some?
    ensures r.Some? ==> r.value == RunLengths(Values(l))
  {
    if None in l {
      return None;
    }
    NoneFree(l);
    var s := Values(l);
    var last: Option<T> := None;
    var count: nat := 0;
    var out: seq<(T, nat)> := [];
    var i := 0;
    while i < |s|
      invariant i <= |s|
      invariant last.None? <==> i == 0
      invariant last.None? ==> count == 0 && out == []
      invariant last.Some? ==> last.value == s[i - 1] && out + [(last.value, count)] == RunLengths(s[..i])
    {
      var ll := s[i];
      if last.None? {
        last := Some(ll);
      }
      if ll == last.value {
        DedupSame(s, i, out, count);
        count := count + 1;
      } else {
        DedupNew(s, i, out, count);
        out := out + [(last.value, count)];
        last := Some(ll);
        count := 1;
      }
      i := i + 1;
    }
    if last.Some? {
      out := out + [(last.value, count)];
    }
    assert s[..i] == s;
    return Some(out);
  }

  /** A list without `None` has a value at every index. */
  lemma NoneFree<T>(l: seq<Option<T>>)
    requires None !in l
    ensures forall i :: 0 <= i < |l| ==> l[i].Some?
  {
  }

  /** A value equal to the one before lengthens the current run. */
  lemma DedupSame<T>(s: seq<T>, i: nat, out: seq<(T, nat)>, count: nat)
    requires i < |s|
    requires i == 0 ==> out == [] && count == 0
    requires i > 0 ==> s[i - 1] == s[i] && out + [(s[i - 1], count)] == RunLengths(s[..i])
    ensures out + [(s[i], count + 1)] == RunLengths(s[..i + 1])
  {
    assert s[..i + 1] == s[..i] + [s[i]];
    RunLengthsSnoc(s[..i], s[i]);
  }

  /** A value other than the one before closes the current run. */
  lemma DedupNew<T>(s: seq<T>, i: nat, out: seq<(T, nat)>, count: nat)
    requires 0 < i < |s| && s[i - 1] != s[i]
    requires out + [(s[i - 1], count)] == RunLengths(s[..i])
    ensures out + [(s[i - 1], count)] + [(s[i], 1)] == RunLengths(s[..i + 1])
  {
    assert s[..i + 1] == s[..i] + [s[i]];
    RunLengthsSnoc(s[..i], s[i]);
  }


  // ---------------------------------------------------------------------
  // filter_stat_cols
  // ---------------------------------------------------------------------

  /** ASCII `str.lower()`. */
  function Lower(s: string): (r: string)
    ensures |r| == |s|
    ensures forall i :: 0 <= i < |s| ==> !('A' <= r[i] <= 'Z')
    ensures forall i :: 0 <= i < |s| ==> r[i] == (if 'A' <= s[i] <= 'Z' then (s[i] as int + 32) as char else s[i])
  {
    seq(|s|, i requires 0 <= i < |s| => if 'A' <= s[i] <= 'Z' then (s[i] as int + 32) as char else s[i])
  }

  /** Lowering twice is lowering once. */
  lemma LowerIdempotent(s: string)
    ensures Lower(Lower(s)) == Lower(s)
  {
  }

  /** `a` is `b` with some elements left out, order kept. */
  predicate Subsequence<T(==)>(a: seq<T>, b: seq<T>)
    decreases |b|
  {
    if a == [] then true
    else if b == [] then false
    else (a[|a| - 1] == b[|b| - 1] && Subsequence(a[..|a| - 1], b[..|b| - 1])) || Subsequence(a, b[..|b| - 1])
  }

  /** The columns whose lowercase name is requested, in their order. */
  function FilterCols(cols: seq<string>, names: seq<string>): (r: seq<string>)
    ensures Subsequence(r, cols)
    ensures forall c :: c in r <==> c in cols && Lower(c) in names
    decreases |cols|
  {
    if cols == [] then []
    else
      var p := FilterCols(cols[..|cols| - 1], names);
      var c := cols[|cols| - 1];
      assert cols == cols[..|cols| - 1] + [c];
      if Lower(c) in names then
        assert (p + [c])[..|p|] == p;
        p + [c]
      else p
  }

  /** What `filter_stat_cols` returns or raises. */
  datatype Filtered = Cols(cols: seq<string>) | MissingStats(requested: nat, found: nat)

  /** `filter_stat_cols`: `names` is `None` when it is not a list. */
  function FilterStatCols(cols: seq<string>, names: Option<seq<string>>): (r: Filtered)
    ensures names.None? || names.value == [] ==> r == Cols(cols)
    ensures names.Some? && names.value != [] ==>
      var requested := |set n | n in names.value|;
      var f := FilterCols(cols, names.value);
      (r.Cols? <==> |f| == requested)
      && (r.Cols? ==> r.cols == f)
      && (r.MissingStats? ==> r.requested == requested && r.found == |f|)
  {
    if names.None? || names.value == [] then Cols(cols)
    else
      var f := FilterCols(cols, names.value);
      var requested := |set n | n in names.value|;
      if |f| != requested then MissingStats(requested, |f|) else Cols(f)
  }

  /** Whenever the filter applies, every column it keeps was requested by
      its lowercase name, and what it keeps appears in the input in the
      same order. */
  lemma FilterStatColsKeepsRequested(cols: seq<string>, names: seq<string>)
    requires names != [] && FilterStatCols(cols, Some(names)).Cols?
    ensures var r := FilterStatCols(cols, Some(names)).cols;
      Subsequence(r, cols) && forall c :: c in r ==> Lower(c) in names
  {
  }

  // ---------------------------------------------------------------------
  // get_benchmark_label, fill_right, blocks_unit
  // ---------------------------------------------------------------------

  /** Python's `s.replace("_", " ")`. */
  function Underscores(s: string): (r: string)
    ensures |r| == |s| && '_' !in r
    ensures forall i :: 0 <= i < |s| ==> r[i] == (if s[i] == '_' then ' ' else s[i])
  {
    seq(|s|, i requires 0 <= i < |s| => if s[i] == '_' then ' ' else s[i])
  }

  /** `get_benchmark_label`: the known benchmarks by their LaTeX small-caps
      names, any other name lowercased with spaces for underscores. */
  function BenchmarkLabel(benchmark: string): (r: string)
  {
    var b := Lower(benchmark);
    if b == "vectoradd" then "\\textsc{vectoradd}"
    else if b == "matrixmul" then "\\textsc{matrixmul}"
    else if b == "simple_matrixmul" then "\\textsc{matrixmul} (naive)"
    else if b == "transpose" then "\\textsc{transpose}"
    else if b == "babelstream" then "\\textsc{babelstream}"
    else Underscores(b)
  }

  /** The five known names. */
  predicate KnownBenchmark(b: string)
  {
    b in ["vectoradd", "matrixmul", "simple_matrixmul", "transpose", "babelstream"]
  }

  /** Labels ignore case. */
  lemma BenchmarkLabelIgnoresCase(benchmark: string)
    ensures BenchmarkLabel(Lower(benchmark)) == BenchmarkLabel(benchmark)
  {
    LowerIdempotent(benchmark);
  }

  /** An unknown name keeps its length and comes out without capitals or
      underscores. */
  lemma BenchmarkLabelUnknown(benchmark: string)
    requires !KnownBenchmark(Lower(benchmark))
    ensures var r := BenchmarkLabel(benchmark);
      |r| == |benchmark| && '_' !in r && forall i :: 0 <= i < |r| ==> !('A' <= r[i] <= 'Z')
  {
    var b := Lower(benchmark);
    assert BenchmarkLabel(benchmark) == Underscores(b);
  }

  /** A known name comes out in LaTeX small capitals. */
  lemma BenchmarkLabelKnown(benchmark: string)
    requires KnownBenchmark(Lower(benchmark))
    ensures |BenchmarkLabel(benchmark)| > 9 && BenchmarkLabel(benchmark)[..8] == "\\textsc{"
  {
  }

  /** Python's `s * n`: `n` copies, none for `n <= 0`. */
  function Repeat(s: string, n: int): (r: string)
    ensures |r| == if n <= 0 then 0 else n * |s|
    decreases if n <= 0 then 0 else n
  {
    if n <= 0 then "" else Repeat(s, n - 1) + s
  }

  /** `fill_right`: the value with copies of `fill` in front, up to length
      `l` for a one-character fill. */
  function FillRight(value: string, l: int, fill: string): (r: string)
    ensures |value| >= l ==> r == value
    ensures |r| >= |value| && r[|r| - |value|..] == value
    ensures |fill| == 1 && |value| < l ==> |r| == l
  {
    Repeat(fill, l - |value|) + value
  }

  /** `blocks_unit`. */
  function BlocksUnit(blocks: int, tight: bool): (r: string)
    ensures r in ["blocks", "block", "blks", "blk"]
    ensures (r == "block" || r == "blk") <==> blocks <= 1
    ensures (r == "blks" || r == "blk") <==> tight
  {
    if tight then (if blocks > 1 then "blks" else "blk")
    else if blocks > 1 then "blocks" else "block"
  }

  // ---------------------------------------------------------------------
  // Legend order
  // ---------------------------------------------------------------------

  /** The fixed order of the legend's labels. */
  const LegendOrder: seq<string> := ["TITAN X (Pascal)", "microgpusim", "microgpusim (TR)", "AccelSim"]

  /** How often `x` occurs in `s`. */
  function Count<T(==)>(s: seq<T>, x: T): nat
  {
    multiset(s)[x]
  }

  /** The labels sorted by their position in `order`, for the first `k`
      entries of the order: each entry as often as it occurs (a stable sort
      by that key lists equal labels together). */
  function SortedByOrder<T(==)>(order: seq<T>, labels: seq<T>, k: nat): seq<T>
    requires k <= |order|
  {
    if k == 0 then [] else SortedByOrder(order, labels, k - 1) + Repeat1(order[k - 1], Count(labels, order[k - 1]))
  }

  /** The entries of `order` are pairwise different. */
  predicate Distinct<T(==)>(order: seq<T>)
  {
    forall i, j :: 0 <= i < j < |order| ==> order[i] != order[j]
  }

  /** Each of the first `k` entries occurs as often as among the labels,
      nothing else occurs. */
  lemma {:induction false} SortedByOrderCount<T>(order: seq<T>, labels: seq<T>, k: nat, x: T)
    requires k <= |order| && Distinct(order)
    ensures multiset(SortedByOrder(order, labels, k))[x] == (if x in order[..k] then Count(labels, x) else 0)
  {
    if k > 0 {
      SortedByOrderCount(order, labels, k - 1, x);
      var o, c := order[k - 1], Count(labels, order[k - 1]);
      assert multiset(SortedByOrder(order, labels, k))
        == multiset(SortedByOrder(order, labels, k - 1)) + multiset(Repeat1(o, c));
      Repeat1Count(o, c, x);
      assert order[..k] == order[..k - 1] + [o];
      if x == o {
        var pre := order[..k - 1];
        assert forall i :: 0 <= i < |pre| ==> pre[i] != x;
      }
    }
  }

  /** `n` copies of a label. */
  function Repeat1<T>(x: T, n: nat): (r: seq<T>)
    ensures |r| == n
  {
    if n == 0 then [] else Repeat1(x, n - 1) + [x]
  }

  /** The copies are `n` occurrences of `x` and nothing else. */
  lemma {:induction false} Repeat1Count<T>(x: T, n: nat, y: T)
    ensures multiset(Repeat1(x, n))[y] == if y == x then n else 0
  {
    if n > 0 {
      Repeat1Count(x, n - 1, y);
      assert multiset(Repeat1(x, n)) == multiset(Repeat1(x, n - 1)) + multiset{x};
    }
  }

  /** The order's entries that occur among the labels: what the source
      asserts the sorted labels to be. */
  function PresentInOrder<T(==)>(order: seq<T>, labels: seq<T>, k: nat): seq<T>
    requires k <= |order|
  {
    if k == 0 then [] else PresentInOrder(order, labels, k - 1) + (if order[k - 1] in labels then [order[k - 1]] else [])
  }

  /** The legend sorting: `None` where `index` raises on a label that is
      not in the order or the sanity assertion fails. */
  function SortLegend(labels: seq<string>): Option<seq<string>>
  {
    if exists i :: 0 <= i < |labels| && labels[i] !in LegendOrder then None
    else
      var sorted := SortedByOrder(LegendOrder, labels, |LegendOrder|);
      if sorted != PresentInOrder(LegendOrder, labels, |LegendOrder|) then None else Some(sorted)
  }

  /** Sorting agrees with the order's present entries exactly when none
      of the first `k` entries occurs twice. */
  lemma SortedMatchesPresent<T>(order: seq<T>, labels: seq<T>, k: nat)
    requires k <= |order|
    ensures SortedByOrder(order, labels, k) == PresentInOrder(order, labels, k) <==>
      forall j :: 0 <= j < k ==> Count(labels, order[j]) <= 1
  {
    if forall j :: 0 <= j < k ==> Count(labels, order[j]) <= 1 {
      SortedMatchesWhenSingle(order, labels, k);
    }
    if SortedByOrder(order, labels, k) == PresentInOrder(order, labels, k) {
      SingleWhenSortedMatches(order, labels, k);
    }
  }

  /** Entries that occur at most once sort to the present entries. */
  lemma {:induction false} SortedMatchesWhenSingle<T>(order: seq<T>, labels: seq<T>, k: nat)
    requires k <= |order|
    requires forall j :: 0 <= j < k ==> Count(labels, order[j]) <= 1
    ensures SortedByOrder(order, labels, k) == PresentInOrder(order, labels, k)
  {
    if k > 0 {
      SortedMatchesWhenSingle(order, labels, k - 1);
      PresentStep(order, labels, k);
      var o := order[k - 1];
      assert Repeat1(o, Count(labels, o)) == if Count(labels, o) > 0 then [o] else [];
    }
  }

  /** Sorting that gives the present entries leaves no entry twice. */
  lemma {:induction false} SingleWhenSortedMatches<T>(order: seq<T>, labels: seq<T>, k: nat)
    requires k <= |order|
    requires SortedByOrder(order, labels, k) == PresentInOrder(order, labels, k)
    ensures forall j :: 0 <= j < k ==> Count(labels, order[j]) <= 1
  {
    if k > 0 {
      SortedAtLeastPresent(order, labels, k - 1);
      PresentStep(order, labels, k);
      var o := order[k - 1];
      var tailP := if Count(labels, o) > 0 then [o] else [];
      SplitEqual(SortedByOrder(order, labels, k - 1), Repeat1(o, Count(labels, o)), PresentInOrder(order, labels, k - 1), tailP);
      SingleWhenSortedMatches(order, labels, k - 1);
    }
  }

  /** One more entry of the order is present exactly when it occurs. */
  lemma PresentStep<T>(order: seq<T>, labels: seq<T>, k: nat)
    requires 0 < k <= |order|
    ensures PresentInOrder(order, labels, k) ==
      PresentInOrder(order, labels, k - 1) + (if Count(labels, order[k - 1]) > 0 then [order[k - 1]] else [])
  {
  }

  /** Two concatenations are equal part by part when the first parts are
      the longer and the shorter respectively. */
  lemma SplitEqual<T>(p: seq<T>, t: seq<T>, q: seq<T>, u: seq<T>)
    requires |p| >= |q| && |t| >= |u| && p + t == q + u
    ensures p == q && t == u
  {
    assert p == (p + t)[..|p|] && q == (q + u)[..|q|];
  }

  /** The sorted labels are never fewer than the present entries. */
  lemma {:induction false} SortedAtLeastPresent<T>(order: seq<T>, labels: seq<T>, k: nat)
    requires k <= |order|
    ensures |SortedByOrder(order, labels, k)| >= |PresentInOrder(order, labels, k)|
  {
    if k > 0 {
      SortedAtLeastPresent(order, labels, k - 1);
      PresentStep(order, labels, k);
    }
  }

  /** The legend is accepted exactly when every label is one of the four
      known ones and none occurs twice. */
  lemma SortLegendAccepts(labels: seq<string>)
    ensures SortLegend(labels).Some? <==>
      (forall i :: 0 <= i < |labels| ==> labels[i] in LegendOrder)
      && forall j :: 0 <= j < |LegendOrder| ==> Count(labels, LegendOrder[j]) <= 1
  {
    SortedMatchesPresent(LegendOrder, labels, |LegendOrder|);
  }

  /** An accepted legend lists the same labels as before, in the fixed
      order. */
  lemma SortLegendPermutes(labels: seq<string>)
    ensures SortLegend(labels).Some? ==> multiset(SortLegend(labels).value) == multiset(labels)
  {
    if SortLegend(labels).Some? {
      var r := SortedByOrder(LegendOrder, labels, |LegendOrder|);
      assert Distinct(LegendOrder);
      assert LegendOrder[..|LegendOrder|] == LegendOrder;
      forall x ensures multiset(r)[x] == multiset(labels)[x] {
        SortedByOrderCount(LegendOrder, labels, |LegendOrder|, x);
      }
      assert multiset(r) == multiset(labels);
    }
  }

  // ---------------------------------------------------------------------
  // Output file names
  // ---------------------------------------------------------------------

  /** The five renderings of a validation plot. */
  datatype PlotVariant = NoXticksNoLegend | WithXticksNoLegend | Default | Large | NoXticksWithLegend

  /** What each rendering puts between the base name and `.pdf`. */
  function VariantTag(v: PlotVariant): string
  {
    match v
    case NoXticksNoLegend => "_no_xticks_no_legend"
    case WithXticksNoLegend => "_with_xticks_no_legend"
    case Default => ""
    case Large => "_large"
    case NoXticksWithLegend => "_no_xticks_with_legend"
  }

  /** The suffix each rendering appends to the base name. */
  function VariantSuffix(v: PlotVariant): string
  {
    VariantTag(v) + ".pdf"
  }

  /** `base_filename`: profiler, benchmark, the optional `norm.` and
      `with_tr.` markers and the statistic, dot separated. */
  function BaseFilename(profiler: string, benchmark: string, normalized: bool, withTr: bool, statCol: string): string
  {
    profiler + "." + benchmark + "." + (if normalized then "norm." else "") + (if withTr then "with_tr." else "") + statCol
  }

  /** The PDF name of one rendering of a plot. */
  function PlotFilename(profiler: string, benchmark: string, normalized: bool, withTr: bool, statCol: string, v: PlotVariant): string
  {
    BaseFilename(profiler, benchmark, normalized, withTr, statCol) + VariantSuffix(v)
  }

  /** The five renderings of one plot go to five different PDF files. */
  lemma PlotFilenamesDistinct(profiler: string, benchmark: string, normalized: bool, withTr: bool,
                               statCol: string, v: PlotVariant, w: PlotVariant)
    requires v != w
    ensures PlotFilename(profiler, benchmark, normalized, withTr, statCol, v)
         != PlotFilename(profiler, benchmark, normalized, withTr, statCol, w)
  {
    var b := BaseFilename(profiler, benchmark, normalized, withTr, statCol);
    var sv, sw := VariantSuffix(v), VariantSuffix(w);
    assert VariantTag(v) != VariantTag(w);
    assert sv != sw by {
      assert sv[..|sv| - 4] == VariantTag(v) && sw[..|sw| - 4] == VariantTag(w);
    }
    assert PlotFilename(profiler, benchmark, normalized, withTr, statCol, v)[|b|..] == VariantSuffix(v);
    assert PlotFilename(profiler, benchmark, normalized, withTr, statCol, w)[|b|..] == VariantSuffix(w);
  }

  /** The position of the last `.` in `s`, if any. */
  function LastDot(s: string): (r: Option<nat>)
    ensures r.Some? ==> r.value < |s| && s[r.value] == '.' && '.' !in s[r.value + 1..]
    ensures r.None? ==> '.' !in s
    decreases |s|
  {
    if s == [] then None
    else if s[|s| - 1] == '.' then Some(|s| - 1)
    else
      var p := LastDot(s[..|s| - 1]);
      assert s == s[..|s| - 1] + [s[|s| - 1]];
      if p.Some? then
        assert s[p.value + 1..] == s[..|s| - 1][p.value + 1..] + [s[|s| - 1]];
        p
      else None
  }

  /** `PurePath.with_suffix` on a file name: a suffix is the part from the
      last dot when that dot is neither the first nor the last character;
      it is replaced, or the new suffix appended when there is none. */
  function WithSuffix(name: string, suffix: string): string
  {
    var d := LastDot(name);
    if d.Some? && 0 < d.value < |name| - 1 then name[..d.value] + suffix else name + suffix
  }

  /** The PNG copy of a plot has the PDF's name with `.png` for `.pdf`. */
  lemma PngFilename(profiler: string, benchmark: string, normalized: bool, withTr: bool, statCol: string, v: PlotVariant)
    ensures var pdf := PlotFilename(profiler, benchmark, normalized, withTr, statCol, v);
      WithSuffix(pdf, ".png") == pdf[..|pdf| - 4] + ".png"
  {
    var pdf := PlotFilename(profiler, benchmark, normalized, withTr, statCol, v);
    var stem := BaseFilename(profiler, benchmark, normalized, withTr, statCol) + VariantTag(v);
    assert pdf == stem + "." + "pdf";
    assert pdf[..|pdf| - 4] == stem;
    WithSuffixReplaces(stem, "pdf", ".png");
  }

  /** A name with a non-empty stem and an extension after its last dot has
      that extension replaced. */
  lemma WithSuffixReplaces(stem: string, ext: string, suffix: string)
    requires stem != [] && ext != [] && '.' !in ext
    ensures WithSuffix(stem + "." + ext, suffix) == stem + suffix
  {
    LastDotBefore(stem, ext);
    assert (stem + "." + ext)[..|stem|] == stem;
  }

  /** The last dot is the one before a dot-free tail. */
  lemma {:induction false} LastDotBefore(stem: string, ext: string)
    requires '.' !in ext
    ensures LastDot(stem + "." + ext) == Some(|stem|)
    decreases |ext|
  {
    var s := stem + "." + ext;
    if ext == [] {
      assert s[|s| - 1] == '.';
    } else {
      var ext' := ext[..|ext| - 1];
      assert '.' !in ext' by {
        forall i | 0 <= i < |ext'| ensures ext'[i] != '.' { assert ext[i] != '.'; }
      }
      LastDotBefore(stem, ext');
      assert s[..|s| - 1] == stem + "." + ext';
      assert s[|s| - 1] == ext[|ext| - 1] != '.';
    }
  }

  /** The LaTeX table of a benchmark: `view_` and the benchmark name, with
      `.tex` replacing any suffix the name already has. */
  function TableFilename(benchName: string): string
  {
    WithSuffix("view_" + benchName, ".tex")
  }

  /** A benchmark name without a dot gives `view_<name>.tex`. */
  lemma TableFilenamePlain(benchName: string)
    requires '.' !in benchName
    ensures TableFilename(benchName) == "view_" + benchName + ".tex"
  {
    var n := "view_" + benchName;
    assert forall j :: 5 <= j < |n| ==> n[j] == benchName[j - 5];
  }
}
