/** The whole way of a diff: lines of two texts, a common subsequence, byte edits, whole-line edits,
    hunks. Patching the old text with the hunks gives the new one. */
module Unified {
  import opened Words
  import opened LineText
  import opened Splices
  import opened Collections
  import Udiff
  import Distance
  import Fewest
  import Lcs
  import Search
  import Hunks

  type Edit = Udiff.Edit

  // ----- line edits and byte edits

  /** The same edit, counted in lines and in bytes. */
  predicate Same(lines: seq<Line>, l: Splice<Line>, e: Edit) {
    && l.start <= |lines| && l.end <= |lines|
    && e.start == |Concat(lines[..l.start])|
    && e.end == |Concat(lines[..l.end])|
    && e.ins == Concat(l.ins)
  }

  predicate SameAll(lines: seq<Line>, ls: seq<Splice<Line>>, es: seq<Edit>) {
    |ls| == |es| && forall i :: 0 <= i < |ls| ==> Same(lines, ls[i], es[i])
  }

  lemma {:induction false} ConcatSplit(a: seq<Line>, b: seq<Line>)
    ensures Concat(a + b) == Concat(a) + Concat(b)
  {
    if a == [] {
      assert a + b == b;
    } else {
      ConcatSplit(a[1..], b);
      assert (a + b)[1..] == a[1..] + b;
      Associative(a[0], Concat(a[1..]), Concat(b));
    }
  }

  /** The bytes of lines i to j lie between the offsets of i and j. */
  lemma ConcatSlice(lines: seq<Line>, i: nat, j: nat)
    requires i <= j <= |lines|
    ensures var p, q := |Concat(lines[..i])|, |Concat(lines[..j])|;
            && p <= q <= |Concat(lines)| && Concat(lines)[p..q] == Concat(lines[i..j])
            && (i < j && IsLine(lines[i]) ==> p < q)
  {
    assert lines[..j] == lines[..i] + lines[i..j];
    ConcatSplit(lines[..i], lines[i..j]);
    assert lines == lines[..j] + lines[j..];
    ConcatSplit(lines[..j], lines[j..]);
  }

  /** Applying the edits to the lines or to the bytes is the same. */
  lemma {:induction false} SameOut(lines: seq<Line>, ls: seq<Splice<Line>>, es: seq<Edit>)
    requires SameAll(lines, ls, es) && Valid(ls, |lines|)
    ensures Valid(es, |Concat(lines)|) && End(ls) <= |lines| && End(es) == |Concat(lines[..End(ls)])|
    ensures Out(Concat(lines), es) == Concat(Out(lines, ls))
    decreases |ls|
  {
    if ls != [] {
      var fl, fe := Front(ls), Front(es);
      SameOut(lines, fl, fe);
      var l, e := Last(ls), Last(es);
      assert Same(lines, l, e);
      ConcatSlice(lines, End(fl), l.start);
      ConcatSlice(lines, l.start, l.end);
      ConcatSlice(lines, l.end, |lines|);
      ConcatSplit(Out(lines, fl) + lines[End(fl)..l.start], l.ins);
      ConcatSplit(Out(lines, fl), lines[End(fl)..l.start]);
    } else {
      assert lines[..0] == [];
    }
  }

  lemma SameApply(lines: seq<Line>, ls: seq<Splice<Line>>, es: seq<Edit>)
    requires SameAll(lines, ls, es) && Valid(ls, |lines|)
    ensures Valid(es, |Concat(lines)|) && Apply(Concat(lines), es) == Concat(Apply(lines, ls))
  {
    SameOut(lines, ls, es);
    ConcatSlice(lines, End(ls), |lines|);
    assert lines[..|lines|] == lines && lines[End(ls)..|lines|] == lines[End(ls)..];
    ConcatSplit(Out(lines, ls), lines[End(ls)..]);
    assert Concat(lines)[End(es)..|Concat(lines)|] == Concat(lines)[End(es)..];
  }

  // ----- Lines

  /** A line diff as the search makes it. */
  ghost predicate LineDiff(diffs: seq<Splice<Line>>, before: seq<Line>, after: seq<Line>) {
    && Valid(diffs, |before|) && Apply(before, diffs) == after && Separated(diffs)
    && Distance.AsFewWithin(diffs, before, after, Search.MAX_DIFFS)
  }

  /** Lines: the edits between two texts, with the common subsequence of their lines that they
      spare. */
  method Lines(before: seq<Byte>, after: seq<Byte>)
    returns (edits: seq<Edit>, ghost diffs: seq<Splice<Line>>, ghost lcs: seq<Lcs.Diag>)
    ensures Valid(edits, |before|) && Apply(before, edits) == after
    ensures SameAll(CutLines(before), diffs, edits) && (edits == [] <==> before == after)
    ensures Lcs.Common(lcs, CutLines(before), CutLines(after)) && Lcs.Spares(diffs, lcs)
    ensures Distance.BestWithin(diffs, lcs, CutLines(before), CutLines(after), Search.MAX_DIFFS)
    ensures LineDiff(diffs, CutLines(before), CutLines(after))
  {
    var lines, offsets := SplitLines(before);
    var afterLines, _ := SplitLines(after);
    var found, common := Search.Diff(lines, afterLines);
    diffs, lcs := found, common;
    edits := ToEdits(lines, offsets, found);
    SameApply(lines, found, edits);
    ApplyNone(before);
  }

  method ToEdits(lines: seq<Line>, offsets: seq<int>, diffs: seq<Splice<Line>>) returns (edits: seq<Edit>)
    requires AreOffsets(offsets, lines) && Valid(diffs, |lines|)
    ensures SameAll(lines, diffs, edits)
  {
    edits := [];
    for i := 0 to |diffs|
      invariant |edits| == i && forall j :: 0 <= j < i ==> Same(lines, diffs[j], edits[j])
    {
      ValidPrefix(diffs, |lines|, i);
      var e := ToEdit(lines, offsets, diffs[i]);
      edits := edits + [e];
    }
  }

  method ToEdit(lines: seq<Line>, offsets: seq<int>, d: Splice<Line>) returns (e: Edit)
    requires AreOffsets(offsets, lines) && d.start <= d.end <= |lines|
    ensures Same(lines, d, e)
  {
    e := Splice(offsets[d.start], offsets[d.end], Concat(d.ins));
  }

  // ----- from byte offsets to line numbers

  /** Complete lines. */
  predicate Closed(lines: seq<Line>) {
    forall i :: 0 <= i < |lines| ==> IsLine(lines[i]) && Ended(lines[i])
  }

  lemma {:induction false} NewlinesSplit(a: seq<Byte>, b: seq<Byte>)
    ensures Newlines(a + b) == Newlines(a) + Newlines(b)
  {
    if b == [] {
      assert a + b == a;
    } else {
      NewlinesSplit(a, b[..|b| - 1]);
      assert (a + b)[..|a + b| - 1] == a + b[..|b| - 1];
    }
  }

  lemma LineNewlines(l: Line)
    requires IsLine(l)
    ensures Newlines(l) == if Ended(l) then 1 else 0
  {
    NoNewline(l[..|l| - 1]);
  }

  lemma {:induction false} NewlinesCount(lines: seq<Line>)
    requires Closed(lines)
    ensures Newlines(Concat(lines)) == |lines|
  {
    if lines != [] {
      NewlinesCount(lines[1..]);
      LineNewlines(lines[0]);
      NewlinesSplit(lines[0], Concat(lines[1..]));
    }
  }

  lemma LastByte(lines: seq<Line>)
    requires AreLines(lines) && lines != []
    ensures Concat(lines) != []
    ensures Last(Concat(lines)) == Last(Last(lines))
  {
    assert lines == Front(lines) + [Last(lines)];
    ConcatAppend(Front(lines), Last(lines));
  }

  /** The lines of a text that ends in a newline are all complete. */
  lemma CutClosed(text: seq<Byte>)
    requires Udiff.EndsLine(text)
    ensures Closed(CutLines(text))
  {
    var lines := CutLines(text);
    if lines != [] {
      LastByte(lines);
    }
  }

  /** A text is cut at a line break like its two parts. */
  lemma CutAt(src: seq<Byte>, p: nat)
    requires p <= |src| && Udiff.LineBreak(src, p)
    ensures var k := Newlines(src[..p]);
            k <= |CutLines(src)| && Closed(CutLines(src)[..k]) && Concat(CutLines(src)[..k]) == src[..p]
  {
    CutCount(src[..p]);
    assert src == src[..p] + src[p..];
    Glue(CutLines(src[..p]), CutLines(src[p..]), src);
  }

  lemma CutCount(text: seq<Byte>)
    requires Udiff.EndsLine(text)
    ensures Closed(CutLines(text)) && |CutLines(text)| == Newlines(text)
  {
    CutClosed(text);
    NewlinesCount(CutLines(text));
  }

  lemma Glue(a: seq<Line>, b: seq<Line>, src: seq<Byte>)
    requires Closed(a) && AreLines(b) && src == Concat(a) + Concat(b)
    ensures |a| <= |CutLines(src)| && CutLines(src)[..|a|] == a
  {
    ConcatSplit(a, b);
    LinesAreUnique(a + b, CutLines(src));
  }

  predicate Incomplete(src: seq<Byte>) {
    src != [] && Last(src) != NL
  }

  /** The line number of an edit's end: the end of the text counts as a newline. */
  function EndLine(src: seq<Byte>, end: nat): nat
    requires end <= |src|
  {
    if end == |src| && Incomplete(src) then Newlines(src[..end]) + 1 else Newlines(src[..end])
  }

  /** All lines of a text whose last line is not complete. */
  lemma OpenEnd(lines: seq<Line>)
    requires AreLines(lines) && lines != [] && !Ended(Last(lines))
    ensures Newlines(Concat(lines)) + 1 == |lines|
  {
    var front, last := Front(lines), Last(lines);
    assert lines == front + [last];
    ConcatAppend(front, last);
    OpenLine(front, last);
  }

  lemma OpenLine(front: seq<Line>, last: Line)
    requires Closed(front) && IsLine(last) && !Ended(last)
    ensures Newlines(Concat(front) + last) == |front|
  {
    NewlinesSplit(Concat(front), last);
    NewlinesCount(front);
    LineNewlines(last);
  }

  lemma EndOpen(src: seq<Byte>, lines: seq<Line>, end: nat, k: nat)
    requires AreLines(lines) && Concat(lines) == src && Incomplete(src)
    requires end == |src| && k == Newlines(src[..end]) + 1
    ensures k == |lines| && Concat(lines[..k]) == src[..end]
  {
    assert src[..end] == src && lines[..|lines|] == lines;
    LastByte(lines);
    OpenEnd(lines);
  }

  lemma EndAt(src: seq<Byte>, end: nat)
    requires end <= |src| && (end == |src| || Udiff.LineBreak(src, end))
    ensures var k := EndLine(src, end);
            k <= |CutLines(src)| && Concat(CutLines(src)[..k]) == src[..end]
  {
    if end == |src| && Incomplete(src) {
      EndOpen(src, CutLines(src), end, EndLine(src, end));
    } else {
      CutAt(src, end);
    }
  }

  /** A whole-line edit, counted in lines. */
  function ToLines(src: seq<Byte>, e: Edit): Splice<Line>
    requires Udiff.WholeLines(src, e)
  {
    Splice(Newlines(src[..e.start]), EndLine(src, e.end), CutLines(e.ins))
  }

  lemma ToLinesSame(src: seq<Byte>, e: Edit)
    requires Udiff.WholeLines(src, e)
    ensures var l := ToLines(src, e);
            Same(CutLines(src), l, e) && Closed(CutLines(src)[..l.start])
  {
    CutAt(src, e.start);
    EndAt(src, e.end);
  }

  /** More lines are more bytes. */
  lemma LinesAscend(lines: seq<Line>, i: nat, j: nat)
    requires AreLines(lines) && i <= |lines| && j <= |lines|
    requires |Concat(lines[..i])| <= |Concat(lines[..j])|
    ensures i <= j
  {
    if j < i {
      ConcatSlice(lines, j, i);
    }
  }

  lemma {:induction false} SameValid(lines: seq<Line>, ls: seq<Splice<Line>>, es: seq<Edit>)
    requires AreLines(lines) && SameAll(lines, ls, es) && Valid(es, |Concat(lines)|)
    ensures Valid(ls, |lines|)
    decreases |ls|
  {
    if ls != [] {
      var fl, fe := Front(ls), Front(es);
      SameValid(lines, fl, fe);
      SameOut(lines, fl, fe);
      assert Same(lines, Last(ls), Last(es));
      LinesAscend(lines, End(fl), Last(ls).start);
      LinesAscend(lines, Last(ls).start, Last(ls).end);
    }
  }

  // ----- the edits between two texts are whole lines

  /** What the first k edits write is the start of the result, and not all of it while lines are left. */
  lemma {:induction false} OutPrefix(src: seq<Line>, edits: seq<Splice<Line>>, k: nat)
    requires Valid(edits, |src|) && Separated(edits) && k <= |edits|
    ensures Valid(edits[..k], |src|) && Out(src, edits[..k]) <= Apply(src, edits)
    ensures 0 < k && End(edits[..k]) < |src| ==> |Out(src, edits[..k])| < |Apply(src, edits)|
    decreases |edits| - k
  {
    ValidPrefix(edits, |src|, k);
    if k == |edits| {
      assert edits[..k] == edits;
    } else {
      OutPrefix(src, edits, k + 1);
      Hunks.NextEdit(src, edits, k);
      if 0 < k {
        assert edits[..k][k - 1] == Last(edits[..k]) && edits[k - 1].end < edits[k].start;
      }
    }
  }

  /** Part of the lines of a text, and complete lines unless it is its end. */
  lemma PartOfLines(all: seq<Line>, head: seq<Line>, keep: seq<Line>, ins: seq<Line>)
    requires AreLines(all) && head + keep + ins <= all
    ensures AreLines(ins) && (|head + keep + ins| < |all| ==> Closed(ins))
    ensures keep != [] && ins != [] ==> Ended(Last(keep))
  {
    var n, m := |head|, |keep|;
    forall i | 0 <= i < |ins| ensures ins[i] == all[n + m + i] {
      assert (head + keep + ins)[n + m + i] == ins[i];
    }
    if keep != [] && ins != [] {
      assert (head + keep + ins)[n + m - 1] == Last(keep);
    }
  }

  /** Edit k starts behind complete lines, and writes complete lines unless it ends the text. */
  lemma EditOfLines(src: seq<Line>, edits: seq<Splice<Line>>, k: nat)
    requires Valid(edits, |src|) && Separated(edits) && k < |edits| && AreLines(src) && AreLines(Apply(src, edits))
    ensures edits[k].start <= edits[k].end <= |src| && Closed(src[..edits[k].start])
    ensures AreLines(edits[k].ins) && (edits[k].end < |src| ==> Closed(edits[k].ins))
  {
    var from, d := End(edits[..k]), edits[k];
    Hunks.NextEdit(src, edits, k);
    OutPrefix(src, edits, k + 1);
    PartOfLines(Apply(src, edits), Out(src, edits[..k]), src[from..d.start], d.ins);
    if d.start == |src| && src != [] {
      SomethingKept(edits, k);
      LastOfRest(src, from);
    }
    FrontClosed(src, d.start);
  }

  lemma SomethingKept(edits: seq<Splice<Line>>, k: nat)
    requires k < |edits| && Separated(edits)
    ensures edits[k].start > 0 ==> End(edits[..k]) < edits[k].start
  {
    if k > 0 {
      assert Last(edits[..k]) == edits[k - 1];
    }
  }

  lemma LastOfRest(src: seq<Line>, i: nat)
    requires i < |src|
    ensures Last(src[i..|src|]) == Last(src)
  {
  }

  lemma FrontClosed(src: seq<Line>, n: nat)
    requires AreLines(src) && n <= |src| && (n == |src| && src != [] ==> Ended(Last(src)))
    ensures Closed(src[..n])
  {
    forall i | 0 <= i < n ensures IsLine(src[..n][i]) && Ended(src[..n][i]) {
      assert src[..n][i] == src[i];
    }
  }

  /** Complete lines end at a line break. */
  lemma ClosedBreaks(text: seq<Byte>, lines: seq<Line>, n: nat)
    requires Concat(lines) == text && n <= |lines| && Closed(lines[..n])
    ensures |Concat(lines[..n])| <= |text| && Udiff.LineBreak(text, |Concat(lines[..n])|)
    ensures Udiff.EndsLine(Concat(lines[..n]))
  {
    ConcatSlice(lines, 0, n);
    assert lines[..0] == [] && lines[0..n] == lines[..n];
    if n > 0 {
      LastByte(lines[..n]);
    }
  }

  /** There is a newline between the ends of two numbers of complete lines. */
  lemma NewlineAmong(text: seq<Byte>, lines: seq<Line>, i: nat, j: nat)
    requires Concat(lines) == text && i < j <= |lines| && Closed(lines[..j])
    ensures var p, q := |Concat(lines[..i])|, |Concat(lines[..j])|;
            p <= q <= |text| && NL in text[p..q]
  {
    ConcatSlice(lines, i, j);
    SliceClosed(lines, i, j);
    LastByte(lines[i..j]);
    var part := Concat(lines[i..j]);
    assert part[|part| - 1] == NL;
  }

  lemma LineEditBreaks(text: seq<Byte>, lines: seq<Line>, d: Splice<Line>, e: Edit)
    requires lines == CutLines(text) && Same(lines, d, e) && d.start <= d.end
    requires Closed(lines[..d.start]) && AreLines(d.ins) && (d.end < |lines| ==> Closed(d.ins))
    ensures Udiff.WholeLines(text, e)
  {
    ConcatSlice(lines, d.start, d.end);
    ClosedBreaks(text, lines, d.start);
    if d.end < |lines| {
      ClosedBreaks(text, lines, d.end);
      assert d.ins[..|d.ins|] == d.ins;
      ClosedBreaks(e.ins, d.ins, |d.ins|);
    } else {
      assert lines[..|lines|] == lines;
    }
  }

  lemma LineEditWhole(text: seq<Byte>, lines: seq<Line>, d: Splice<Line>, e: Edit)
    requires lines == CutLines(text) && Same(lines, d, e) && d.start <= d.end
    requires Closed(lines[..d.start]) && AreLines(d.ins) && (d.end < |lines| ==> Closed(d.ins))
    ensures Udiff.WholeLines(text, e) && ToLines(text, e) == d
  {
    LineEditBreaks(text, lines, d, e);
    ToLinesSame(text, e);
    var l := ToLines(text, e);
    LinesAscend(lines, l.start, d.start);
    LinesAscend(lines, d.start, l.start);
    LinesAscend(lines, l.end, d.end);
    LinesAscend(lines, d.end, l.end);
    LinesAreUnique(CutLines(e.ins), d.ins);
  }

  /** The byte edits of a separated line diff have nothing to expand, and their line numbers are those
      of the diff. */
  lemma DiffSettled(text: seq<Byte>, diffs: seq<Splice<Line>>, edits: seq<Edit>)
    requires Valid(diffs, |CutLines(text)|) && Separated(diffs) && AreLines(Apply(CutLines(text), diffs))
    requires SameAll(CutLines(text), diffs, edits)
    ensures Udiff.Settled(text, edits)
    ensures forall i :: 0 <= i < |edits| ==> ToLines(text, edits[i]) == diffs[i]
  {
    var lines := CutLines(text);
    forall i | 0 <= i < |edits| ensures Udiff.WholeLines(text, edits[i]) && ToLines(text, edits[i]) == diffs[i] {
      EditOfLines(lines, diffs, i);
      LineEditWhole(text, lines, diffs[i], edits[i]);
    }
    forall i | 0 < i < |edits| ensures Udiff.BreakBetween(text, edits[i - 1], edits[i]) {
      EditOfLines(lines, diffs, i);
      assert Same(lines, diffs[i - 1], edits[i - 1]) && Same(lines, diffs[i], edits[i]);
      NewlineAmong(text, lines, diffs[i - 1].end, diffs[i].start);
    }
  }

  // ----- the result is cut like the new text

  /** Each edit starts behind complete lines and, but for the last, inserts complete lines; what the
      last leaves incomplete is the end of the text. */
  ghost predicate Tidy(lines: seq<Line>, ls: seq<Splice<Line>>) {
    && (forall i :: 0 <= i < |ls| ==> ls[i].start <= |lines| && Closed(lines[..ls[i].start]) && AreLines(ls[i].ins))
    && (forall i :: 0 <= i < |ls| - 1 ==> Closed(ls[i].ins))
    && (ls != [] ==> Closed(Last(ls).ins) || End(ls) == |lines|)
  }

  lemma {:induction false} OutClosed(lines: seq<Line>, ls: seq<Splice<Line>>)
    requires Valid(ls, |lines|)
    requires forall i :: 0 <= i < |ls| ==> ls[i].start <= |lines| && Closed(lines[..ls[i].start]) && Closed(ls[i].ins)
    ensures Closed(Out(lines, ls))
    decreases |ls|
  {
    if ls != [] {
      OutClosed(lines, Front(ls));
      SliceClosed(lines, End(Front(ls)), Last(ls).start);
    }
  }

  lemma SliceClosed(lines: seq<Line>, i: nat, j: nat)
    requires i <= j <= |lines| && Closed(lines[..j])
    ensures Closed(lines[i..j])
  {
    forall k | 0 <= k < j - i ensures IsLine(lines[i..j][k]) && Ended(lines[i..j][k]) {
      assert lines[..j][i + k] == lines[i..j][k];
    }
  }

  lemma TidyResult(lines: seq<Line>, ls: seq<Splice<Line>>)
    requires AreLines(lines) && Valid(ls, |lines|) && Tidy(lines, ls)
    ensures AreLines(Apply(lines, ls))
  {
    if ls == [] {
      assert Apply(lines, ls) == lines;
    } else {
      var l := Last(ls);
      OutClosed(lines, Front(ls));
      SliceClosed(lines, End(Front(ls)), l.start);
      var head := Out(lines, Front(ls)) + lines[End(Front(ls))..l.start];
      assert Closed(head);
      assert Apply(lines, ls) == head + l.ins + lines[l.end..];
    }
  }

  // ----- to_unified

  datatype Outcome = Diff(hunks: seq<Hunks.Hunk>) | Bad

  predicate Translated(src: seq<Byte>, edits: seq<Edit>, ls: seq<Splice<Line>>) {
    && |ls| <= |edits|
    && forall j :: 0 <= j < |ls| ==> Udiff.WholeLines(src, edits[j]) && ls[j] == ToLines(src, edits[j])
  }

  /** The line edits of whole-line byte edits: valid, tidy, and the same change. */
  method Translate(src: seq<Byte>, edits: seq<Edit>) returns (ls: seq<Splice<Line>>)
    requires Valid(edits, |src|)
    requires forall i :: 0 <= i < |edits| ==> Udiff.WholeLines(src, edits[i])
    requires forall i :: 0 <= i < |edits| - 1 ==> Udiff.EndsLine(edits[i].ins)
    ensures Valid(ls, |CutLines(src)|)
    ensures Apply(CutLines(src), ls) == CutLines(Apply(src, edits))
    ensures |ls| == |edits| && Translated(src, edits, ls)
  {
    ls := TranslateEach(src, edits);
    TranslateSame(src, edits, ls);
  }

  method TranslateEach(src: seq<Byte>, edits: seq<Edit>) returns (ls: seq<Splice<Line>>)
    requires forall i :: 0 <= i < |edits| ==> Udiff.WholeLines(src, edits[i])
    ensures |ls| == |edits| && Translated(src, edits, ls)
  {
    ls := [];
    for i := 0 to |edits|
      invariant |ls| == i && Translated(src, edits, ls)
    {
      ls := ls + [ToLines(src, edits[i])];
    }
  }

  lemma TranslateSame(src: seq<Byte>, edits: seq<Edit>, ls: seq<Splice<Line>>)
    requires Valid(edits, |src|)
    requires forall i :: 0 <= i < |edits| - 1 ==> Udiff.EndsLine(edits[i].ins)
    requires |ls| == |edits| && Translated(src, edits, ls)
    ensures Valid(ls, |CutLines(src)|)
    ensures Apply(CutLines(src), ls) == CutLines(Apply(src, edits))
  {
    var lines := CutLines(src);
    forall i | 0 <= i < |ls| ensures Same(lines, ls[i], edits[i]) && Closed(lines[..ls[i].start]) {
      ToLinesSame(src, edits[i]);
    }
    SameValid(lines, ls, edits);
    SameApply(lines, ls, edits);
    TranslateTidy(src, edits, ls);
    TidyResult(lines, ls);
    LinesAreUnique(Apply(lines, ls), CutLines(Apply(src, edits)));
  }

  lemma TranslateTidy(src: seq<Byte>, edits: seq<Edit>, ls: seq<Splice<Line>>)
    requires forall i :: 0 <= i < |edits| - 1 ==> Udiff.EndsLine(edits[i].ins)
    requires |ls| == |edits| && Translated(src, edits, ls)
    ensures Tidy(CutLines(src), ls)
  {
    var lines := CutLines(src);
    forall i | 0 <= i < |ls| ensures ls[i].start <= |lines| && Closed(lines[..ls[i].start]) {
      ToLinesSame(src, edits[i]);
    }
    forall i | 0 <= i < |ls| && Udiff.EndsLine(edits[i].ins) ensures Closed(ls[i].ins) {
      CutClosed(edits[i].ins);
    }
    if ls != [] && Last(edits).end == |src| {
      AllLines(src);
    }
  }

  lemma AllLines(src: seq<Byte>)
    ensures EndLine(src, |src|) == |CutLines(src)|
  {
    EndAt(src, |src|);
    var lines := CutLines(src);
    assert src[..|src|] == src && lines[..|lines|] == lines;
    LinesAscend(lines, |lines|, EndLine(src, |src|));
  }

  lemma NoEdits(content: seq<Byte>, context: nat)
    ensures Valid<Byte>([], |content|) && Udiff.SortEdits([]) == [] && Apply(content, []) == content
    ensures Describes([], CutLines(content), [], context, CutLines(content))
  {
    ApplyNone(content);
    NothingDescribed(CutLines(content), context);
  }

  lemma NothingDescribed(lines: seq<Line>, context: nat)
    ensures Describes([], lines, [], context, lines)
  {
    ApplyNone(lines);
    Hunks.NoHunks(lines, context);
  }

  /** What the hunks of a diff promise: the line edits ls make the same change, the hunks patch the
      lines with them, and start, end and are numbered as they say. */
  ghost predicate Describes(hunks: seq<Hunks.Hunk>, lines: seq<Line>, ls: seq<Splice<Line>>, context: nat,
                            after: seq<Line>) {
    && Valid(ls, |lines|) && Apply(lines, ls) == after && Hunks.Patch(lines, hunks) == Some(after)
    && Hunks.ChangedLines(hunks) == Cost(ls)
    && Hunks.Numbered(lines, ls, context, |ls|, hunks)
    && (hunks != [] ==> Hunks.EndsAt(lines, hunks, Hunks.Behind(lines, ls, context)))
    && (Hunks.NumbersRight(lines, hunks) <==> !Hunks.JoinsBeforeBreak(ls, context))
  }

  /** ToUnified up to the rendering: a diff exactly for edits that can be applied, and its hunks
      patch the lines of the content into the lines of what the edits make of it. */
  method ToUnified(content: seq<Byte>, edits: seq<Edit>, context: nat) returns (r: Outcome, ghost ls: seq<Splice<Line>>)
    ensures r.Diff? <==> Valid(Udiff.SortEdits(edits), |content|)
    ensures edits == [] ==> r == Diff([])
    ensures r.Diff? ==>
              var sorted := Udiff.SortEdits(edits);
              && Describes(r.hunks, CutLines(content), ls, context, CutLines(Apply(content, sorted)))
              && (Udiff.AllAligned(content, sorted) || Udiff.Settled(content, sorted) ==>
                    |ls| == |sorted| && Translated(content, sorted, ls))
  {
    ls := [];
    if edits == [] {
      NoEdits(content, context);
      return Diff([]), [];
    }
    var checked := Udiff.Validate(content, edits);
    if !checked.Checked? {
      return Bad, [];
    }
    var whole := Udiff.LineEdits(content, checked.edits);
    var translated := Translate(content, whole);
    var lines, _ := SplitLines(content);
    var hunks := Hunks.ToHunks(lines, translated, context);
    Hunks.NumbersExact(lines, translated, context, hunks);
    return Diff(hunks), translated;
  }

  const DEFAULT_CONTEXT := 3

  /** Edits that can be applied as they stand need no sorting. */
  lemma {:induction false} SortOfValid(edits: seq<Edit>, n: nat)
    requires Valid(edits, n)
    ensures Udiff.SortEdits(edits) == edits
  {
    forall i | 0 < i < |edits| ensures !Udiff.Less(edits[i], edits[i - 1]) {
      ValidPrefix(edits, n, i);
      ValidPrefix(edits, n, i - 1);
      assert Last(edits[..i]) == edits[i - 1];
    }
    Udiff.SortOfSorted(edits);
  }

  /** Unified: a diff that patches the lines of one text into those of the other. */
  method Unified(before: seq<Byte>, after: seq<Byte>) returns (hunks: seq<Hunks.Hunk>, ghost ls: seq<Splice<Line>>)
    ensures Describes(hunks, CutLines(before), ls, DEFAULT_CONTEXT, CutLines(after))
    ensures LineDiff(ls, CutLines(before), CutLines(after)) && (hunks == [] <==> before == after)
    ensures Fewest.FewestChanges(hunks, CutLines(before), CutLines(after), Search.MAX_DIFFS)
  {
    var edits, diffs, _ := Lines(before, after);
    SortOfValid(edits, |before|);
    DiffSettled(before, diffs, edits);
    var r;
    r, ls := ToUnified(before, edits, DEFAULT_CONTEXT);
    hunks := r.hunks;
    Hunks.NoHunks(CutLines(before), DEFAULT_CONTEXT);
    SameTranslation(before, edits, diffs, ls);
    ChangesAreFewest(hunks, diffs, CutLines(before), CutLines(after));
  }

  lemma SameTranslation(text: seq<Byte>, edits: seq<Edit>, diffs: seq<Splice<Line>>, ls: seq<Splice<Line>>)
    requires |ls| == |edits| == |diffs| && Translated(text, edits, ls) && Udiff.Settled(text, edits)
    requires forall i :: 0 <= i < |edits| ==> ToLines(text, edits[i]) == diffs[i]
    ensures ls == diffs
  {
    forall i | 0 <= i < |ls| ensures ls[i] == diffs[i] {
      assert Udiff.WholeLines(text, edits[i]) && ls[i] == ToLines(text, edits[i]);
    }
  }

  lemma ChangesAreFewest(hunks: seq<Hunks.Hunk>, diffs: seq<Splice<Line>>, before: seq<Line>, after: seq<Line>)
    requires LineDiff(diffs, before, after) && Hunks.ChangedLines(hunks) == Cost(diffs)
    ensures Fewest.FewestChanges(hunks, before, after, Search.MAX_DIFFS)
  {
    forall other | Hunks.Patch(before, other) == Some(after)
      ensures Distance.Dist(before, after, |before|, |after|) <= Hunks.ChangedLines(other)
    {
      Fewest.PatchCost(before, after, other);
    }
  }
}
