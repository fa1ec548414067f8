/** A text whose diff has a wrong line number. Where no line of the old text has moved, the diff
    replaces exactly the lines that differ, so the edits behind the hunks are known. */
module Misnumbered {
  import opened LineText
  import opened Splices
  import opened Unified
  import Collections
  import Distance
  import Hunks
  import Search
  import Traces

  // ----- texts of which lines are replaced

  /** Both have as many lines, and a line of the old text is found in the new one only in its place. */
  predicate InPlace(before: seq<Line>, after: seq<Line>) {
    |before| == |after| && forall i, j :: 0 <= i < |before| && 0 <= j < |after| && before[i] == after[j] ==> i == j
  }

  ghost function Differing(before: seq<Line>, after: seq<Line>, n: nat): (d: set<int>)
    requires n <= |before| == |after|
  {
    if n == 0 then {}
    else Differing(before, after, n - 1) + (if before[n - 1] == after[n - 1] then {} else {n - 1})
  }

  lemma {:induction false} DifferingAre(before: seq<Line>, after: seq<Line>, n: nat)
    requires n <= |before| == |after|
    ensures forall i :: i in Differing(before, after, n) <==> 0 <= i < n && before[i] != after[i]
  {
    if n > 0 {
      DifferingAre(before, after, n - 1);
    }
  }

  /** Replacing these lines costs two each. */
  lemma {:induction false} DifferingDist(before: seq<Line>, after: seq<Line>, n: nat)
    requires n <= |before| == |after|
    ensures Distance.Dist(before, after, n, n) <= 2 * |Differing(before, after, n)|
  {
    if n > 0 {
      DifferingDist(before, after, n - 1);
      DifferingAre(before, after, n - 1);
      if before[n - 1] == after[n - 1] {
        assert Traces.Match(before, after, 0, n - 1);
        Distance.Diagonal(before, after, n - 1, n - 1, n, n);
      } else {
        Distance.Walk(before, after, n - 1, n - 1, n, n);
      }
    }
  }

  /** The old lines that the edits delete. */
  ghost function Deleted(ls: seq<Splice<Line>>): set<int> {
    if ls == [] then {} else Deleted(Front(ls)) + Range(Last(ls).start, Last(ls).end)
  }

  ghost function Range(i: int, j: int): (r: set<int>)
    ensures forall k :: k in r <==> i <= k < j
    ensures |r| == if i <= j then j - i else 0
    decreases j - i
  {
    if i >= j then {} else Range(i, j - 1) + {j - 1}
  }

  lemma {:induction false} DeletedBelow(ls: seq<Splice<Line>>, n: nat)
    requires Valid(ls, n)
    ensures forall i :: i in Deleted(ls) ==> 0 <= i < End(ls)
  {
    if ls != [] {
      DeletedBelow(Front(ls), n);
    }
  }

  lemma {:induction false} Deletes(ls: seq<Splice<Line>>, k: nat, i: int)
    requires k < |ls| && ls[k].start <= i < ls[k].end
    ensures i in Deleted(ls)
  {
    if k < |ls| - 1 {
      Deletes(Front(ls), k, i);
    }
  }

  /** An edit that deletes the line. */
  lemma {:induction false} DeletedBy(ls: seq<Splice<Line>>, i: int) returns (k: nat)
    requires i in Deleted(ls)
    ensures k < |ls| && ls[k].start <= i < ls[k].end
  {
    if i in Range(Last(ls).start, Last(ls).end) {
      k := |ls| - 1;
    } else {
      k := DeletedBy(Front(ls), i);
    }
  }

  /** Up to every edit, as many lines are written as are read. */
  lemma LinesKeepPlace(before: seq<Line>, after: seq<Line>, ls: seq<Splice<Line>>, k: nat)
    requires InPlace(before, after) && Valid(ls, |before|) && Separated(ls) && Apply(before, ls) == after && k <= |ls|
    ensures Valid(ls[..k], |before|) && |Out(before, ls[..k])| == End(ls[..k]) <= |before|
  {
    ValidPrefix(ls, |before|, k);
    OutPrefix(before, ls, k);
    var end, out := End(ls[..k]), Out(before, ls[..k]);
    if k == |ls| {
      assert ls[..k] == ls;
      assert end < |before| ==> after[|out|] == before[end];
    } else if k > 0 {
      Hunks.NextEdit(before, ls, k);
      OutPrefix(before, ls, k + 1);
      SomethingKept(ls, k);
      var next := Out(before, ls[..k + 1]);
      assert next[|out|] == before[end] && after[|out|] == next[|out|];
    }
  }

  /** An edit writes as many lines as it deletes, and at least one. */
  lemma EqualWidth(before: seq<Line>, after: seq<Line>, ls: seq<Splice<Line>>, k: nat)
    requires InPlace(before, after) && Valid(ls, |before|) && Separated(ls) && Apply(before, ls) == after && k < |ls|
    ensures |ls[k].ins| == ls[k].end - ls[k].start > 0
  {
    LinesKeepPlace(before, after, ls, k);
    LinesKeepPlace(before, after, ls, k + 1);
    Hunks.NextEdit(before, ls, k);
  }

  lemma {:induction false} DeletedCost(ls: seq<Splice<Line>>, n: nat)
    requires Valid(ls, n) && forall k :: 0 <= k < |ls| ==> |ls[k].ins| == ls[k].end - ls[k].start
    ensures Cost(ls) == 2 * |Deleted(ls)|
  {
    if ls != [] {
      DeletedCost(Front(ls), n);
      DeletedBelow(Front(ls), n);
    }
  }

  /** A line that no edit deletes stays. */
  lemma {:induction false} KeptStays(before: seq<Line>, after: seq<Line>, ls: seq<Splice<Line>>, k: nat, i: nat)
    requires InPlace(before, after) && Valid(ls, |before|) && Separated(ls) && Apply(before, ls) == after
    requires k <= |ls| && i < End(ls[..k]) && i !in Deleted(ls)
    ensures i < |before| && before[i] == after[i]
    decreases k
  {
    if k > 0 {
      Hunks.NextEdit(before, ls, k - 1);
      if i < End(ls[..k - 1]) {
        KeptStays(before, after, ls, k - 1, i);
      } else if ls[k - 1].start <= i {
        Deletes(ls, k - 1, i);
      } else {
        BeforeEditStays(before, after, ls, k - 1, i);
      }
    }
  }

  lemma BeforeEditStays(before: seq<Line>, after: seq<Line>, ls: seq<Splice<Line>>, k: nat, i: nat)
    requires InPlace(before, after) && Valid(ls, |before|) && Separated(ls) && Apply(before, ls) == after
    requires k < |ls| && End(ls[..k]) <= i < ls[k].start
    ensures i < |before| && before[i] == after[i]
  {
    LinesKeepPlace(before, after, ls, k);
    Hunks.NextEdit(before, ls, k);
    OutPrefix(before, ls, k + 1);
    var next := Out(before, ls[..k + 1]);
    assert next[i] == before[i] && after[i] == next[i];
  }

  lemma BehindStays(before: seq<Line>, after: seq<Line>, ls: seq<Splice<Line>>, i: nat)
    requires InPlace(before, after) && Valid(ls, |before|) && Separated(ls) && Apply(before, ls) == after
    requires End(ls) <= i < |before|
    ensures before[i] == after[i]
  {
    LinesKeepPlace(before, after, ls, |ls|);
    assert ls[..|ls|] == ls;
  }

  /** The diff of two such texts deletes exactly the lines that differ, if they are fewer than 50, and
      every edit writes as many lines as it deletes. */
  lemma ReplacesDiffering(before: seq<Line>, after: seq<Line>, ls: seq<Splice<Line>>)
    requires InPlace(before, after) && LineDiff(ls, before, after)
    requires 2 * |Differing(before, after, |before|)| < Search.MAX_DIFFS
    ensures Deleted(ls) == Differing(before, after, |before|)
    ensures forall k :: 0 <= k < |ls| ==> |ls[k].ins| == ls[k].end - ls[k].start > 0
  {
    var differing := Differing(before, after, |before|);
    DifferingAre(before, after, |before|);
    DifferingDist(before, after, |before|);
    forall k | 0 <= k < |ls| ensures |ls[k].ins| == ls[k].end - ls[k].start > 0 {
      EqualWidth(before, after, ls, k);
    }
    DeletedCost(ls, |before|);
    forall i | i in differing ensures i in Deleted(ls) {
      assert ls[..|ls|] == ls;
      if End(ls) <= i {
        BehindStays(before, after, ls, i);
      } else if i !in Deleted(ls) {
        KeptStays(before, after, ls, |ls|, i);
      }
    }
    Collections.SubsetOfSameSize(differing, Deleted(ls));
  }

  // ----- one of them

  /** The letters A to X, a line each. */
  function Capitals(): seq<Line> {
    seq(24, i => [65 + i, NL])
  }

  /** The first, the third and the twenty-first are small. */
  function SomeSmall(): seq<Line> {
    seq(24, i => if i == 0 || i == 2 || i == 20 then [97 + i, NL] else [65 + i, NL])
  }

  ghost predicate OnlyThree(d: set<int>) {
    forall i :: i in d <==> i == 0 || i == 2 || i == 20
  }

  lemma LettersInPlace(before: seq<Line>, after: seq<Line>)
    requires before == Capitals() && after == SomeSmall()
    ensures InPlace(before, after) && OnlyThree(Differing(before, after, |before|))
    ensures |Differing(before, after, |before|)| == 3
  {
    forall i, j | 0 <= i < |before| && 0 <= j < |after| && before[i] == after[j] ensures i == j {
      assert before[i][0] == after[j][0];
    }
    forall i | 0 <= i < |before| ensures before[i] != after[i] <==> i == 0 || i == 2 || i == 20 {
      assert before[i][0] == 65 + i;
    }
    DifferingAre(before, after, |before|);
    var d := Differing(before, after, |before|);
    assert forall i :: i in d <==> i in {0, 2, 20};
    assert d == {0, 2, 20};
  }

  /** A letter and a newline. */
  predicate Letter(l: Line) {
    |l| == 2 && l[0] != NL && l[1] == NL
  }

  lemma LettersCut(lines: seq<Line>)
    requires forall i :: 0 <= i < |lines| ==> Letter(lines[i])
    ensures CutLines(Concat(lines)) == lines
  {
    LettersAreLines(lines);
    LinesAreUnique(lines, CutLines(Concat(lines)));
  }

  lemma LettersAreLines(lines: seq<Line>)
    requires forall i :: 0 <= i < |lines| ==> Letter(lines[i])
    ensures AreLines(lines)
  {
    forall i | 0 <= i < |lines| ensures IsLine(lines[i]) && Ended(lines[i]) {
      assert Letter(lines[i]);
    }
  }

  predicate Replacements(ls: seq<Splice<Line>>) {
    Separated(ls) && forall k :: 0 <= k < |ls| ==> ls[k].start < ls[k].end
  }

  lemma {:induction false} Ascend(ls: seq<Splice<Line>>, i: nat, j: nat)
    requires Replacements(ls) && i < j < |ls|
    ensures ls[i].end < ls[j].start
    decreases j
  {
    if i < j - 1 {
      Ascend(ls, i, j - 1);
    }
  }

  /** An edit that deletes a line beside which none is deleted. */
  lemma DeletesOne(ls: seq<Splice<Line>>, i: int) returns (k: nat)
    requires i in Deleted(ls) && i - 1 !in Deleted(ls) && i + 1 !in Deleted(ls)
    ensures k < |ls| && ls[k].start == i && ls[k].end == i + 1
  {
    k := DeletedBy(ls, i);
    if ls[k].start < i {
      Deletes(ls, k, i - 1);
    }
    if i + 1 < ls[k].end {
      Deletes(ls, k, i + 1);
    }
  }

  /** Edits that replace lines 0, 2 and 20 join the first two and then start another hunk. */
  lemma JoinsThenBreaks(ls: seq<Splice<Line>>)
    requires Replacements(ls) && OnlyThree(Deleted(ls))
    ensures Hunks.JoinsBeforeBreak(ls, DEFAULT_CONTEXT)
  {
    var i, j := Places(ls);
    EndsBehind(ls, i - 1);
    EndsBehind(ls, j - 1);
    Gaps(ls, i, j);
  }

  lemma Places(ls: seq<Splice<Line>>) returns (i: nat, j: nat)
    requires Replacements(ls) && OnlyThree(Deleted(ls))
    ensures 0 < i < j < |ls| && ls[i].start == 2 && ls[j].start == 20
  {
    var h := DeletesOne(ls, 0);
    i := DeletesOne(ls, 2);
    j := DeletesOne(ls, 20);
    InTurn(ls, h, i);
    InTurn(ls, i, j);
  }

  lemma Gaps(ls: seq<Splice<Line>>, i: nat, j: nat)
    requires 0 < i < j < |ls| && Separated(ls) && ls[i].start == 2 && ls[j].start == 20
    requires ls[i - 1].end > 0 && (ls[j - 1].end <= 3 || ls[j - 1].end == 21)
    ensures Hunks.JoinsBeforeBreak(ls, DEFAULT_CONTEXT)
  {
    assert ls[j - 1].end < ls[j].start;
    assert Last(ls[..i]) == ls[i - 1] && Last(ls[..j]) == ls[j - 1];
    assert 0 < Hunks.Gap(ls, i) <= 2 * DEFAULT_CONTEXT < Hunks.Gap(ls, j);
  }

  lemma InTurn(ls: seq<Splice<Line>>, i: nat, j: nat)
    requires Replacements(ls) && i < |ls| && j < |ls| && ls[i].start < ls[j].start
    ensures i < j
  {
    if j < i {
      Ascend(ls, j, i);
    }
  }

  lemma EndsBehind(ls: seq<Splice<Line>>, k: nat)
    requires Replacements(ls) && OnlyThree(Deleted(ls)) && k < |ls|
    ensures ls[k].end == 1 || ls[k].end == 3 || ls[k].end == 21
  {
    Deletes(ls, k, ls[k].end - 1);
  }

  /** Whatever hunks describe the diff of these two texts, they are misnumbered. */
  lemma AlwaysMisnumbered(hunks: seq<Hunks.Hunk>, ls: seq<Splice<Line>>)
    requires Describes(hunks, Capitals(), ls, DEFAULT_CONTEXT, SomeSmall()) && LineDiff(ls, Capitals(), SomeSmall())
    ensures !Hunks.NumbersRight(Capitals(), hunks)
  {
    var before, after := Capitals(), SomeSmall();
    LettersInPlace(before, after);
    ReplacesDiffering(before, after, ls);
    JoinsThenBreaks(ls);
  }

  /** The diff of two texts: it patches one into the other, but a hunk has the wrong number on the new
      side. */
  method Witness() returns (hunks: seq<Hunks.Hunk>, ghost ls: seq<Splice<Line>>)
    ensures Describes(hunks, Capitals(), ls, DEFAULT_CONTEXT, SomeSmall()) && LineDiff(ls, Capitals(), SomeSmall())
    ensures !Hunks.NumbersRight(Capitals(), hunks)
  {
    LettersCut(Capitals());
    LettersCut(SomeSmall());
    hunks, ls := Unified.Unified(Concat(Capitals()), Concat(SomeSmall()));
    AlwaysMisnumbered(hunks, ls);
  }
}
