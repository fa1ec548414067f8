/** Hunks that patch one list of lines into another are a way through their edit graph, so they change
    at least as many lines as the two are apart. */
module Fewest {
  import opened Collections
  import opened Distance
  import opened Hunks
  import opened LineText
  import opened Splices
  import opened Traces

  /** The part of s from i on starts with t. */
  predicate StartsAt(s: seq<Line>, i: nat, t: seq<Line>) {
    i + |t| <= |s| && s[i..i + |t|] == t
  }

  lemma StartsParts(s: seq<Line>, i: nat, t: seq<Line>, r: seq<Line>)
    requires StartsAt(s, i, t + r)
    ensures StartsAt(s, i, t) && StartsAt(s, i + |t|, r)
  {
    var part := s[i..i + |t + r|];
    assert s[i..i + |t|] == part[..|t|] == t;
    assert s[i + |t|..i + |t| + |r|] == part[|t|..] == r;
  }

  /** Lines that stand in both are a run of matches. */
  lemma SamePart(a: seq<Line>, b: seq<Line>, i: nat, j: nat, t: seq<Line>, u: nat, v: nat)
    requires StartsAt(a, i, t) && StartsAt(b, j, t) && u == i + |t| && v == j + |t|
    ensures Dist(a, b, u, v) == Dist(a, b, i, j)
  {
    var k := i - j;
    forall x | i <= x < i + |t| ensures Match(a, b, k, x) {
      assert a[x] == a[i..i + |t|][x - i] && b[x - k] == b[j..j + |t|][x - i];
    }
    Diagonal(a, b, i, j, u, v);
  }

  lemma {:induction false} OpsCost(a: seq<Line>, b: seq<Line>, ops: seq<Op>, i: nat, j: nat, u: nat, v: nat)
    requires StartsAt(a, i, Old(ops)) && StartsAt(b, j, New(ops)) && u == i + |Old(ops)| && v == j + |New(ops)|
    ensures Dist(a, b, u, v) <= Dist(a, b, i, j) + Changed(ops)
    decreases |ops|
  {
    if ops != [] {
      var front, op := Front(ops), Last(ops);
      var x, y := i + |Old(front)|, j + |New(front)|;
      StartsParts(a, i, Old(front), if op.kind.Insert? then [] else [op.line]);
      StartsParts(b, j, New(front), if op.kind.Delete? then [] else [op.line]);
      OpsCost(a, b, front, i, j, x, y);
      if op.kind.Equal? {
        SamePart(a, b, x, y, [op.line], u, v);
      } else {
        Walk(a, b, x, y, u, v);
      }
    }
  }

  lemma MoveCost(a: seq<Line>, b: seq<Line>, i: nat, j: nat, keep: seq<Line>, ops: seq<Op>, u: nat, v: nat)
    requires StartsAt(a, i, keep) && StartsAt(a, i + |keep|, Old(ops)) && StartsAt(b, j, keep + New(ops))
    requires u == i + |keep| + |Old(ops)| && v == j + |keep| + |New(ops)|
    ensures Dist(a, b, u, v) <= Dist(a, b, i, j) + Changed(ops)
  {
    var x, y := i + |keep|, j + |keep|;
    StartsParts(b, j, keep, New(ops));
    SamePart(a, b, i, j, keep, x, y);
    OpsCost(a, b, ops, x, y, u, v);
  }

  lemma StepCost(a: seq<Line>, b: seq<Line>, c: Cursor, h: Hunk)
    requires PatchStep(a, c, h).Some? && StartsAt(b, 0, PatchStep(a, c, h).value.out)
    ensures var d := PatchStep(a, c, h).value;
            StartsAt(b, 0, c.out) && Dist(a, b, d.pos, |d.out|) <= Dist(a, b, c.pos, |c.out|) + Changed(h.ops)
  {
    var keep, d := a[c.pos..h.from - 1], PatchStep(a, c, h).value;
    Associative(c.out, keep, New(h.ops));
    StartsParts(b, 0, c.out, keep + New(h.ops));
    MoveCost(a, b, c.pos, |c.out|, keep, h.ops, d.pos, |d.out|);
  }

  lemma {:induction false} PatchUpToCost(a: seq<Line>, b: seq<Line>, hunks: seq<Hunk>)
    requires PatchUpTo(a, hunks).Some? && StartsAt(b, 0, PatchUpTo(a, hunks).value.out)
    ensures var c := PatchUpTo(a, hunks).value;
            Dist(a, b, c.pos, |c.out|) <= ChangedLines(hunks)
  {
    if hunks != [] {
      StepCost(a, b, PatchUpTo(a, Front(hunks)).value, Last(hunks));
      PatchUpToCost(a, b, Front(hunks));
    }
  }

  /** Hunks that patch a into b change at least as many lines as a and b are apart. */
  lemma PatchCost(a: seq<Line>, b: seq<Line>, hunks: seq<Hunk>)
    requires Patch(a, hunks) == Some(b)
    ensures Dist(a, b, |a|, |b|) <= ChangedLines(hunks)
  {
    var c := PatchUpTo(a, hunks).value;
    var rest := a[c.pos..];
    assert StartsAt(b, 0, c.out + rest) && StartsAt(a, c.pos, rest);
    StartsParts(b, 0, c.out, rest);
    PatchUpToCost(a, b, hunks);
    SamePart(a, b, c.pos, |c.out|, rest, |a|, |b|);
  }

  /** No hunks that make the same change have fewer changed lines, if some have fewer than n. */
  ghost predicate FewestChanges(hunks: seq<Hunk>, a: seq<Line>, b: seq<Line>, n: int) {
    forall other :: Patch(a, other) == Some(b) && ChangedLines(other) < n ==> ChangedLines(hunks) <= ChangedLines(other)
  }
}
