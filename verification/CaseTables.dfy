/** Two compressions of tables over the runes: the flips of a predicate, and the runs of a case
    mapping. The largest rune is a parameter; the generator uses U+10FFFF. */
module CaseTables {

  /** A Go rune: a 32-bit integer whose subtraction wraps. */
  type Rune = x: int | -0x8000_0000 <= x < 0x8000_0000

  function Wrap32(x: int): Rune {
    if -0x8000_0000 <= x < 0x8000_0000 then x
    else (x + 0x8000_0000) % 0x1_0000_0000 - 0x8000_0000
  }

  // ----- flips

  /** An odd number of the listed runes are at or below r. */
  predicate OddUpTo(list: seq<int>, r: int) {
    list != [] && OddUpTo(list[..|list| - 1], r) != (list[|list| - 1] <= r)
  }

  predicate Ascending(list: seq<int>) {
    forall i, j :: 0 <= i < j < |list| ==> list[i] < list[j]
  }

  predicate IsFlip(pred: int -> bool, r: int) {
    pred(r) != (r > 0 && pred(r - 1))
  }

  /** out lists, ascending, the runes below n where the predicate changes. */
  ghost predicate ListsFlips(out: seq<int>, pred: int -> bool, n: nat) {
    && Ascending(out)
    && (forall i :: 0 <= i < |out| ==> 0 <= out[i] < n && IsFlip(pred, out[i]))
    && (forall r :: 0 <= r < n && IsFlip(pred, r) ==> r in out)
  }

  /** The list tells the predicate everywhere below n: it holds where the number of flips so far
      is odd. */
  ghost predicate TellsBelow(out: seq<int>, pred: int -> bool, n: nat) {
    forall r :: 0 <= r < n ==> (pred(r) <==> OddUpTo(out, r))
  }

  method Flips(pred: int -> bool, maxRune: nat) returns (out: seq<int>)
    ensures ListsFlips(out, pred, maxRune + 1)
    ensures TellsBelow(out, pred, maxRune + 1)
  {
    out := [];
    var prev := false;
    for r := 0 to maxRune + 1
      invariant prev == (r > 0 && pred(r - 1)) && (r == 0 ==> out == [])
      invariant ListsFlips(out, pred, r)
      invariant TellsBelow(out, pred, r)
    {
      NextFlip(out, pred, r);
      NextRune(out, pred, r);
      var p := pred(r);
      if p != prev {
        out := out + [r];
        prev := p;
      }
    }
  }

  lemma NextFlip(out: seq<int>, pred: int -> bool, r: nat)
    requires ListsFlips(out, pred, r)
    ensures IsFlip(pred, r) ==> ListsFlips(out + [r], pred, r + 1)
    ensures !IsFlip(pred, r) ==> ListsFlips(out, pred, r + 1)
  {
    if IsFlip(pred, r) {
      var longer := out + [r];
      forall q | 0 <= q < r + 1 && IsFlip(pred, q) ensures q in longer {
        assert q < r ==> q in out;
        assert q == r ==> longer[|out|] == q;
      }
    }
  }

  lemma NextRune(out: seq<int>, pred: int -> bool, r: nat)
    requires TellsBelow(out, pred, r)
    requires forall i :: 0 <= i < |out| ==> 0 <= out[i] < r
    requires r == 0 ==> out == []
    ensures IsFlip(pred, r) ==> TellsBelow(out + [r], pred, r + 1)
    ensures !IsFlip(pred, r) ==> TellsBelow(out, pred, r + 1)
  {
    SameParity(out, r - 1, r);
    assert (out + [r])[..|out|] == out;
    assert OddUpTo(out, r) <==> r > 0 && pred(r - 1);
    forall q | 0 <= q < r + 1 ensures OddUpTo(out + [r], q) == (OddUpTo(out, q) != (r <= q)) {
    }
  }

  lemma {:induction false} SameParity(list: seq<int>, q: int, r: int)
    requires q <= r && forall i :: 0 <= i < |list| ==> list[i] <= q
    ensures OddUpTo(list, q) == OddUpTo(list, r)
  {
    if list != [] {
      SameParity(list[..|list| - 1], q, r);
    }
  }

  // ----- case runs

  datatype CaseRun = CaseRun(lo: int, hi: int, stride: int, delta: Rune)

  datatype Entry = Entry(rune: int, delta: Rune)

  /** mappedRunes with the change of each: every rune below n that the mapping moves, in order. */
  function Mapped(mapping: Rune -> Rune, n: nat): seq<Entry>
    requires n <= 0x8000_0000
  {
    if n == 0 then []
    else
      var m := mapping(n - 1);
      Mapped(mapping, n - 1) + if m != n - 1 then [Entry(n - 1, Wrap32(m - (n - 1)))] else []
  }

  predicate Proper(run: CaseRun) {
    && 0 <= run.lo <= run.hi
    && (run.stride == 1 || run.stride == 2)
    && (run.hi - run.lo) % run.stride == 0
    && (run.lo == run.hi ==> run.stride == 1)
  }

  /** The entries a run stands for. */
  function Members(run: CaseRun): seq<Entry>
    requires Proper(run)
    decreases run.hi - run.lo
  {
    if run.lo == run.hi then [Entry(run.lo, run.delta)]
    else Members(Shorter(run)) + [Entry(run.hi, run.delta)]
  }

  /** The run without its last rune. */
  function Shorter(run: CaseRun): (r: CaseRun)
    requires Proper(run) && run.lo < run.hi
    ensures Proper(r) && r.hi < run.hi
  {
    var hi := run.hi - run.stride;
    run.(hi := hi, stride := if hi == run.lo then 1 else run.stride)
  }

  function Expand(runs: seq<CaseRun>): seq<Entry>
    requires forall run :: run in runs ==> Proper(run)
  {
    if runs == [] then []
    else Expand(runs[..|runs| - 1]) + Members(runs[|runs| - 1])
  }

  /** Proper runs, one after the other. */
  ghost predicate Table(runs: seq<CaseRun>) {
    && (forall run :: run in runs ==> Proper(run))
    && forall i, j :: 0 <= i < j < |runs| ==> runs[i].hi < runs[j].lo
  }

  method CaseRuns(mapping: Rune -> Rune, maxRune: nat) returns (runs: seq<CaseRun>)
    requires maxRune < 0x7fff_ffff
    ensures Table(runs)
    ensures Expand(runs) == Mapped(mapping, maxRune + 1)
  {
    runs := [];
    for r := 0 to maxRune + 1
      invariant Table(runs)
      invariant forall run :: run in runs ==> run.hi < r
      invariant Expand(runs) == Mapped(mapping, r)
    {
      runs := AddNext(runs, mapping, r);
    }
  }

  method AddNext(runs: seq<CaseRun>, mapping: Rune -> Rune, r: nat) returns (more: seq<CaseRun>)
    requires r < 0x7fff_ffff && Table(runs) && Expand(runs) == Mapped(mapping, r)
    requires forall run :: run in runs ==> run.hi < r
    ensures Table(more) && Expand(more) == Mapped(mapping, r + 1)
    ensures forall run :: run in more ==> run.hi < r + 1
  {
    var m := mapping(r);
    more := runs;
    if m != r {
      more := AddRune(runs, r, Wrap32(m - r));
    }
  }

  /** The body of the loop for a rune the mapping moves. */
  method AddRune(runs: seq<CaseRun>, r: Rune, d: Rune) returns (out: seq<CaseRun>)
    requires r >= 0 && Table(runs) && forall run :: run in runs ==> run.hi < r
    ensures Table(out) && forall run :: run in out ==> run.hi <= r
    ensures Expand(out) == Expand(runs) + [Entry(r, d)]
  {
    var n := |runs|;
    if n > 0 && runs[n - 1].delta == d {
      var last := runs[n - 1];
      var gap := r - last.hi;
      assert last in runs;
      if last.lo == last.hi && (gap == 1 || gap == 2) {
        Extend(runs, last.(stride := gap, hi := r));
        return runs[n - 1 := last.(stride := gap, hi := r)];
      }
      if last.lo != last.hi && gap == last.stride {
        Extend(runs, last.(hi := r));
        return runs[n - 1 := last.(hi := r)];
      }
    }
    Append(runs, CaseRun(r, r, 1, d));
    return runs + [CaseRun(r, r, 1, d)];
  }

  /** Replacing the last run by one that reaches one rune further adds one entry. */
  lemma Extend(runs: seq<CaseRun>, longer: CaseRun)
    requires Table(runs) && runs != []
    requires Proper(longer) && longer.lo < longer.hi && Shorter(longer) == runs[|runs| - 1]
    ensures var after := runs[|runs| - 1 := longer];
            Table(after) && Expand(after) == Expand(runs) + [Entry(longer.hi, longer.delta)]
  {
    var after := runs[|runs| - 1 := longer];
    forall run | run in after ensures Proper(run) {
      assert run == longer || run in runs;
    }
    assert after[..|runs| - 1] == runs[..|runs| - 1];
  }

  lemma Append(runs: seq<CaseRun>, run: CaseRun)
    requires Table(runs) && Proper(run) && run.lo == run.hi
    requires forall x :: x in runs ==> x.hi < run.lo
    ensures Table(runs + [run]) && Expand(runs + [run]) == Expand(runs) + [Entry(run.lo, run.delta)]
  {
    assert (runs + [run])[..|runs|] == runs;
  }

  // ----- the table computes the mapping

  predicate Hits(run: CaseRun, r: int)
    requires Proper(run)
  {
    run.lo <= r <= run.hi && (r - run.lo) % run.stride == 0
  }

  lemma {:induction false} HitsAreMembers(run: CaseRun, e: Entry)
    requires Proper(run)
    ensures e in Members(run) <==> e.delta == run.delta && Hits(run, e.rune)
    decreases run.hi - run.lo
  {
    if run.lo < run.hi {
      HitsAreMembers(Shorter(run), e);
    }
  }

  lemma {:induction false} ExpandMembers(runs: seq<CaseRun>, e: Entry)
    requires Table(runs)
    ensures e in Expand(runs) <==> InSome(runs, e)
    decreases |runs|
  {
    if runs != [] {
      var front, last := runs[..|runs| - 1], runs[|runs| - 1];
      ExpandMembers(front, e);
      InSomeSplit(runs, e);
    }
  }

  ghost predicate InSome(runs: seq<CaseRun>, e: Entry)
    requires Table(runs)
  {
    exists i :: 0 <= i < |runs| && e in Members(runs[i])
  }

  lemma InSomeSplit(runs: seq<CaseRun>, e: Entry)
    requires Table(runs) && runs != []
    ensures Table(runs[..|runs| - 1])
    ensures InSome(runs, e) <==> InSome(runs[..|runs| - 1], e) || e in Members(runs[|runs| - 1])
  {
    var front := runs[..|runs| - 1];
    if InSome(front, e) {
      var i :| 0 <= i < |front| && e in Members(front[i]);
      assert runs[i] == front[i];
    }
    if InSome(runs, e) && e !in Members(runs[|runs| - 1]) {
      var i :| 0 <= i < |runs| && e in Members(runs[i]);
      assert front[i] == runs[i];
    }
  }

  lemma {:induction false} MappedMembers(mapping: Rune -> Rune, n: nat, e: Entry)
    requires n <= 0x8000_0000
    ensures e in Mapped(mapping, n) <==>
            0 <= e.rune < n && mapping(e.rune) != e.rune && e.delta == Wrap32(mapping(e.rune) - e.rune)
    decreases n
  {
    if n > 0 {
      MappedMembers(mapping, n - 1, e);
    }
  }

  lemma WrapBack(r: Rune, m: Rune)
    ensures Wrap32(r + Wrap32(m - r)) == m
  {
  }

  /** A rune is moved exactly when one run hits it, by that run's delta, and by no other run. */
  lemma TableComputes(mapping: Rune -> Rune, maxRune: nat, runs: seq<CaseRun>, r: Rune)
    requires maxRune < 0x7fff_ffff && 0 <= r <= maxRune
    requires Table(runs) && Expand(runs) == Mapped(mapping, maxRune + 1)
    ensures mapping(r) == r <==> forall i :: 0 <= i < |runs| ==> !Hits(runs[i], r)
    ensures forall i :: 0 <= i < |runs| && Hits(runs[i], r) ==>
              && mapping(r) == Wrap32(r + runs[i].delta)
              && forall j :: 0 <= j < |runs| && j != i ==> !Hits(runs[j], r)
  {
    var e := Entry(r, Wrap32(mapping(r) - r));
    WrapBack(r, mapping(r));
    MappedMembers(mapping, maxRune + 1, e);
    ExpandMembers(runs, e);
    if mapping(r) != r {
      var i :| 0 <= i < |runs| && e in Members(runs[i]);
      HitsAreMembers(runs[i], e);
    }
    forall i | 0 <= i < |runs| && Hits(runs[i], r)
      ensures runs[i].delta == e.delta && mapping(r) != r
    {
      OneHit(mapping, maxRune, runs, r, i);
    }
    forall i, j | 0 <= i < |runs| && 0 <= j < |runs| && i != j && Hits(runs[i], r) ensures !Hits(runs[j], r) {
      assert i < j || j < i;
    }
  }

  lemma OneHit(mapping: Rune -> Rune, maxRune: nat, runs: seq<CaseRun>, r: Rune, i: nat)
    requires maxRune < 0x7fff_ffff && Table(runs) && Expand(runs) == Mapped(mapping, maxRune + 1)
    requires i < |runs| && Hits(runs[i], r)
    ensures mapping(r) != r && runs[i].delta == Wrap32(mapping(r) - r)
  {
    var f := Entry(r, runs[i].delta);
    HitsAreMembers(runs[i], f);
    ExpandMembers(runs, f);
    MappedMembers(mapping, maxRune + 1, f);
  }
}
