/** Unified hunks from line edits: the hunks patch the old lines into the new ones, and their line
    numbers on the new side are right exactly when no joined edits come before a later hunk. */
module Hunks {
  import opened Splices
  import opened LineText
  import opened Collections

  datatype Kind = Delete | Insert | Equal

  datatype Op = Op(kind: Kind, line: Line)

  /** A run of changes with context; from and to are one-based line numbers. */
  datatype Hunk = Hunk(from: int, to: int, ops: seq<Op>)

  type LineEdit = Splice<Line>

  // ----- what hunks do to a text

  /** The lines an op sequence consumes. */
  function Old(ops: seq<Op>): seq<Line> {
    if ops == [] then [] else Old(Front(ops)) + (if Last(ops).kind.Insert? then [] else [Last(ops).line])
  }

  /** The lines an op sequence produces. */
  function New(ops: seq<Op>): seq<Line> {
    if ops == [] then [] else New(Front(ops)) + (if Last(ops).kind.Delete? then [] else [Last(ops).line])
  }

  datatype Cursor = Cursor(out: seq<Line>, pos: nat)

  /** Patching hunk by hunk: every consumed line must be the line that is there. */
  function PatchStep(lines: seq<Line>, c: Cursor, h: Hunk): Option<Cursor> {
    var first, n := h.from - 1, |Old(h.ops)|;
    if c.pos <= first && first + n <= |lines| && lines[first..first + n] == Old(h.ops)
    then Some(Cursor(c.out + lines[c.pos..first] + New(h.ops), first + n))
    else None
  }

  function PatchUpTo(lines: seq<Line>, hunks: seq<Hunk>): (r: Option<Cursor>)
    ensures r.Some? ==> r.value.pos <= |lines|
  {
    if hunks == [] then Some(Cursor([], 0))
    else
      match PatchUpTo(lines, Front(hunks))
      case None => None
      case Some(c) => PatchStep(lines, c, Last(hunks))
  }

  function Patch(lines: seq<Line>, hunks: seq<Hunk>): Option<seq<Line>> {
    match PatchUpTo(lines, hunks)
    case None => None
    case Some(c) => Some(c.out + lines[c.pos..])
  }

  /** The line of the patched text, counted from one, where hunk i starts. */
  function TrueTo(lines: seq<Line>, hunks: seq<Hunk>, i: nat): int
    requires i < |hunks|
  {
    match PatchUpTo(lines, hunks[..i])
    case None => 0
    case Some(c) => |c.out| + hunks[i].from - c.pos
  }

  lemma OneOp(op: Op)
    ensures Old([op]) == if op.kind.Insert? then [] else [op.line]
    ensures New([op]) == if op.kind.Delete? then [] else [op.line]
  {
    FrontOfAppend([], op);
    assert [] + [op] == [op];
  }

  lemma {:induction false} OpsAppend(a: seq<Op>, b: seq<Op>)
    ensures Old(a + b) == Old(a) + Old(b) && New(a + b) == New(a) + New(b)
  {
    if b == [] {
      assert a + b == a;
    } else {
      var front, last := Front(b), [Last(b)];
      assert a + b == a + front + last;
      FrontOfAppend(a + front, Last(b));
      OpsAppend(a, front);
      OneOp(Last(b));
      Associative(Old(a), Old(front), Old(last));
      Associative(New(a), New(front), New(last));
    }
  }

  function Ops(kind: Kind, lines: seq<Line>): seq<Op> {
    if lines == [] then [] else Ops(kind, Front(lines)) + [Op(kind, Last(lines))]
  }

  lemma {:induction false} OpsSides(kind: Kind, lines: seq<Line>)
    ensures Old(Ops(kind, lines)) == if kind.Insert? then [] else lines
    ensures New(Ops(kind, lines)) == if kind.Delete? then [] else lines
  {
    if lines != [] {
      OpsSides(kind, Front(lines));
      FrontOfAppend(Ops(kind, Front(lines)), Op(kind, Last(lines)));
      assert lines == Front(lines) + [Last(lines)];
    }
  }

  lemma OpsNext(kind: Kind, lines: seq<Line>, l: Line)
    ensures Ops(kind, lines + [l]) == Ops(kind, lines) + [Op(kind, l)]
  {
    FrontOfAppend(lines, l);
  }

  function WithOps(hunks: seq<Hunk>, ops: seq<Op>): seq<Hunk>
    requires hunks != []
  {
    Front(hunks) + [Last(hunks).(ops := Last(hunks).ops + ops)]
  }

  /** The lines an op sequence deletes or inserts. */
  function Changed(ops: seq<Op>): nat {
    if ops == [] then 0 else Changed(Front(ops)) + (if Last(ops).kind.Equal? then 0 else 1)
  }

  function ChangedLines(hunks: seq<Hunk>): nat {
    if hunks == [] then 0 else ChangedLines(Front(hunks)) + Changed(Last(hunks).ops)
  }

  lemma {:induction false} ChangedAppend(a: seq<Op>, b: seq<Op>)
    ensures Changed(a + b) == Changed(a) + Changed(b)
  {
    if b == [] {
      assert a + b == a;
    } else {
      ChangedAppend(a, Front(b));
      assert Front(a + b) == a + Front(b);
    }
  }

  lemma {:induction false} ChangedOps(kind: Kind, lines: seq<Line>)
    ensures Changed(Ops(kind, lines)) == if kind.Equal? then 0 else |lines|
  {
    if lines != [] {
      ChangedOps(kind, Front(lines));
      FrontOfAppend(Ops(kind, Front(lines)), Op(kind, Last(lines)));
    }
  }

  lemma ChangedWith(hunks: seq<Hunk>, ops: seq<Op>)
    requires hunks != []
    ensures ChangedLines(WithOps(hunks, ops)) == ChangedLines(hunks) + Changed(ops)
  {
    var h := Last(hunks);
    ChangedAppend(h.ops, ops);
    FrontOfAppend(Front(hunks), h.(ops := h.ops + ops));
  }

  lemma ChangeCounts(hunks: seq<Hunk>, dels: seq<Line>, inss: seq<Line>)
    requires hunks != []
    ensures ChangedLines(WithOps(hunks, Ops(Delete, dels) + Ops(Insert, inss))) == ChangedLines(hunks) + |dels| + |inss|
  {
    ChangedWith(hunks, Ops(Delete, dels) + Ops(Insert, inss));
    ChangedAppend(Ops(Delete, dels), Ops(Insert, inss));
    ChangedOps(Delete, dels);
    ChangedOps(Insert, inss);
  }

  /** The hunks patch the lines up to end into out. */
  ghost predicate Reaches(lines: seq<Line>, hunks: seq<Hunk>, out: seq<Line>, end: nat) {
    PatchUpTo(lines, hunks) == Some(Cursor(out, end))
  }

  /** More ops in the last hunk continue the patch where it stood. */
  lemma Continue(lines: seq<Line>, hunks: seq<Hunk>, ops: seq<Op>, out: seq<Line>, pos: nat, end: nat)
    requires hunks != [] && Reaches(lines, hunks, out, pos)
    requires pos <= end <= |lines| && Old(ops) == lines[pos..end]
    ensures Reaches(lines, WithOps(hunks, ops), out + New(ops), end)
  {
    var h := Last(hunks);
    FrontOfAppend(Front(hunks), h.(ops := h.ops + ops));
    StepMore(lines, PatchUpTo(lines, Front(hunks)).value, h, ops);
  }

  lemma StepMore(lines: seq<Line>, c: Cursor, h: Hunk, ops: seq<Op>)
    requires PatchStep(lines, c, h).Some?
    requires var p := h.from - 1 + |Old(h.ops)|;
             p + |Old(ops)| <= |lines| && lines[p..p + |Old(ops)|] == Old(ops)
    ensures var d := PatchStep(lines, c, h).value;
            PatchStep(lines, c, h.(ops := h.ops + ops)) == Some(Cursor(d.out + New(ops), d.pos + |Old(ops)|))
  {
    var first, n, m := h.from - 1, |Old(h.ops)|, |Old(ops)|;
    OpsAppend(h.ops, ops);
    Join(lines, first, first + n, first + n + m);
    StepIs(lines, c, h.(ops := h.ops + ops), Old(h.ops) + Old(ops), New(h.ops) + New(ops));
    Associative(c.out + lines[c.pos..first], New(h.ops), New(ops));
  }

  /** A step, from what its hunk consumes and produces. */
  lemma StepIs(lines: seq<Line>, c: Cursor, h: Hunk, before: seq<Line>, after: seq<Line>)
    requires Old(h.ops) == before && New(h.ops) == after
    requires c.pos < h.from && h.from - 1 + |before| <= |lines|
    requires lines[h.from - 1..h.from - 1 + |before|] == before
    ensures PatchStep(lines, c, h) == Some(Cursor(c.out + lines[c.pos..h.from - 1] + after, h.from - 1 + |before|))
  {
  }

  /** A hunk more. */
  lemma Push(lines: seq<Line>, hunks: seq<Hunk>, h: Hunk)
    requires PatchUpTo(lines, hunks).Some? && PatchStep(lines, PatchUpTo(lines, hunks).value, h).Some?
    ensures PatchUpTo(lines, hunks + [h]) == PatchStep(lines, PatchUpTo(lines, hunks).value, h)
  {
    FrontOfAppend(hunks, h);
  }

  // ----- building hunks

  function Clamp(n: int, lo: int, hi: int): int
    requires lo <= hi
  {
    if n < lo then lo else if n > hi then hi else n
  }

  /** The lines from start to end that exist. */
  function Context(lines: seq<Line>, start: int, end: int): seq<Line> {
    var s, e := Clamp(start, 0, |lines|), Clamp(end, 0, |lines|);
    if s <= e then lines[s..e] else []
  }

  /** addEqualLines: appends what exists of the range as context, and returns how much that was. */
  method AddEqualLines(ops: seq<Op>, lines: seq<Line>, start: int, end: int) returns (out: seq<Op>, delta: int)
    ensures out == ops + Ops(Equal, Context(lines, start, end))
    ensures delta == |Context(lines, start, end)|
  {
    out, delta := ops, 0;
    var i := start;
    ghost var done: seq<Line> := [];
    assert ops + Ops(Equal, []) == ops;
    while i < end
      invariant start <= i && (i == start || i <= end)
      invariant done == Context(lines, start, i)
      invariant out == ops + Ops(Equal, done) && delta == |done|
    {
      if i < 0 {
        i := i + 1;
        continue;
      }
      if i >= |lines| {
        assert Context(lines, start, i) == Context(lines, start, end);
        return;
      }
      ContextNext(lines, start, i);
      OpsNext(Equal, done, lines[i]);
      Associative(ops, Ops(Equal, done), [Op(Equal, lines[i])]);
      out := out + [Op(Equal, lines[i])];
      done := done + [lines[i]];
      delta := delta + 1;
      i := i + 1;
    }
  }

  lemma ContextNext(lines: seq<Line>, start: int, i: int)
    requires start <= i && 0 <= i < |lines|
    ensures Context(lines, start, i + 1) == Context(lines, start, i) + [lines[i]]
  {
  }

  /** The unchanged lines before edit i. */
  function Gap(edits: seq<LineEdit>, i: nat): int
    requires i < |edits|
  {
    edits[i].start - End(edits[..i])
  }

  /** Edit i opens a hunk: it is the first, or too far from the one before. */
  predicate Opens(edits: seq<LineEdit>, context: nat, i: nat)
    requires i < |edits|
  {
    i == 0 || Gap(edits, i) > 2 * context
  }

  /** The edits, among the first k, that open the hunks. */
  function Openers(edits: seq<LineEdit>, context: nat, k: nat): seq<nat>
    requires k <= |edits|
  {
    if k == 0 then []
    else Openers(edits, context, k - 1) + (if Opens(edits, context, k - 1) then [k - 1] else [])
  }

  /** The unchanged lines inside hunks that the first k edits make: between edits that share one. */
  function Joined(edits: seq<LineEdit>, context: nat, k: nat): int
    requires k <= |edits|
  {
    if k == 0 then 0
    else Joined(edits, context, k - 1) + (if Opens(edits, context, k - 1) then 0 else Gap(edits, k - 1))
  }

  /** One hunk per opener. It starts with the context before its opener, the hunk before it has ended
      with the context behind its own last edit, and its new-side number lags behind by the lines
      that were joined before it. */
  ghost predicate Numbered(lines: seq<Line>, edits: seq<LineEdit>, context: nat, k: nat, hunks: seq<Hunk>)
    requires k <= |edits|
  {
    && |hunks| == |Openers(edits, context, k)|
    && forall i :: 0 <= i < |hunks| ==> Lags(lines, edits, context, hunks, i, Openers(edits, context, k)[i])
  }

  ghost predicate Lags(lines: seq<Line>, edits: seq<LineEdit>, context: nat, hunks: seq<Hunk>, i: nat, opener: nat)
    requires i < |hunks|
  {
    && opener < |edits| && hunks[i].from == 1 + Clamp(edits[opener].start - context, 0, edits[opener].start)
    && hunks[i].to == TrueTo(lines, hunks, i) - Joined(edits, context, opener)
    && (i > 0 ==> EndsAt(lines, hunks[..i], Behind(lines, edits[..opener], context)))
  }

  /** The last hunk ends at line pos, counted from zero. */
  ghost predicate EndsAt(lines: seq<Line>, hunks: seq<Hunk>, pos: int) {
    PatchUpTo(lines, hunks).Some? && PatchUpTo(lines, hunks).value.pos == pos
  }

  /** The end of the context behind the last edit. */
  function Behind(lines: seq<Line>, edits: seq<LineEdit>, context: nat): int {
    Clamp(End(edits) + context, 0, |lines|)
  }

  lemma WithOpsNumbers(lines: seq<Line>, edits: seq<LineEdit>, context: nat, k: nat, hunks: seq<Hunk>, ops: seq<Op>)
    requires k <= |edits| && hunks != [] && Numbered(lines, edits, context, k, hunks)
    ensures Numbered(lines, edits, context, k, WithOps(hunks, ops))
  {
    var after := WithOps(hunks, ops);
    forall i | 0 <= i < |hunks| ensures Lags(lines, edits, context, after, i, Openers(edits, context, k)[i]) {
      assert Lags(lines, edits, context, hunks, i, Openers(edits, context, k)[i]);
      assert after[..i] == hunks[..i];
    }
  }

  lemma PushNumbers(lines: seq<Line>, edits: seq<LineEdit>, context: nat, k: nat, hunks: seq<Hunk>, h: Hunk)
    requires k < |edits| && Opens(edits, context, k) && Numbered(lines, edits, context, k, hunks)
    requires PatchUpTo(lines, hunks).Some?
    requires var c := PatchUpTo(lines, hunks).value;
             h.to == |c.out| + h.from - c.pos - Joined(edits, context, k)
    requires h.from == 1 + Clamp(edits[k].start - context, 0, edits[k].start)
    requires hunks != [] ==> EndsAt(lines, hunks, Behind(lines, edits[..k], context))
    ensures Numbered(lines, edits, context, k + 1, hunks + [h])
  {
    var after, openers := hunks + [h], Openers(edits, context, k + 1);
    assert openers == Openers(edits, context, k) + [k];
    assert after[..|hunks|] == hunks;
    forall i | 0 <= i < |after| ensures Lags(lines, edits, context, after, i, openers[i]) {
      if i < |hunks| {
        assert Lags(lines, edits, context, hunks, i, Openers(edits, context, k)[i]);
        assert after[..i] == hunks[..i];
      }
    }
  }

  // ----- the loop over the edits

  /** The last hunk, or a new one, is brought to the start of edit k. */
  method Approach(lines: seq<Line>, edits: seq<LineEdit>, context: nat, k: nat, hunks: seq<Hunk>, last: nat,
                  toLine: int, ghost out: seq<Line>) returns (next: seq<Hunk>, to: int)
    requires k < |edits| && last == End(edits[..k]) && last <= edits[k].start <= |lines|
    requires Reaches(lines, hunks, out, last) && Numbered(lines, edits, context, k, hunks)
    requires (hunks == [] <==> k == 0) && toLine == |out| - Joined(edits, context, k)
    ensures next != [] && Reaches(lines, next, out + lines[last..edits[k].start], edits[k].start)
    ensures Numbered(lines, edits, context, k + 1, next) && ChangedLines(next) == ChangedLines(hunks)
    ensures to == |out| + edits[k].start - last - Joined(edits, context, k + 1)
  {
    var start := edits[k].start;
    to := toLine;
    if hunks != [] && start == last {
      next := hunks;
      assert out + lines[last..start] == out;
    } else if hunks != [] && start <= last + 2 * context {
      next := AddContext(lines, edits, context, k, hunks, last, start, out);
    } else {
      to := toLine + start - last;
      next := Break(lines, edits, context, k, hunks, last, to, out);
    }
  }

  /** Its last branch: the context of the open hunk, if there is one, and a new hunk. */
  method Break(lines: seq<Line>, edits: seq<LineEdit>, context: nat, k: nat, hunks: seq<Hunk>, last: nat, to: int,
               ghost out: seq<Line>) returns (next: seq<Hunk>)
    requires k < |edits| && last == End(edits[..k]) && last <= edits[k].start <= |lines| && Opens(edits, context, k)
    requires Reaches(lines, hunks, out, last) && Numbered(lines, edits, context, k, hunks)
    requires (hunks == [] <==> k == 0) && to == |out| + edits[k].start - last - Joined(edits, context, k)
    ensures next != [] && Reaches(lines, next, out + lines[last..edits[k].start], edits[k].start)
    ensures Numbered(lines, edits, context, k + 1, next) && ChangedLines(next) == ChangedLines(hunks)
  {
    if hunks == [] {
      next := Open(lines, edits, context, k, hunks, to, out, last);
    } else {
      ghost var pos := Clamp(last + context, 0, |lines|);
      ghost var done := out + lines[last..pos];
      assert last + 2 * context < edits[k].start;
      next := AddContext(lines, edits, context, k, hunks, last, last + context, out);
      next := Open(lines, edits, context, k, next, to, done, pos);
      JoinAfter(out, lines, last, pos, edits[k].start);
    }
  }

  lemma JoinAfter(out: seq<Line>, lines: seq<Line>, i: nat, j: nat, k: nat)
    requires i <= j <= k <= |lines|
    ensures out + lines[i..k] == out + lines[i..j] + lines[j..k]
    ensures out + lines[i..i] == out
  {
    Join(lines, i, j, k);
    Associative(out, lines[i..j], lines[j..k]);
  }

  /** Context behind the last change. */
  method AddContext(lines: seq<Line>, ghost edits: seq<LineEdit>, ghost context: nat, ghost k: nat, hunks: seq<Hunk>,
                    last: nat, end: nat, ghost out: seq<Line>) returns (next: seq<Hunk>)
    requires k <= |edits| && hunks != [] && last <= end && last <= |lines|
    requires Reaches(lines, hunks, out, last) && Numbered(lines, edits, context, k, hunks)
    ensures next != [] && Numbered(lines, edits, context, k, next) && ChangedLines(next) == ChangedLines(hunks)
    ensures var pos := Clamp(end, 0, |lines|);
            Reaches(lines, next, out + lines[last..pos], pos)
  {
    var ops, _ := AddEqualLines([], lines, last, end);
    ghost var pos := Clamp(end, 0, |lines|);
    assert ops == Ops(Equal, lines[last..pos]);
    Carry(lines, hunks, out, last, pos);
    WithOpsNumbers(lines, edits, context, k, hunks, ops);
    ChangedWith(hunks, ops);
    ChangedOps(Equal, lines[last..pos]);
    next := WithOps(hunks, ops);
  }

  /** A new hunk with the context before edit k. */
  method Open(lines: seq<Line>, edits: seq<LineEdit>, context: nat, k: nat, hunks: seq<Hunk>, to: int,
              ghost done: seq<Line>, ghost pos: nat) returns (next: seq<Hunk>)
    requires k < |edits| && edits[k].start <= |lines| && Opens(edits, context, k)
    requires Reaches(lines, hunks, done, pos) && Numbered(lines, edits, context, k, hunks)
    requires pos + context <= edits[k].start || pos == 0
    requires hunks != [] ==> pos == Behind(lines, edits[..k], context)
    requires to == |done| + edits[k].start - pos - Joined(edits, context, k)
    ensures next != [] && Numbered(lines, edits, context, k + 1, next) && ChangedLines(next) == ChangedLines(hunks)
    ensures Reaches(lines, next, done + lines[pos..edits[k].start], edits[k].start)
  {
    var start := edits[k].start;
    var ops, delta := AddEqualLines([], lines, start - context, start);
    var h := Hunk(start + 1 - delta, to + 1 - delta, ops);
    ContextBefore(lines, start, context);
    Begin(lines, hunks, done, pos, start, h);
    PushNumbers(lines, edits, context, k, hunks, h);
    OpenCounts(hunks, h, lines[start - delta..start]);
    next := hunks + [h];
  }

  lemma OpenCounts(hunks: seq<Hunk>, h: Hunk, kept: seq<Line>)
    requires h.ops == Ops(Equal, kept)
    ensures ChangedLines(hunks + [h]) == ChangedLines(hunks)
  {
    FrontOfAppend(hunks, h);
    ChangedOps(Equal, kept);
  }

  lemma ContextBefore(lines: seq<Line>, start: nat, context: nat)
    requires start <= |lines|
    ensures var kept := Context(lines, start - context, start);
            |kept| <= start && kept == lines[start - |kept|..start] && [] + Ops(Equal, kept) == Ops(Equal, kept)
            && |kept| == start - Clamp(start - context, 0, start)
  {
  }

  lemma Carry(lines: seq<Line>, hunks: seq<Hunk>, out: seq<Line>, last: nat, end: nat)
    requires hunks != [] && Reaches(lines, hunks, out, last) && last <= end <= |lines|
    ensures Reaches(lines, WithOps(hunks, Ops(Equal, lines[last..end])), out + lines[last..end], end)
  {
    OpsSides(Equal, lines[last..end]);
    Continue(lines, hunks, Ops(Equal, lines[last..end]), out, last, end);
  }

  lemma BeginStep(lines: seq<Line>, out: seq<Line>, pos: nat, start: nat, h: Hunk)
    requires pos < h.from <= start + 1 <= |lines| + 1 && h.ops == Ops(Equal, lines[h.from - 1..start])
    ensures PatchStep(lines, Cursor(out, pos), h) == Some(Cursor(out + lines[pos..start], start))
  {
    var first := h.from - 1;
    OpsSides(Equal, lines[first..start]);
    JoinAfter(out, lines, pos, first, start);
    StepIs(lines, Cursor(out, pos), h, lines[first..start], lines[first..start]);
  }

  lemma Begin(lines: seq<Line>, hunks: seq<Hunk>, out: seq<Line>, pos: nat, start: nat, h: Hunk)
    requires Reaches(lines, hunks, out, pos) && pos < h.from <= start + 1 <= |lines| + 1
    requires h.ops == Ops(Equal, lines[h.from - 1..start])
    ensures Reaches(lines, hunks + [h], out + lines[pos..start], start)
  {
    BeginStep(lines, out, pos, start, h);
    Push(lines, hunks, h);
  }

  /** The deleted and inserted lines of an edit. */
  method Change(lines: seq<Line>, e: LineEdit) returns (ops: seq<Op>)
    requires e.start <= e.end <= |lines|
    ensures ops == Ops(Delete, lines[e.start..e.end]) + Ops(Insert, e.ins)
  {
    ops := AddOps([], Delete, lines[e.start..e.end]);
    NoneBefore(Ops(Delete, lines[e.start..e.end]));
    ops := AddOps(ops, Insert, e.ins);
  }

  /** The lines one by one, all with the same kind. */
  method AddOps(ops: seq<Op>, kind: Kind, lines: seq<Line>) returns (out: seq<Op>)
    ensures out == ops + Ops(kind, lines)
  {
    out := ops;
    assert lines[..0] == [] && ops + [] == ops;
    for i := 0 to |lines|
      invariant out == ops + Ops(kind, lines[..i])
    {
      Next(lines, i);
      OpsNext(kind, lines[..i], lines[i]);
      Associative(ops, Ops(kind, lines[..i]), [Op(kind, lines[i])]);
      out := out + [Op(kind, lines[i])];
    }
    assert lines[..|lines|] == lines;
  }

  lemma NoneBefore(s: seq<Op>)
    ensures [] + s == s
  {
  }

  lemma ChangeReaches(lines: seq<Line>, hunks: seq<Hunk>, out: seq<Line>, e: LineEdit)
    requires hunks != [] && e.start <= e.end <= |lines| && Reaches(lines, hunks, out, e.start)
    ensures Reaches(lines, WithOps(hunks, Ops(Delete, lines[e.start..e.end]) + Ops(Insert, e.ins)), out + e.ins, e.end)
  {
    var dels, inss := Ops(Delete, lines[e.start..e.end]), Ops(Insert, e.ins);
    OpsSides(Delete, lines[e.start..e.end]);
    OpsSides(Insert, e.ins);
    OpsAppend(dels, inss);
    NoneBeside(lines[e.start..e.end]);
    NoneBeside(e.ins);
    Continue(lines, hunks, dels + inss, out, e.start, e.end);
  }

  lemma ChangeBuilt(lines: seq<Line>, edits: seq<LineEdit>, context: nat, k: nat, hunks: seq<Hunk>,
                    out: seq<Line>, e: LineEdit, ops: seq<Op>, after: seq<Line>)
    requires after == out + e.ins
    requires k <= |edits| && hunks != [] && Numbered(lines, edits, context, k, hunks)
    requires e.start <= e.end <= |lines| && Reaches(lines, hunks, out, e.start)
    requires ops == Ops(Delete, lines[e.start..e.end]) + Ops(Insert, e.ins)
    ensures WithOps(hunks, ops) != [] && Numbered(lines, edits, context, k, WithOps(hunks, ops))
    ensures Reaches(lines, WithOps(hunks, ops), after, e.end)
  {
    ChangeReaches(lines, hunks, out, e);
    WithOpsNumbers(lines, edits, context, k, hunks, ops);
  }

  lemma NoneBeside(s: seq<Line>)
    ensures s + [] == s && [] + s == s
  {
  }

  /** The state of the loop over the edits, before edit k. */
  ghost predicate Built(lines: seq<Line>, edits: seq<LineEdit>, context: nat, k: nat, hunks: seq<Hunk>, last: nat,
                        toLine: int)
    requires k <= |edits| && Valid(edits[..k], |lines|)
  {
    && last == End(edits[..k]) <= |lines| && (hunks == [] <==> k == 0)
    && Reaches(lines, hunks, Out(lines, edits[..k]), last)
    && Numbered(lines, edits, context, k, hunks)
    && toLine == |Out(lines, edits[..k])| - Joined(edits, context, k)
    && ChangedLines(hunks) == Cost(edits[..k])
  }

  lemma NextEdit(lines: seq<Line>, edits: seq<LineEdit>, k: nat)
    requires Valid(edits, |lines|) && k < |edits|
    ensures Valid(edits[..k], |lines|) && Valid(edits[..k + 1], |lines|) && End(edits[..k + 1]) == edits[k].end
    ensures End(edits[..k]) <= edits[k].start <= edits[k].end <= |lines|
    ensures Out(lines, edits[..k + 1]) ==
            Out(lines, edits[..k]) + lines[End(edits[..k])..edits[k].start] + edits[k].ins
    ensures Cost(edits[..k + 1]) == Cost(edits[..k]) + edits[k].end - edits[k].start + |edits[k].ins|
  {
    ValidPrefix(edits, |lines|, k);
    Next(edits, k);
    FrontOfAppend(edits[..k], edits[k]);
    Append(lines, edits[..k], edits[k]);
  }

  /** Its body. */
  method AddEdit(lines: seq<Line>, edits: seq<LineEdit>, context: nat, k: nat, hunks: seq<Hunk>, last: nat, toLine: int)
    returns (next: seq<Hunk>, nextLast: nat, nextTo: int)
    requires Valid(edits, |lines|) && k < |edits| && Valid(edits[..k], |lines|)
    requires Built(lines, edits, context, k, hunks, last, toLine)
    ensures Valid(edits[..k + 1], |lines|)
    ensures Built(lines, edits, context, k + 1, next, nextLast, nextTo)
  {
    var e := edits[k];
    ghost var out := Out(lines, edits[..k]);
    NextEdit(lines, edits, k);
    next, nextTo := Approach(lines, edits, context, k, hunks, last, toLine, out);
    next := AddChange(lines, edits, context, k + 1, next, e, out + lines[last..e.start], Out(lines, edits[..k + 1]));
    nextLast, nextTo := e.end, nextTo + |e.ins|;
  }

  method AddChange(lines: seq<Line>, ghost edits: seq<LineEdit>, ghost context: nat, ghost k: nat, hunks: seq<Hunk>,
                   e: LineEdit, ghost out: seq<Line>, ghost after: seq<Line>) returns (next: seq<Hunk>)
    requires k <= |edits| && hunks != [] && Numbered(lines, edits, context, k, hunks)
    requires e.start <= e.end <= |lines| && Reaches(lines, hunks, out, e.start) && after == out + e.ins
    ensures next != [] && Numbered(lines, edits, context, k, next) && Reaches(lines, next, after, e.end)
    ensures ChangedLines(next) == ChangedLines(hunks) + e.end - e.start + |e.ins|
  {
    var ops := Change(lines, e);
    ChangeBuilt(lines, edits, context, k, hunks, out, e, ops, after);
    ChangeCounts(hunks, lines[e.start..e.end], e.ins);
    next := WithOps(hunks, ops);
  }

  /** toHunks: the hunks patch the lines exactly as the edits do. */
  method ToHunks(lines: seq<Line>, edits: seq<LineEdit>, context: nat) returns (hunks: seq<Hunk>)
    requires Valid(edits, |lines|)
    ensures Patch(lines, hunks) == Some(Apply(lines, edits)) && ChangedLines(hunks) == Cost(edits)
    ensures Numbered(lines, edits, context, |edits|, hunks)
    ensures hunks != [] ==> EndsAt(lines, hunks, Behind(lines, edits, context))
  {
    hunks := [];
    var last: nat, toLine := 0, 0;
    BuiltNone(lines, edits, context);
    for k := 0 to |edits|
      invariant Valid(edits[..k], |lines|) && Built(lines, edits, context, k, hunks, last, toLine)
    {
      hunks, last, toLine := AddEdit(lines, edits, context, k, hunks, last, toLine);
    }
    BuiltAll(lines, edits, context, hunks, last, toLine);
    hunks := Close(lines, edits, context, hunks, last);
  }

  lemma BuiltNone(lines: seq<Line>, edits: seq<LineEdit>, context: nat)
    ensures Valid(edits[..0], |lines|) && Built(lines, edits, context, 0, [], 0, 0)
  {
    assert edits[..0] == [];
  }

  lemma BuiltAll(lines: seq<Line>, edits: seq<LineEdit>, context: nat, hunks: seq<Hunk>, last: nat, toLine: int)
    requires Valid(edits[..|edits|], |lines|) && Built(lines, edits, context, |edits|, hunks, last, toLine)
    ensures Valid(edits, |lines|) && last == End(edits) <= |lines| && Reaches(lines, hunks, Out(lines, edits), last)
    ensures Numbered(lines, edits, context, |edits|, hunks) && ChangedLines(hunks) == Cost(edits)
  {
    assert edits[..|edits|] == edits;
  }

  /** The context behind the last edit. */
  method Close(lines: seq<Line>, ghost edits: seq<LineEdit>, context: nat, hunks: seq<Hunk>, last: nat)
    returns (all: seq<Hunk>)
    requires Valid(edits, |lines|) && last == End(edits) <= |lines| && Reaches(lines, hunks, Out(lines, edits), last)
    requires Numbered(lines, edits, context, |edits|, hunks)
    ensures Patch(lines, all) == Some(Apply(lines, edits)) && ChangedLines(all) == ChangedLines(hunks)
    ensures Numbered(lines, edits, context, |edits|, all)
    ensures all != [] ==> EndsAt(lines, all, Behind(lines, edits, context))
  {
    all := hunks;
    ghost var pos := last;
    if hunks != [] {
      pos := Clamp(last + context, 0, |lines|);
      all := AddContext(lines, edits, context, |edits|, hunks, last, last + context, Out(lines, edits));
    } else {
      assert Out(lines, edits) == Out(lines, edits) + lines[last..pos];
    }
    Finish(lines, edits, all, pos);
  }

  lemma Finish(lines: seq<Line>, edits: seq<LineEdit>, hunks: seq<Hunk>, pos: nat)
    requires Valid(edits, |lines|) && End(edits) <= pos <= |lines|
    requires Reaches(lines, hunks, Out(lines, edits) + lines[End(edits)..pos], pos)
    ensures Patch(lines, hunks) == Some(Apply(lines, edits))
  {
    JoinAfter(Out(lines, edits), lines, End(edits), pos, |lines|);
    assert lines[pos..] == lines[pos..|lines|] && lines[End(edits)..] == lines[End(edits)..|lines|];
  }

  lemma NoHunks(lines: seq<Line>, context: nat)
    ensures Patch(lines, []) == Some(lines) && Numbered(lines, [], context, 0, [])
  {
    assert [] + lines[0..] == lines;
  }

  // ----- when the numbers are right

  ghost predicate NumbersRight(lines: seq<Line>, hunks: seq<Hunk>) {
    forall i :: 0 <= i < |hunks| ==> hunks[i].to == TrueTo(lines, hunks, i)
  }

  /** Unchanged lines between two edits of one hunk, and a later edit that opens another hunk. */
  predicate JoinsBeforeBreak(edits: seq<LineEdit>, context: nat) {
    exists i, j :: 0 < i < j < |edits| && 0 < Gap(edits, i) <= 2 * context < Gap(edits, j)
  }

  lemma GapsNonNegative(edits: seq<LineEdit>, n: nat)
    requires Valid(edits, n)
    ensures forall i :: 0 <= i < |edits| ==> Gap(edits, i) >= 0
  {
    forall i | 0 <= i < |edits| ensures Gap(edits, i) >= 0 {
      ValidPrefix(edits, n, i);
    }
  }

  lemma {:induction false} JoinedZero(edits: seq<LineEdit>, context: nat, k: nat)
    requires k <= |edits| && forall i :: 0 <= i < |edits| ==> Gap(edits, i) >= 0
    ensures Joined(edits, context, k) >= 0
    ensures Joined(edits, context, k) == 0 <==>
            forall i :: 0 < i < k ==> Gap(edits, i) == 0 || Gap(edits, i) > 2 * context
    decreases k
  {
    if k > 0 {
      JoinedZero(edits, context, k - 1);
    }
  }

  lemma {:induction false} OpenersAre(edits: seq<LineEdit>, context: nat, k: nat)
    requires k <= |edits|
    ensures forall j :: j in Openers(edits, context, k) <==> 0 <= j < k && Opens(edits, context, j)
    decreases k
  {
    if k > 0 {
      OpenersAre(edits, context, k - 1);
    }
  }

  /** The new-side line numbers of all hunks are right exactly when no unchanged lines were joined
      into a hunk that another one follows. */
  lemma NumbersExact(lines: seq<Line>, edits: seq<LineEdit>, context: nat, hunks: seq<Hunk>)
    requires Valid(edits, |lines|) && Numbered(lines, edits, context, |edits|, hunks)
    ensures NumbersRight(lines, hunks) <==> !JoinsBeforeBreak(edits, context)
  {
    var openers := Openers(edits, context, |edits|);
    GapsNonNegative(edits, |lines|);
    OpenersAre(edits, context, |edits|);
    if JoinsBeforeBreak(edits, context) {
      var i, j :| 0 < i < j < |edits| && 0 < Gap(edits, i) <= 2 * context < Gap(edits, j);
      assert Opens(edits, context, j);
      var n :| 0 <= n < |openers| && openers[n] == j;
      JoinedZero(edits, context, j);
      assert Lags(lines, edits, context, hunks, n, j);
    } else {
      forall n | 0 <= n < |hunks| ensures hunks[n].to == TrueTo(lines, hunks, n) {
        var j := openers[n];
        assert j in openers;
        JoinedZero(edits, context, j);
        assert Lags(lines, edits, context, hunks, n, j);
      }
    }
  }
}
