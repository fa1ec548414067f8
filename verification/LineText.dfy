/** The random line texts of the diff vectors: how a text is cut into lines, and how recipes draw
    lines and edit them. */
module LineText {
  import opened Words
  import opened SplitMix
  import Collections

  const NL: Byte := 10

  type Line = seq<Byte>

  function Concat(lines: seq<Line>): seq<Byte> {
    if lines == [] then [] else lines[0] + Concat(lines[1..])
  }

  // ----- cutting a text into lines

  /** How many bytes a Go range loop consumes at i: a valid UTF-8 sequence, or one byte. */
  function RuneWidth(text: seq<Byte>, i: nat): (w: nat)
    requires i < |text|
    ensures 1 <= w && i + w <= |text|
    ensures forall j :: i < j < i + w ==> text[j] >= 0x80
  {
    var b := text[i];
    var room := |text| - i;
    if 0xC2 <= b <= 0xDF && room >= 2 && Continues(text[i + 1], 0x80, 0xBF) then 2
    else if 0xE0 <= b <= 0xEF && room >= 3 &&
            Continues(text[i + 1], if b == 0xE0 then 0xA0 else 0x80, if b == 0xED then 0x9F else 0xBF) &&
            Continues(text[i + 2], 0x80, 0xBF) then 3
    else if 0xF0 <= b <= 0xF4 && room >= 4 &&
            Continues(text[i + 1], if b == 0xF0 then 0x90 else 0x80, if b == 0xF4 then 0x8F else 0xBF) &&
            Continues(text[i + 2], 0x80, 0xBF) && Continues(text[i + 3], 0x80, 0xBF) then 4
    else 1
  }

  predicate Continues(b: Byte, lo: int, hi: int)
    requires lo >= 0x80
  {
    lo <= b <= hi
  }

  /** A line as it stands in a text: not empty, and a newline only at its end. */
  predicate IsLine(l: Line) {
    l != [] && forall i :: 0 <= i < |l| - 1 ==> l[i] != NL
  }

  predicate Ended(l: Line) {
    l != [] && l[|l| - 1] == NL
  }

  /** Lines of a text: all but the last end in a newline. */
  predicate AreLines(lines: seq<Line>) {
    && (forall i :: 0 <= i < |lines| ==> IsLine(lines[i]))
    && (forall i :: 0 <= i < |lines| - 1 ==> Ended(lines[i]))
  }

  /** offsets marks where each line starts, and the end of the text. */
  ghost predicate AreOffsets(offsets: seq<int>, lines: seq<Line>) {
    && |offsets| == |lines| + 1
    && forall k :: 0 <= k < |offsets| ==> offsets[k] == |Concat(lines[..k])|
  }

  method SplitLines(text: seq<Byte>) returns (lines: seq<Line>, offsets: seq<int>)
    ensures Concat(lines) == text && AreLines(lines)
    ensures AreOffsets(offsets, lines)
    ensures lines == CutLines(text)
  {
    lines, offsets := [], [0];
    var start := 0;
    var i := 0;
    while i < |text|
      invariant 0 <= start <= i <= |text|
      invariant Concat(lines) == text[..start] && AreOffsets(offsets, lines)
      invariant AreLines(lines) && forall k :: 0 <= k < |lines| ==> Ended(lines[k])
      invariant forall j :: start <= j < i ==> text[j] != NL
      decreases |text| - i
    {
      if text[i] == NL {
        var end := i + 1;
        Cut(text, lines, offsets, start, end);
        lines, offsets := lines + [text[start..end]], offsets + [end];
        start := end;
      }
      i := i + RuneWidth(text, i);
    }
    if start < |text| {
      Cut(text, lines, offsets, start, |text|);
      lines := lines + [text[start..]];
      offsets := offsets + [|text|];
    }
    assert text[..|text|] == text;
    LinesAreUnique(lines, CutLines(text));
  }

  lemma Cut(text: seq<Byte>, lines: seq<Line>, offsets: seq<int>, start: nat, end: nat)
    requires start < end <= |text| && Concat(lines) == text[..start] && AreOffsets(offsets, lines)
    ensures Concat(lines + [text[start..end]]) == text[..end]
    ensures AreOffsets(offsets + [end], lines + [text[start..end]])
  {
    var longer := lines + [text[start..end]];
    ConcatAppend(lines, text[start..end]);
    assert text[..end] == text[..start] + text[start..end];
    assert longer[..|longer|] == longer;
    forall k | 0 <= k < |offsets| ensures longer[..k] == lines[..k] {}
  }

  lemma {:induction false} ConcatAppend(lines: seq<Line>, l: Line)
    ensures Concat(lines + [l]) == Concat(lines) + l
  {
    if lines == [] {
      assert [] + [l] == [l];
      assert Concat([l]) == l + Concat([]);
    } else {
      ConcatAppend(lines[1..], l);
      assert (lines + [l])[1..] == lines[1..] + [l];
    }
  }

  /** A text has one cut into lines. */
  lemma {:induction false} LinesAreUnique(a: seq<Line>, b: seq<Line>)
    requires AreLines(a) && AreLines(b) && Concat(a) == Concat(b)
    ensures a == b
    decreases |a| + |b|
  {
    if a != [] && b != [] {
      FirstLine(a, b);
      FirstLine(b, a);
      var l := a[0];
      assert Concat(a)[..|l|] == l && Concat(b)[..|l|] == b[0];
      assert Concat(a)[|l|..] == Concat(a[1..]) && Concat(b)[|l|..] == Concat(b[1..]);
      LinesAreUnique(a[1..], b[1..]);
    }
  }

  lemma FirstLine(a: seq<Line>, b: seq<Line>)
    requires AreLines(a) && AreLines(b) && Concat(a) == Concat(b) && a != [] && b != []
    ensures |a[0]| <= |b[0]|
  {
    assert b[0][|b[0]| - 1] == Concat(b)[|b[0]| - 1];
    assert |b| == 1 ==> Concat(b) == b[0];
  }

  /** The end of the line that p lies in: behind the next newline, or the end of the text. */
  function LineEnd(text: seq<Byte>, p: nat): (e: nat)
    requires p <= |text|
    ensures p <= e <= |text| && (p < |text| ==> p < e)
    ensures forall i :: p <= i < e - 1 ==> text[i] != NL
    ensures e == |text| || (p < e && text[e - 1] == NL)
    decreases |text| - p
  {
    if p == |text| then p else if text[p] == NL then p + 1 else LineEnd(text, p + 1)
  }

  /** The lines of a text. */
  function CutLines(text: seq<Byte>): (lines: seq<Line>)
    ensures AreLines(lines) && Concat(lines) == text
    decreases |text|
  {
    if text == [] then []
    else
      var n := LineEnd(text, 0);
      var rest := CutLines(text[n..]);
      assert text == text[..n] + text[n..];
      [text[..n]] + rest
  }

  // ----- alphabets and rendering

  function Newlines(l: Line): nat {
    if l == [] then 0 else Newlines(l[..|l| - 1]) + (if l[|l| - 1] == NL then 1 else 0)
  }

  /** What every alphabet must be: distinct lines, each with one newline, at its end. */
  predicate GoodAlphabet(lines: seq<Line>) {
    && (forall i :: 0 <= i < |lines| ==> IsLine(lines[i]) && Ended(lines[i]))
    && (forall i, j :: 0 <= i < j < |lines| ==> lines[i] != lines[j])
  }

  /** The check of udAlphabets: no line repeated, each with one newline and ending in it. */
  method CheckAlphabet(lines: seq<Line>) returns (ok: bool)
    ensures ok <==> GoodAlphabet(lines)
  {
    for n := 0 to |lines|
      invariant GoodAlphabet(lines[..n])
    {
      var l := lines[n];
      OneNewline(l);
      assert lines[..n + 1] == lines[..n] + [l];
      if l in lines[..n] || Newlines(l) != 1 || !(|l| > 0 && l[|l| - 1] == NL) {
        return false;
      }
    }
    assert lines[..|lines|] == lines;
    return true;
  }

  lemma OneNewline(l: Line)
    ensures IsLine(l) && Ended(l) <==> Newlines(l) == 1 && |l| > 0 && l[|l| - 1] == NL
  {
    if l != [] {
      NoNewline(l[..|l| - 1]);
    }
  }

  lemma {:induction false} NoNewline(l: Line)
    ensures Newlines(l) == 0 <==> forall i :: 0 <= i < |l| ==> l[i] != NL
  {
    if l != [] {
      NoNewline(l[..|l| - 1]);
    }
  }

  function HexDigit(d: int): Byte
    requires 0 <= d < 16
  {
    if d < 10 then 48 + d else 87 + d
  }

  function Hex(v: nat, w: nat): (s: seq<Byte>)
    ensures |s| == w && forall i :: 0 <= i < w ==> s[i] != NL
    decreases v, w
  {
    if w == 0 then [] else Hex(v / 16, w - 1) + [HexDigit(v % 16)]
  }

  /** Where a recipe takes its lines from: an alphabet, or the value itself in 16 hex digits. */
  datatype Source = Random | Alphabet(lines: seq<Line>)

  predicate GoodSource(src: Source) {
    src.Alphabet? ==> GoodAlphabet(src.lines)
  }

  predicate Draws(src: Source, v: Word) {
    src.Alphabet? ==> v < |src.lines|
  }

  function LineOf(src: Source, v: Word): Line
    requires Draws(src, v)
  {
    match src
    case Random => Hex(v, 16) + [NL]
    case Alphabet(lines) => lines[v]
  }

  function LinesOf(src: Source, vals: seq<Word>): seq<Line>
    requires forall v :: v in vals ==> Draws(src, v)
  {
    if vals == [] then [] else [LineOf(src, vals[0])] + LinesOf(src, vals[1..])
  }

  method Render(src: Source, vals: seq<Word>) returns (b: seq<Byte>)
    requires forall v :: v in vals ==> Draws(src, v)
    ensures b == Concat(LinesOf(src, vals))
  {
    b := [];
    ghost var all := Concat(LinesOf(src, vals));
    for i := 0 to |vals|
      invariant b + Concat(LinesOf(src, vals[i..])) == all
    {
      assert vals[i] in vals;
      assert vals[i..][1..] == vals[i + 1..];
      ghost var rest := Concat(LinesOf(src, vals[i + 1..]));
      Collections.Associative(b, LineOf(src, vals[i]), rest);
      match src
      case Random => b := b + (Hex(vals[i], 16) + [NL]);
      case Alphabet(lines) => b := b + lines[vals[i]];
    }
    assert vals[|vals|..] == [];
  }

  function StripEOL(b: seq<Byte>): seq<Byte> {
    if |b| > 0 && b[|b| - 1] == NL then b[..|b| - 1] else b
  }

  /** Rendered values are ended lines, one each. */
  lemma {:induction false} RenderedLines(src: Source, vals: seq<Word>)
    requires GoodSource(src) && forall v :: v in vals ==> Draws(src, v)
    ensures |LinesOf(src, vals)| == |vals|
    ensures forall i :: 0 <= i < |vals| ==> LinesOf(src, vals)[i] == LineOf(src, vals[i])
    ensures AreLines(LinesOf(src, vals)) && forall i :: 0 <= i < |vals| ==> Ended(LinesOf(src, vals)[i])
  {
    if vals != [] {
      assert vals[0] in vals;
      OneRendered(src, vals[0]);
      RenderedLines(src, vals[1..]);
    }
  }

  lemma OneRendered(src: Source, v: Word)
    requires GoodSource(src) && Draws(src, v)
    ensures IsLine(LineOf(src, v)) && Ended(LineOf(src, v))
  {
  }

  /** Splitting what was rendered gives the rendered lines back. */
  lemma SplitAfterRender(src: Source, vals: seq<Word>, lines: seq<Line>)
    requires GoodSource(src) && forall v :: v in vals ==> Draws(src, v)
    requires AreLines(lines) && Concat(lines) == Concat(LinesOf(src, vals))
    ensures lines == LinesOf(src, vals)
  {
    RenderedLines(src, vals);
    LinesAreUnique(lines, LinesOf(src, vals));
  }

  /** The lines after one final newline is dropped: the last line is shorter, or gone when it was
      only a newline. */
  function Stripped(lines: seq<Line>): seq<Line> {
    if lines == [] then []
    else
      var n := |lines| - 1;
      var last := StripEOL(lines[n]);
      if last == [] then lines[..n] else lines[..n] + [last]
  }

  lemma SplitAfterStrip(src: Source, vals: seq<Word>, lines: seq<Line>)
    requires GoodSource(src) && forall v :: v in vals ==> Draws(src, v)
    requires AreLines(lines) && Concat(lines) == StripEOL(Concat(LinesOf(src, vals)))
    ensures lines == Stripped(LinesOf(src, vals))
  {
    RenderedLines(src, vals);
    StripLast(LinesOf(src, vals));
    LinesAreUnique(lines, Stripped(LinesOf(src, vals)));
  }

  lemma StripLast(lines: seq<Line>)
    requires AreLines(lines) && forall i :: 0 <= i < |lines| ==> Ended(lines[i])
    ensures AreLines(Stripped(lines)) && Concat(Stripped(lines)) == StripEOL(Concat(lines))
  {
    StrippedAreLines(lines);
    if lines != [] {
      Collections.FrontAndLast(lines);
      StrippedConcat(lines[..|lines| - 1], lines[|lines| - 1]);
    }
  }

  lemma StrippedAreLines(lines: seq<Line>)
    requires AreLines(lines)
    ensures AreLines(Stripped(lines))
  {
  }

  lemma StrippedConcat(front: seq<Line>, last: Line)
    requires Ended(last)
    ensures Concat(if StripEOL(last) == [] then front else front + [StripEOL(last)]) == StripEOL(Concat(front + [last]))
  {
    ConcatAppend(front, last);
    ConcatAppend(front, StripEOL(last));
    StripConcat(Concat(front), last);
  }

  lemma StripConcat(a: seq<Byte>, b: seq<Byte>)
    requires Ended(b)
    ensures StripEOL(a + b) == a + StripEOL(b)
  {
    assert (a + b)[..|a + b| - 1] == a + b[..|b| - 1];
  }

  lemma {:induction false} HexInjective(v: nat, u: nat, w: nat)
    requires Hex(v, w) == Hex(u, w) && v < Pow2(4 * w) && u < Pow2(4 * w)
    ensures v == u
    decreases w
  {
    if w > 0 {
      var a, b := Hex(v, w), Hex(u, w);
      assert a[..w - 1] == Hex(v / 16, w - 1) && b[..w - 1] == Hex(u / 16, w - 1);
      assert a[w - 1] == HexDigit(v % 16) && b[w - 1] == HexDigit(u % 16);
      assert Pow2(4 * w) == 16 * Pow2(4 * (w - 1)) by {
        assert Pow2(4 * w) == 2 * Pow2(4 * w - 1) == 4 * Pow2(4 * w - 2) == 8 * Pow2(4 * w - 3);
      }
      HexInjective(v / 16, u / 16, w - 1);
    }
  }

  /** Different values make different texts: nothing a recipe drew is lost in its rendering. */
  lemma RenderInjective(src: Source, vals: seq<Word>, other: seq<Word>)
    requires GoodSource(src)
    requires forall v :: v in vals ==> Draws(src, v)
    requires forall v :: v in other ==> Draws(src, v)
    requires Concat(LinesOf(src, vals)) == Concat(LinesOf(src, other))
    ensures vals == other
  {
    RenderedLines(src, vals);
    RenderedLines(src, other);
    LinesAreUnique(LinesOf(src, vals), LinesOf(src, other));
    forall i | 0 <= i < |vals| ensures vals[i] == other[i] {
      assert vals[i] in vals && other[i] in other;
      assert LinesOf(src, vals)[i] == LinesOf(src, other)[i];
      LineInjective(src, vals[i], other[i]);
    }
  }

  lemma LineInjective(src: Source, v: Word, u: Word)
    requires GoodSource(src) && Draws(src, v) && Draws(src, u) && LineOf(src, v) == LineOf(src, u)
    ensures v == u
  {
    if src.Random? {
      assert LineOf(src, v)[..16] == Hex(v, 16);
      assert LineOf(src, u)[..16] == Hex(u, 16);
      Pow2Of64();
      HexInjective(v, u, 16);
    }
  }

  // ----- recipes

  datatype Mode = Independent(newLines: nat) | Edits(edits: nat, maxRun: nat)

  datatype Recipe = Recipe(seed: Word, src: Source, distinct: nat, lines: nat, mode: Mode,
                           stripOld: bool, stripNew: bool)

  /** Recipes that do not divide by zero or read past an alphabet. */
  predicate GoodRecipe(r: Recipe) {
    && (r.src.Alphabet? ==> 0 < r.distinct <= |r.src.lines|)
    && (r.mode.Edits? && r.mode.edits > 0 ==> r.mode.maxRun > 0)
  }

  predicate CanEdit(r: Recipe) {
    GoodRecipe(r) && r.mode.Edits? && r.mode.maxRun > 0
  }

  /** The words a generator hands out, by call number. */
  type Words64 = nat -> Word

  function StreamOf(seed: Word): Words64 {
    k => Output(seed, k)
  }

  ghost predicate Follows(out: Words64, seed: Word) {
    forall k: nat {:trigger Output(seed, k)} :: out(k) == Output(seed, k)
  }

  /** The value drawn by generator call number k. */
  function ValueAt(r: Recipe, out: Words64, k: nat): (v: Word)
    requires GoodRecipe(r)
    ensures Draws(r.src, v)
  {
    Reduced(r, out(k))
  }

  /** v %= distinct, unless the lines are the values themselves. */
  function Reduced(r: Recipe, v: Word): (u: Word)
    requires GoodRecipe(r)
    ensures Draws(r.src, u)
  {
    if r.src.Alphabet? then Mod(v, r.distinct) else v
  }

  function Mod(v: Word, d: nat): (u: Word)
    requires d > 0
    ensures u < d
  {
    v % d
  }

  function ValuesAt(r: Recipe, out: Words64, k: nat, n: nat): (vals: seq<Word>)
    requires GoodRecipe(r)
    ensures |vals| == n
  {
    if n == 0 then [] else ValuesAt(r, out, k, n - 1) + [ValueAt(r, out, k + n - 1)]
  }

  predicate AllDraw(r: Recipe, vals: seq<Word>) {
    forall v :: v in vals ==> Draws(r.src, v)
  }

  /** One edit: where it strikes, how many values it removes, and what it inserts. */
  datatype Edit = Edit(pos: nat, del: nat, ins: seq<Word>)

  function EditAt(r: Recipe, out: Words64, k: nat, len: nat): (e: Edit)
    requires CanEdit(r)
    ensures e.pos + e.del <= len && e.del <= r.mode.maxRun && |e.ins| <= r.mode.maxRun
  {
    var op, pos, run := Mod(out(k), 3), Mod(out(k + 1), len + 1), 1 + Mod(out(k + 2), r.mode.maxRun);
    Edit(pos,
         if op == 0 then 0 else if run < len - pos then run else len - pos,
         if op == 1 then [] else ValuesAt(r, out, k + 3, run))
  }

  function Spliced(vals: seq<Word>, e: Edit): seq<Word>
    requires e.pos + e.del <= |vals|
  {
    vals[..e.pos] + e.ins + vals[e.pos + e.del..]
  }

  datatype Progress = Progress(vals: seq<Word>, calls: nat)

  function AfterEdit(r: Recipe, out: Words64, p: Progress): Progress
    requires CanEdit(r)
  {
    var e := EditAt(r, out, p.calls, |p.vals|);
    Progress(Spliced(p.vals, e), p.calls + 3 + |e.ins|)
  }

  /** The values after n edits, and the generator calls made. */
  function Edited(r: Recipe, out: Words64, p: Progress, n: nat): Progress
    requires GoodRecipe(r) && r.mode.Edits? && n <= r.mode.edits
  {
    if n == 0 then p else AfterEdit(r, out, Edited(r, out, p, n - 1))
  }

  lemma {:induction false} ValuesDraw(r: Recipe, out: Words64, k: nat, n: nat)
    requires GoodRecipe(r)
    ensures AllDraw(r, ValuesAt(r, out, k, n))
    decreases n
  {
    if n > 0 {
      ValuesDraw(r, out, k, n - 1);
    }
  }

  lemma {:induction false} EditedDraws(r: Recipe, out: Words64, p: Progress, n: nat)
    requires GoodRecipe(r) && r.mode.Edits? && n <= r.mode.edits && AllDraw(r, p.vals)
    ensures AllDraw(r, Edited(r, out, p, n).vals)
    decreases n
  {
    if n > 0 {
      EditedDraws(r, out, p, n - 1);
      var q := Edited(r, out, p, n - 1);
      var e := EditAt(r, out, q.calls, |q.vals|);
      ValuesDraw(r, out, q.calls + 3, |e.ins|);
      assert AllDraw(r, e.ins);
    }
  }

  function OldValues(r: Recipe): (vals: seq<Word>)
    requires GoodRecipe(r)
    ensures AllDraw(r, vals)
  {
    ValuesDraw(r, StreamOf(r.seed), 0, r.lines);
    ValuesAt(r, StreamOf(r.seed), 0, r.lines)
  }

  function NewValues(r: Recipe): (vals: seq<Word>)
    requires GoodRecipe(r)
    ensures AllDraw(r, vals)
  {
    match r.mode
    case Independent(n) =>
      ValuesDraw(r, StreamOf(r.seed), r.lines, n);
      ValuesAt(r, StreamOf(r.seed), r.lines, n)
    case Edits(n, _) =>
      EditedDraws(r, StreamOf(r.seed), Progress(OldValues(r), r.lines), n);
      Edited(r, StreamOf(r.seed), Progress(OldValues(r), r.lines), n).vals
  }

  function Text(r: Recipe, vals: seq<Word>, strip: bool): seq<Byte>
    requires AllDraw(r, vals)
  {
    var b := Concat(LinesOf(r.src, vals));
    if strip then StripEOL(b) else b
  }

  /** g has made k of the calls of out. */
  ghost predicate Feeds(g: Generator, r: Recipe, out: Words64, k: nat)
    reads g
  {
    Follows(out, r.seed) && g.state == StateAfter(r.seed, k)
  }

  method NextWord(r: Recipe, g: Generator, ghost out: Words64, ghost k: nat) returns (v: Word)
    requires Feeds(g, r, out, k)
    modifies g
    ensures v == out(k) && Feeds(g, r, out, k + 1)
  {
    v := g.Next();
    assert v == Output(r.seed, k);
  }

  method DrawValues(r: Recipe, g: Generator, n: nat, ghost out: Words64, ghost k: nat) returns (vals: seq<Word>)
    requires GoodRecipe(r) && Feeds(g, r, out, k)
    modifies g
    ensures vals == ValuesAt(r, out, k, n) && Feeds(g, r, out, k + n)
  {
    vals := [];
    for i := 0 to n
      invariant vals == ValuesAt(r, out, k, i) && Feeds(g, r, out, k + i)
    {
      var v := NextWord(r, g, out, k + i);
      if r.src.Alphabet? {
        v := Mod(v, r.distinct);
      }
      vals := vals + [v];
    }
  }

  method DrawEdit(r: Recipe, g: Generator, vals: seq<Word>, ghost out: Words64, ghost k: nat)
    returns (next: seq<Word>, ghost e: Edit)
    requires CanEdit(r) && Feeds(g, r, out, k)
    modifies g
    ensures e == EditAt(r, out, k, |vals|) && next == Spliced(vals, e)
    ensures Feeds(g, r, out, k + 3 + |e.ins|)
  {
    var op, pos, run := DrawPlace(r, g, |vals|, out, k);
    var del := 0;
    if op != 0 {
      del := if run < |vals| - pos then run else |vals| - pos;
    }
    var ins: seq<Word> := [];
    if op != 1 {
      ins := DrawValues(r, g, run, out, k + 3);
    }
    e := Edit(pos, del, ins);
    next := vals[..pos] + ins + vals[pos + del..];
  }

  /** What an edit does, where, and with how many lines. */
  method DrawPlace(r: Recipe, g: Generator, len: nat, ghost out: Words64, ghost k: nat)
    returns (op: nat, pos: nat, run: nat)
    requires CanEdit(r) && Feeds(g, r, out, k)
    modifies g
    ensures op == Mod(out(k), 3) && pos == Mod(out(k + 1), len + 1) && run == 1 + Mod(out(k + 2), r.mode.maxRun)
    ensures Feeds(g, r, out, k + 3)
  {
    var x := NextWord(r, g, out, k);
    var y := NextWord(r, g, out, k + 1);
    var z := NextWord(r, g, out, k + 2);
    op, pos, run := Mod(x, 3), Mod(y, len + 1), 1 + Mod(z, r.mode.maxRun);
  }

  method EditValues(r: Recipe, g: Generator, vals: seq<Word>, ghost out: Words64) returns (next: seq<Word>)
    requires GoodRecipe(r) && r.mode.Edits? && Feeds(g, r, out, r.lines)
    modifies g
    ensures next == Edited(r, out, Progress(vals, r.lines), r.mode.edits).vals
  {
    next := vals;
    ghost var k: int := r.lines;
    for i := 0 to r.mode.edits
      invariant k >= 0 && Feeds(g, r, out, k)
      invariant Edited(r, out, Progress(vals, r.lines), i) == Progress(next, k)
    {
      ghost var e;
      next, e := DrawEdit(r, g, next, out, k);
      k := k + 3 + |e.ins|;
    }
  }

  method Generate(r: Recipe) returns (before: seq<Byte>, after: seq<Byte>)
    requires GoodRecipe(r)
    ensures before == Text(r, OldValues(r), r.stripOld)
    ensures after == Text(r, NewValues(r), r.stripNew)
  {
    var g := new Generator(r.seed);
    ghost var out := StreamOf(r.seed);
    var oldVals := DrawValues(r, g, r.lines, out, 0);
    var newVals: seq<Word>;
    match r.mode {
      case Independent(n) =>
        newVals := DrawValues(r, g, n, out, r.lines);
      case Edits(_, _) =>
        newVals := EditValues(r, g, oldVals, out);
    }
    assert oldVals == OldValues(r) && newVals == NewValues(r);
    before := Render(r.src, oldVals);
    after := Render(r.src, newVals);
    if r.stripOld {
      before := StripEOL(before);
    }
    if r.stripNew {
      after := StripEOL(after);
    }
  }

  // ----- how far apart the two texts of an edited pair are

  predicate Subsequence<T(==)>(a: seq<T>, b: seq<T>)
    decreases |b|
  {
    a == [] || (b != [] && ((a[0] == b[0] && Subsequence(a[1..], b[1..])) || Subsequence(a, b[1..])))
  }

  lemma {:induction false} SubsequenceSelf(a: seq<Word>)
    ensures Subsequence(a, a)
  {
    if a != [] {
      SubsequenceSelf(a[1..]);
    }
  }

  lemma {:induction false} SubsequenceConcat(a: seq<Word>, x: seq<Word>, b: seq<Word>, y: seq<Word>)
    requires Subsequence(a, x) && Subsequence(b, y)
    ensures Subsequence(a + b, x + y)
    decreases |x|
  {
    if x == [] {
      assert a + b == b && x + y == y;
    } else {
      assert (x + y)[1..] == x[1..] + y;
      if a != [] && a[0] == x[0] && Subsequence(a[1..], x[1..]) {
        SubsequenceConcat(a[1..], x[1..], b, y);
        assert (a + b)[1..] == a[1..] + b;
      } else {
        SubsequenceConcat(a, x[1..], b, y);
        SubsequenceDrop(a + b, x + y);
      }
    }
  }

  lemma SubsequenceDrop(a: seq<Word>, b: seq<Word>)
    requires b != [] && Subsequence(a, b[1..])
    ensures Subsequence(a, b)
  {
  }

  lemma {:induction false} SubsequenceSplit(c: seq<Word>, x: seq<Word>, y: seq<Word>) returns (i: nat)
    requires Subsequence(c, x + y)
    ensures i <= |c| && i <= |x| && Subsequence(c[..i], x) && Subsequence(c[i..], y)
    decreases |x|
  {
    if x == [] {
      assert x + y == y && c[0..] == c;
      i := 0;
    } else if c == [] {
      i := 0;
    } else {
      assert (x + y)[1..] == x[1..] + y;
      if c[0] == x[0] && Subsequence(c[1..], x[1..] + y) {
        var j := SubsequenceSplit(c[1..], x[1..], y);
        i := j + 1;
        assert c[..i][1..] == c[1..][..j] && c[i..] == c[1..][j..];
      } else {
        i := SubsequenceSplit(c, x[1..], y);
        SubsequenceDrop(c[..i], x);
      }
    }
  }

  lemma {:induction false} SubsequenceTransitive(a: seq<Word>, b: seq<Word>, c: seq<Word>)
    requires Subsequence(a, b) && Subsequence(b, c)
    ensures Subsequence(a, c)
    decreases |b| + |c|
  {
    if a != [] {
      if b[0] == c[0] && Subsequence(b[1..], c[1..]) {
        if a[0] == b[0] && Subsequence(a[1..], b[1..]) {
          SubsequenceTransitive(a[1..], b[1..], c[1..]);
        } else {
          SubsequenceTransitive(a, b[1..], c[1..]);
          SubsequenceDrop(a, c);
        }
      } else {
        SubsequenceTransitive(a, b, c[1..]);
        SubsequenceDrop(a, c);
      }
    }
  }

  /** Dropping the middle leaves a subsequence, and so does inserting one. */
  lemma SubsequenceMiddle(a: seq<Word>, m: seq<Word>, b: seq<Word>, x: seq<Word>, y: seq<Word>)
    requires Subsequence(a, x) && Subsequence(b, y)
    ensures Subsequence(a + b, x + m + y)
  {
    SubsequenceConcat([], m, b, y);
    assert [] + b == b;
    SubsequenceConcat(a, x, b, m + y);
    assert x + (m + y) == x + m + y;
  }

  /** A splice loses at most the values it deletes from a common subsequence. */
  lemma SpliceKeeps(c: seq<Word>, vals: seq<Word>, e: Edit) returns (d: seq<Word>)
    requires e.pos + e.del <= |vals| && Subsequence(c, vals)
    ensures Subsequence(d, c) && Subsequence(d, Spliced(vals, e)) && |d| >= |c| - e.del
  {
    var a, m, b := vals[..e.pos], vals[e.pos..e.pos + e.del], vals[e.pos + e.del..];
    Collections.Thirds(vals, e.pos, e.pos + e.del);
    var i := SubsequenceSplit(c, a, m + b);
    var j := SubsequenceSplit(c[i..], m, b);
    Collections.Thirds(c, i, i + j);
    d := c[..i] + c[i + j..];
    SubsequenceSelf(c[..i]);
    SubsequenceSelf(c[i + j..]);
    SubsequenceMiddle(c[..i], c[i..i + j], c[i + j..], c[..i], c[i + j..]);
    SubsequenceMiddle(c[..i], e.ins, c[i + j..], a, b);
  }

  lemma {:induction false} EditedKeeps(r: Recipe, out: Words64, p: Progress, n: nat) returns (d: seq<Word>)
    requires GoodRecipe(r) && r.mode.Edits? && n <= r.mode.edits
    ensures Subsequence(d, p.vals) && Subsequence(d, Edited(r, out, p, n).vals)
    ensures |d| >= |p.vals| - n * r.mode.maxRun
    decreases n
  {
    if n == 0 {
      d := p.vals;
      SubsequenceSelf(d);
    } else {
      var c := EditedKeeps(r, out, p, n - 1);
      var q := Edited(r, out, p, n - 1);
      d := SpliceKeeps(c, q.vals, EditAt(r, out, q.calls, |q.vals|));
      SubsequenceTransitive(d, c, p.vals);
      OneMore(n, r.mode.maxRun);
    }
  }

  lemma OneMore(n: int, m: int)
    ensures n * m == (n - 1) * m + m
  {
  }

  /** An edited pair has a common subsequence of all but edits times maxRun of the old lines. */
  lemma EditedIsClose(r: Recipe) returns (common: seq<Word>)
    requires GoodRecipe(r) && r.mode.Edits?
    ensures Subsequence(common, OldValues(r)) && Subsequence(common, NewValues(r))
    ensures |common| >= r.lines - r.mode.edits * r.mode.maxRun
  {
    common := EditedKeeps(r, StreamOf(r.seed), Progress(OldValues(r), r.lines), r.mode.edits);
  }
}
