/** The frame cases of the wire vectors: three lists, an index from a frame to the one case that
    holds it, and aliases for frames that are added again. */
module Frames {
  import opened Words
  import opened Collections

  type Frame = seq<Byte>

  type Msg = nat  // a decoded message, up to its JSON form

  /** The wire package's reader: what a frame decodes to. */
  datatype Codec = Codec(read: Frame -> Option<Msg>)

  datatype List = Requests | Replies | Other

  datatype Case = Case(name: string, aliases: seq<string>, source: string, call: string,
                       decodeOnly: bool, msg: Msg, frame: Frame)

  /** A case by list and index; a pointer would go stale when the list grows. */
  datatype Ref = Ref(list: List, idx: nat)

  datatype Lists = Lists(requests: seq<Case>, replies: seq<Case>, other: seq<Case>) {
    function Get(l: List): seq<Case> {
      match l
      case Requests => requests
      case Replies => replies
      case Other => other
    }

    function Set(l: List, cases: seq<Case>): (r: Lists)
      ensures r.Get(l) == cases
      ensures forall k :: k != l ==> r.Get(k) == Get(k)
    {
      match l
      case Requests => this.(requests := cases)
      case Replies => this.(replies := cases)
      case Other => this.(other := cases)
    }
  }

  datatype State = State(lists: Lists, seen: map<Frame, Ref>, added: seq<string>, failed: bool)

  const Empty := State(Lists([], [], []), map[], [], false)

  predicate Contains(s: string, sub: string) {
    exists i :: 0 <= i <= |s| && OccursAt(s, sub, i)
  }

  predicate OccursAt(s: string, sub: string, i: nat)
    requires i <= |s|
  {
    sub <= s[i..]
  }

  function WithAlias(c: Case, name: string, source: string): Case {
    c.(aliases := c.aliases + [name],
       source := if Contains(c.source, source) then c.source else c.source + "; " + source)
  }

  /** One frame to record: what was written, if it was written from a message. */
  datatype Entry = Entry(dst: List, name: string, source: string, call: string,
                         decodeOnly: bool, frame: Frame, input: Option<Msg>)

  predicate Readable(e: Entry, codec: Codec) {
    codec.read(e.frame).Some? && (e.input.Some? ==> codec.read(e.frame) == e.input)
  }

  predicate RefsInRange(s: State) {
    forall f :: f in s.seen ==> s.seen[f].idx < |s.lists.Get(s.seen[f].list)|
  }

  /** addFrame. */
  function AddFrame(s: State, e: Entry, codec: Codec): State
    requires RefsInRange(s)
  {
    if s.failed then s
    else if !Readable(e, codec) then s.(failed := true)
    else if e.frame in s.seen && !e.decodeOnly then
      s.(lists := Aliased(s.lists, s.seen[e.frame], e.name, e.source), added := s.added + [e.name])
    else
      var c := Case(e.name, [], e.source, e.call, e.decodeOnly, codec.read(e.frame).value, e.frame);
      State(Appended(s.lists, e.dst, c), Noted(s.seen, s.lists, e.dst, c), s.added + [e.name], false)
  }

  function Aliased(lists: Lists, ref: Ref, name: string, source: string): Lists
    requires ref.idx < |lists.Get(ref.list)|
  {
    var cases := lists.Get(ref.list);
    lists.Set(ref.list, cases[ref.idx := WithAlias(cases[ref.idx], name, source)])
  }

  function Appended(lists: Lists, l: List, c: Case): Lists {
    lists.Set(l, lists.Get(l) + [c])
  }

  /** The index once c is appended to list l. */
  function Noted(seen: map<Frame, Ref>, lists: Lists, l: List, c: Case): map<Frame, Ref> {
    if c.decodeOnly then seen else seen[c.frame := Ref(l, |lists.Get(l)|)]
  }

  /** A call of the builder; writing a message gives a frame or fails. */
  datatype Call =
    | Add(dst: List, name: string, source: string, call: string, m: Msg, written: Option<Frame>)
    | AddPayload(dst: List, name: string, source: string, call: string, payload: seq<Byte>)

  function Framed(payload: seq<Byte>): Frame {
    BigEndian(|payload| % 0x1_0000_0000, 4) + payload
  }

  function Apply(s: State, c: Call, codec: Codec): State
    requires RefsInRange(s)
  {
    match c
    case Add(dst, name, source, call, m, written) =>
      if s.failed then s
      else (match written
            case None => s.(failed := true)
            case Some(frame) => AddFrame(s, Entry(dst, name, source, call, false, frame, Some(m)), codec))
    case AddPayload(dst, name, source, call, payload) =>
      AddFrame(s, Entry(dst, name, source, call, true, Framed(payload), None), codec)
  }

  class Builder {
    const codec: Codec
    var requests: seq<Case>
    var replies: seq<Case>
    var other: seq<Case>
    var seen: map<Frame, Ref>
    var added: seq<string>
    var failed: bool

    ghost function View(): State
      reads this
    {
      State(Lists(requests, replies, other), seen, added, failed)
    }

    constructor (codec: Codec)
      ensures View() == Empty && this.codec == codec
    {
      this.codec := codec;
      requests, replies, other, seen, added, failed := [], [], [], map[], [], false;
    }

    function ListOf(l: List): (cases: seq<Case>)
      reads this
      ensures cases == View().lists.Get(l)
    {
      match l
      case Requests => requests
      case Replies => replies
      case Other => other
    }

    method StoreList(l: List, cases: seq<Case>)
      modifies this`requests, this`replies, this`other
      ensures View() == old(View()).(lists := old(View()).lists.Set(l, cases))
    {
      match l
      case Requests => requests := cases;
      case Replies => replies := cases;
      case Other => other := cases;
    }

    method Call(c: Call)
      requires RefsInRange(View())
      modifies this
      ensures View() == Apply(old(View()), c, codec)
    {
      match c
      case Add(dst, name, source, call, m, written) =>
        if failed {
          return;
        }
        if written.None? {
          failed := true;
          return;
        }
        Record(Entry(dst, name, source, call, false, written.value, Some(m)));
      case AddPayload(dst, name, source, call, payload) =>
        var frame := BigEndian(|payload| % 0x1_0000_0000, 4);
        Record(Entry(dst, name, source, call, true, frame + payload, None));
    }

    method Record(e: Entry)
      requires RefsInRange(View())
      modifies this
      ensures View() == AddFrame(old(View()), e, codec)
    {
      if failed {
        return;
      }
      var got := codec.read(e.frame);
      if got.None? || (e.input.Some? && got != e.input) {
        failed := true;
        return;
      }
      added := added + [e.name];
      if e.frame in seen && !e.decodeOnly {
        var ref := seen[e.frame];
        var cases := ListOf(ref.list);
        var prev := cases[ref.idx];
        prev := prev.(aliases := prev.aliases + [e.name]);
        if !Contains(prev.source, e.source) {
          prev := prev.(source := prev.source + "; " + e.source);
        }
        StoreList(ref.list, cases[ref.idx := prev]);
        return;
      }
      var cases := ListOf(e.dst);
      StoreList(e.dst, cases + [Case(e.name, [], e.source, e.call, e.decodeOnly, got.value, e.frame)]);
      if !e.decodeOnly {
        seen := seen[e.frame := Ref(e.dst, |cases|)];
      }
    }
  }

  // ----- names

  function NamesOf(c: Case): multiset<string> {
    multiset{c.name} + multiset(c.aliases)
  }

  function ListNames(cases: seq<Case>): multiset<string> {
    if cases == [] then multiset{} else ListNames(cases[..|cases| - 1]) + NamesOf(cases[|cases| - 1])
  }

  /** Every name in the file, as often as it appears. */
  function AllNames(lists: Lists): multiset<string> {
    ListNames(lists.requests) + ListNames(lists.replies) + ListNames(lists.other)
  }

  lemma NamesAppend(cases: seq<Case>, c: Case)
    ensures ListNames(cases + [c]) == ListNames(cases) + NamesOf(c)
  {
    assert (cases + [c])[..|cases|] == cases;
  }

  lemma {:induction false} NamesAlias(cases: seq<Case>, i: nat, name: string, source: string)
    requires i < |cases|
    ensures ListNames(cases[i := WithAlias(cases[i], name, source)]) == ListNames(cases) + multiset{name}
    decreases |cases|
  {
    var after := cases[i := WithAlias(cases[i], name, source)];
    var last := |cases| - 1;
    if i == last {
      assert after[..last] == cases[..last];
    } else {
      NamesAlias(cases[..last], i, name, source);
      assert after[..last] == cases[..last][i := WithAlias(cases[i], name, source)];
    }
  }

  lemma SetNames(lists: Lists, l: List, cases: seq<Case>, more: multiset<string>)
    requires ListNames(cases) == ListNames(lists.Get(l)) + more
    ensures AllNames(lists.Set(l, cases)) == AllNames(lists) + more
  {
    OneOfThree(ListNames(lists.requests), ListNames(lists.replies), ListNames(lists.other), more);
  }

  lemma OneOfThree(x: multiset<string>, y: multiset<string>, z: multiset<string>, more: multiset<string>)
    ensures x + more + y + z == x + (y + more) + z == x + y + (z + more) == x + y + z + more
  {
  }

  // ----- the index

  /** The reference leads to the written case of its frame. */
  ghost predicate Leads(lists: Lists, f: Frame, ref: Ref) {
    && ref.idx < |lists.Get(ref.list)|
    && lists.Get(ref.list)[ref.idx].frame == f
    && !lists.Get(ref.list)[ref.idx].decodeOnly
  }

  /** A case that was written is what the index finds for its frame. */
  ghost predicate Known(c: Case, seen: map<Frame, Ref>, l: List, i: nat) {
    !c.decodeOnly ==> c.frame in seen && seen[c.frame] == Ref(l, i)
  }

  ghost predicate Indexed(lists: Lists, seen: map<Frame, Ref>) {
    && (forall f :: f in seen ==> Leads(lists, f, seen[f]))
    && (forall l, i :: 0 <= i < |lists.Get(l)| ==> Known(lists.Get(l)[i], seen, l, i))
  }

  ghost predicate Inv(s: State) {
    Indexed(s.lists, s.seen) && AllNames(s.lists) == multiset(s.added)
  }

  lemma AliasIndexed(lists: Lists, seen: map<Frame, Ref>, ref: Ref, name: string, source: string)
    requires Indexed(lists, seen) && ref.idx < |lists.Get(ref.list)|
    ensures Indexed(Aliased(lists, ref, name, source), seen)
  {
    var after := Aliased(lists, ref, name, source);
    forall l ensures |after.Get(l)| == |lists.Get(l)| {
    }
    forall l, i | 0 <= i < |after.Get(l)|
      ensures after.Get(l)[i].frame == lists.Get(l)[i].frame && after.Get(l)[i].decodeOnly == lists.Get(l)[i].decodeOnly
    {
    }
    forall f | f in seen ensures Leads(after, f, seen[f]) {
      assert Leads(lists, f, seen[f]);
    }
    forall l, i | 0 <= i < |after.Get(l)| ensures Known(after.Get(l)[i], seen, l, i) {
      assert Known(lists.Get(l)[i], seen, l, i);
    }
  }

  lemma AppendIndexed(lists: Lists, seen: map<Frame, Ref>, l: List, c: Case)
    requires Indexed(lists, seen) && (!c.decodeOnly ==> c.frame !in seen)
    ensures Indexed(Appended(lists, l, c), Noted(seen, lists, l, c))
  {
    AppendLeads(lists, seen, l, c);
    AppendKnown(lists, seen, l, c);
  }

  lemma AppendLeads(lists: Lists, seen: map<Frame, Ref>, l: List, c: Case)
    requires Indexed(lists, seen)
    ensures var seen' := Noted(seen, lists, l, c);
            forall f :: f in seen' ==> Leads(Appended(lists, l, c), f, seen'[f])
  {
    var after, seen' := Appended(lists, l, c), Noted(seen, lists, l, c);
    forall f | f in seen' ensures Leads(after, f, seen'[f]) {
      if f in seen {
        assert Leads(lists, f, seen[f]);
      }
    }
  }

  lemma AppendKnown(lists: Lists, seen: map<Frame, Ref>, l: List, c: Case)
    requires Indexed(lists, seen) && (!c.decodeOnly ==> c.frame !in seen)
    ensures var after := Appended(lists, l, c);
            forall k, i :: 0 <= i < |after.Get(k)| ==> Known(after.Get(k)[i], Noted(seen, lists, l, c), k, i)
  {
    var after, seen' := Appended(lists, l, c), Noted(seen, lists, l, c);
    forall k, i | 0 <= i < |after.Get(k)| ensures Known(after.Get(k)[i], seen', k, i) {
      if k != l || i < |lists.Get(l)| {
        assert after.Get(k)[i] == lists.Get(k)[i];
        assert Known(lists.Get(k)[i], seen, k, i);
      }
    }
  }

  lemma AddFrameKeeps(s: State, e: Entry, codec: Codec)
    requires Inv(s)
    ensures Inv(AddFrame(s, e, codec))
  {
    if !s.failed && Readable(e, codec) {
      if e.frame in s.seen && !e.decodeOnly {
        var ref := s.seen[e.frame];
        var cases := s.lists.Get(ref.list);
        assert Leads(s.lists, e.frame, ref);
        AliasIndexed(s.lists, s.seen, ref, e.name, e.source);
        NamesAlias(cases, ref.idx, e.name, e.source);
        SetNames(s.lists, ref.list, cases[ref.idx := WithAlias(cases[ref.idx], e.name, e.source)], multiset{e.name});
      } else {
        var c := Case(e.name, [], e.source, e.call, e.decodeOnly, codec.read(e.frame).value, e.frame);
        AppendIndexed(s.lists, s.seen, e.dst, c);
        NamesAppend(s.lists.Get(e.dst), c);
        SetNames(s.lists, e.dst, s.lists.Get(e.dst) + [c], multiset{e.name});
      }
    }
  }

  lemma ApplyKeeps(s: State, c: Call, codec: Codec)
    requires Inv(s)
    ensures Inv(Apply(s, c, codec))
  {
    match c
    case Add(dst, name, source, call, m, written) =>
      if written.Some? {
        AddFrameKeeps(s, Entry(dst, name, source, call, false, written.value, Some(m)), codec);
      }
    case AddPayload(dst, name, source, call, payload) =>
      AddFrameKeeps(s, Entry(dst, name, source, call, true, Framed(payload), None), codec);
  }

  lemma InvInRange(s: State)
    requires Inv(s)
    ensures RefsInRange(s)
  {
    forall f | f in s.seen ensures s.seen[f].idx < |s.lists.Get(s.seen[f].list)| {
      assert Leads(s.lists, f, s.seen[f]);
    }
  }

  /** The state after any sequence of calls. */
  function Run(calls: seq<Call>, codec: Codec): (s: State)
    ensures Inv(s)
  {
    if calls == [] then
      assert Inv(Empty);
      Empty
    else
      var before := Run(calls[..|calls| - 1], codec);
      InvInRange(before);
      ApplyKeeps(before, calls[|calls| - 1], codec);
      Apply(before, calls[|calls| - 1], codec)
  }

  /** A frame that was written from a message is held by exactly one case of the three lists. */
  lemma OneCasePerFrame(s: State, l: List, i: nat, k: List, j: nat)
    requires Inv(s) && i < |s.lists.Get(l)| && j < |s.lists.Get(k)|
    requires !s.lists.Get(l)[i].decodeOnly && !s.lists.Get(k)[j].decodeOnly
    requires s.lists.Get(l)[i].frame == s.lists.Get(k)[j].frame
    ensures l == k && i == j
  {
    assert Known(s.lists.Get(l)[i], s.seen, l, i);
    assert Known(s.lists.Get(k)[j], s.seen, k, j);
  }

  /** What a later call may change about a case: it may gain aliases and sources. */
  predicate Grows(c: Case, d: Case) {
    c.aliases <= d.aliases && c.source <= d.source && d == c.(aliases := d.aliases, source := d.source)
  }

  ghost predicate GrowsAt(lists: Lists, after: Lists, l: List, i: int) {
    0 <= i < |lists.Get(l)| ==> i < |after.Get(l)| && Grows(lists.Get(l)[i], after.Get(l)[i])
  }

  ghost predicate ListsGrow(lists: Lists, after: Lists) {
    forall l, i :: GrowsAt(lists, after, l, i)
  }

  ghost predicate Extends(s: State, t: State) {
    && (forall f :: f in s.seen ==> f in t.seen && t.seen[f] == s.seen[f])
    && s.added <= t.added
    && ListsGrow(s.lists, t.lists)
  }

  lemma AddFrameExtends(s: State, e: Entry, codec: Codec)
    requires Inv(s)
    ensures Extends(s, AddFrame(s, e, codec))
  {
    if !s.failed && Readable(e, codec) {
      if e.frame in s.seen && !e.decodeOnly {
        assert Leads(s.lists, e.frame, s.seen[e.frame]);
        AliasGrows(s.lists, s.seen[e.frame], e.name, e.source);
      } else {
        var read := codec.read(e.frame).value;
        AppendGrows(s.lists, e.dst, Case(e.name, [], e.source, e.call, e.decodeOnly, read, e.frame));
      }
    }
  }

  lemma AliasGrows(lists: Lists, ref: Ref, name: string, source: string)
    requires ref.idx < |lists.Get(ref.list)|
    ensures ListsGrow(lists, Aliased(lists, ref, name, source))
  {
    var after := Aliased(lists, ref, name, source);
    forall l, i ensures GrowsAt(lists, after, l, i) {
      if l == ref.list && i == ref.idx {
        var c := lists.Get(l)[i];
        assert after.Get(l)[i] == WithAlias(c, name, source);
        assert c.source + "; " + source == c.source + ("; " + source);
      }
    }
  }

  lemma AppendGrows(lists: Lists, l: List, c: Case)
    ensures ListsGrow(lists, Appended(lists, l, c))
  {
  }

  lemma ApplyExtends(s: State, c: Call, codec: Codec)
    requires Inv(s)
    ensures Extends(s, Apply(s, c, codec))
  {
    match c
    case Add(dst, name, source, call, m, written) =>
      if written.Some? {
        AddFrameExtends(s, Entry(dst, name, source, call, false, written.value, Some(m)), codec);
      }
    case AddPayload(dst, name, source, call, payload) =>
      AddFrameExtends(s, Entry(dst, name, source, call, true, Framed(payload), None), codec);
  }

  lemma ExtendsReflexive(s: State)
    ensures Extends(s, s)
  {
  }

  lemma ExtendsTransitive(s: State, t: State, u: State)
    requires Extends(s, t) && Extends(t, u)
    ensures Extends(s, u)
  {
    forall l, i ensures GrowsAt(s.lists, u.lists, l, i) {
      assert GrowsAt(s.lists, t.lists, l, i) && GrowsAt(t.lists, u.lists, l, i);
    }
  }

  lemma LastCallExtends(calls: seq<Call>, codec: Codec)
    requires calls != []
    ensures Extends(Run(calls[..|calls| - 1], codec), Run(calls, codec))
  {
    ApplyExtends(Run(calls[..|calls| - 1], codec), calls[|calls| - 1], codec);
  }

  /** Later calls move no case and change no stored reference. */
  lemma {:induction false} CallsKeepPlaces(calls: seq<Call>, n: nat, codec: Codec)
    requires n <= |calls|
    ensures Extends(Run(calls[..n], codec), Run(calls, codec))
    decreases |calls|
  {
    if n == |calls| {
      assert calls[..n] == calls;
      ExtendsReflexive(Run(calls, codec));
    } else {
      var front := calls[..|calls| - 1];
      assert front[..n] == calls[..n];
      CallsKeepPlaces(front, n, codec);
      LastCallExtends(calls, codec);
      ExtendsTransitive(Run(calls[..n], codec), Run(front, codec), Run(calls, codec));
    }
  }

  // ----- wvCheckNames

  ghost predicate CountsOf(count: map<string, nat>, names: multiset<string>) {
    && (forall n :: n in count ==> n in names && count[n] == names[n])
    && (forall n :: n in names ==> n in count)
  }

  method CountName(count: map<string, nat>, n: string, ghost names: multiset<string>) returns (out: map<string, nat>)
    requires CountsOf(count, names)
    ensures CountsOf(out, names + multiset{n})
  {
    out := count[n := (if n in count then count[n] else 0) + 1];
  }

  method CountCase(c: Case, start: map<string, nat>, ghost names: multiset<string>) returns (count: map<string, nat>)
    requires CountsOf(start, names)
    ensures CountsOf(count, names + NamesOf(c))
  {
    count := CountName(start, c.name, names);
    ghost var seen := names + multiset{c.name};
    for j := 0 to |c.aliases|
      invariant CountsOf(count, seen + multiset(c.aliases[..j]))
    {
      count := CountName(count, c.aliases[j], seen + multiset(c.aliases[..j]));
      assert c.aliases[..j + 1] == c.aliases[..j] + [c.aliases[j]];
      assert seen + multiset(c.aliases[..j]) + multiset{c.aliases[j]} == seen + multiset(c.aliases[..j + 1]);
    }
    assert c.aliases[..|c.aliases|] == c.aliases;
    assert seen + multiset(c.aliases) == names + NamesOf(c);
  }

  lemma OneMoreCase(cases: seq<Case>, i: nat, names: multiset<string>)
    requires i < |cases|
    ensures names + ListNames(cases[..i]) + NamesOf(cases[i]) == names + ListNames(cases[..i + 1])
  {
    assert cases[..i + 1] == cases[..i] + [cases[i]];
    NamesAppend(cases[..i], cases[i]);
  }

  method CountList(cases: seq<Case>, start: map<string, nat>, ghost names: multiset<string>)
    returns (count: map<string, nat>)
    requires CountsOf(start, names)
    ensures CountsOf(count, names + ListNames(cases))
  {
    count := start;
    for i := 0 to |cases|
      invariant CountsOf(count, names + ListNames(cases[..i]))
    {
      count := CountCase(cases[i], count, names + ListNames(cases[..i]));
      OneMoreCase(cases, i, names);
    }
    assert cases[..|cases|] == cases;
  }

  method CountAll(lists: Lists) returns (count: map<string, nat>)
    ensures CountsOf(count, AllNames(lists))
  {
    count := CountList(lists.requests, map[], multiset{});
    ghost var a := multiset{} + ListNames(lists.requests);
    count := CountList(lists.replies, count, a);
    count := CountList(lists.other, count, a + ListNames(lists.replies));
    assert a + ListNames(lists.replies) + ListNames(lists.other) == AllNames(lists);
  }

  /** After any run the check succeeds exactly when no name was added twice. */
  method CheckNames(s: State) returns (ok: bool)
    requires Inv(s)
    ensures ok <==> Distinct(s.added)
  {
    var count := CountAll(s.lists);
    DistinctCounts(s.added, count);
    for i := 0 to |s.added|
      invariant forall j :: 0 <= j < i ==> count[s.added[j]] == 1
    {
      if count[s.added[i]] != 1 {
        return false;
      }
    }
    return |count| == |s.added|;
  }

  lemma {:induction false} Multiplicity(names: seq<string>, i: nat)
    requires i < |names|
    ensures multiset(names)[names[i]] == 1 <==> forall j :: 0 <= j < |names| && j != i ==> names[j] != names[i]
  {
    var rest := names[..i] + names[i + 1..];
    assert names == names[..i] + [names[i]] + names[i + 1..];
    assert multiset(names) == multiset(rest) + multiset{names[i]};
    assert names[i] in multiset(rest) <==> names[i] in rest;
    if j :| 0 <= j < |names| && j != i && names[j] == names[i] {
      assert rest[if j < i then j else j - 1] == names[i];
    }
  }

  lemma DistinctCounts(names: seq<string>, count: map<string, nat>)
    requires CountsOf(count, multiset(names))
    ensures forall i :: 0 <= i < |names| ==> names[i] in count
    ensures Distinct(names) <==> forall i :: 0 <= i < |names| ==> count[names[i]] == 1
    ensures Distinct(names) ==> |count| == |names|
  {
    forall i | 0 <= i < |names|
      ensures names[i] in count && (count[names[i]] == 1 <==> multiset(names)[names[i]] == 1)
    {
      assert names[i] in multiset(names);
    }
    forall i | 0 <= i < |names| {
      Multiplicity(names, i);
    }
    if Distinct(names) {
      DistinctMembers(names);
      assert count.Keys == Members(names);
    }
  }
}
