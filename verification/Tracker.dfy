/** Upload progress: observers of many concurrent uploads update one tracker under its lock, and
    every update sends a report of all nodes. */
module Tracker {
  import opened Collections
  import opened Nodes
  import Orders
  import Pdqsort
  import opened Words

  datatype NodeProgress = NodeProgress(inFlight: int, awaiting: int, bytes: int)

  datatype Totals = Totals(totalObjects: int, objects: int, totalBytes: int, bytes: int)

  datatype State = State(rep: Totals, nodes: map<NodeId, NodeProgress>)

  datatype Row = Row(id: NodeId, progress: NodeProgress, path: PathInfo)

  datatype Report = Report(rep: Totals, nodes: seq<Row>)

  /** A call of the tracker, run as one step under its lock. */
  datatype Event =
    | Start(id: NodeId)
    | Sent(id: NodeId, n: int)
    | Flushed(id: NodeId)
    | Done(id: NodeId, flushed: bool)
    | SetTotals(objects: int, done: int, bytes: int)
    | More(more: int)
    | AddObjects(count: int)

  const NewTracker := State(Totals(0, 0, 0, 0), map[])

  /** t.node(id), which enters a node on first use. */
  function NodeOf(s: State, id: NodeId): NodeProgress {
    if id in s.nodes then s.nodes[id] else NodeProgress(0, 0, 0)
  }

  function Apply(s: State, e: Event): State {
    match e
    case Start(id) =>
      var np := NodeOf(s, id);
      s.(nodes := s.nodes[id := np.(inFlight := np.inFlight + 1)])
    case Sent(id, n) =>
      var np := NodeOf(s, id);
      State(s.rep.(bytes := WrapInt(s.rep.bytes + n)), s.nodes[id := np.(bytes := WrapInt(np.bytes + n))])
    case Flushed(id) =>
      var np := NodeOf(s, id);
      s.(nodes := s.nodes[id := np.(awaiting := np.awaiting + 1)])
    case Done(id, flushed) =>
      var np := NodeOf(s, id);
      s.(nodes := s.nodes[id := np.(inFlight := np.inFlight - 1,
                                    awaiting := if flushed then np.awaiting - 1 else np.awaiting)])
    case SetTotals(objects, done, bytes) =>
      s.(rep := s.rep.(totalObjects := objects, objects := done, totalBytes := bytes))
    case More(more) => s.(rep := s.rep.(totalBytes := WrapInt(s.rep.totalBytes + more)))
    case AddObjects(count) => s.(rep := s.rep.(objects := WrapInt(s.rep.objects + count)))
  }

  // ----- reports

  ghost predicate Ascending(rows: seq<Row>) {
    forall i, j :: 0 <= i < j < |rows| ==> rows[i].id < rows[j].id
  }

  function RowOf(s: State, id: NodeId, paths: map<NodeId, PathInfo>): Row
    requires id in s.nodes
  {
    Row(id, s.nodes[id], if id in paths then paths[id] else PathInfo(false, 0))
  }

  /** The report of a state: every node once, ascending by id. */
  ghost predicate IsReport(r: Report, s: State, paths: map<NodeId, PathInfo>) {
    && r.rep == s.rep
    && Ascending(r.nodes)
    && (forall row :: row in r.nodes ==> row.id in s.nodes && row == RowOf(s, row.id, paths))
    && (forall id :: id in s.nodes ==> RowOf(s, id, paths) in r.nodes)
  }

  class Tracker {
    const reporting: bool
    var paths: map<NodeId, PathInfo>  // the live connections the pool knows
    var rep: Totals
    var nodes: map<NodeId, NodeProgress>
    var reports: seq<Report>  // what the progress callback received

    constructor (reporting: bool, paths: map<NodeId, PathInfo>)
      ensures View() == NewTracker && reports == []
    {
      this.reporting, this.paths := reporting, paths;
      rep, nodes, reports := Totals(0, 0, 0, 0), map[], [];
    }

    ghost function View(): State
      reads this
    {
      State(rep, nodes)
    }

    /** update(f): the step, then a report if anyone listens. */
    method Update(e: Event)
      modifies this
      ensures View() == Apply(old(View()), e) && paths == old(paths)
      ensures if reporting then |reports| == |old(reports)| + 1 && reports[..|reports| - 1] == old(reports) &&
                                IsReport(reports[|reports| - 1], View(), paths)
              else reports == old(reports)
    {
      Do(e);
      if reporting {
        var r := Snapshot();
        reports := reports + [r];
      }
    }

    /** The step itself. */
    method Do(e: Event)
      modifies this`rep, this`nodes
      ensures View() == Apply(old(View()), e)
    {
      match e {
        case Start(id) =>
          Enter(id);
          nodes := nodes[id := nodes[id].(inFlight := nodes[id].inFlight + 1)];
        case Sent(id, n) =>
          Enter(id);
          nodes := nodes[id := nodes[id].(bytes := WrapInt(nodes[id].bytes + n))];
          rep := rep.(bytes := WrapInt(rep.bytes + n));
        case Flushed(id) =>
          Enter(id);
          nodes := nodes[id := nodes[id].(awaiting := nodes[id].awaiting + 1)];
        case Done(id, flushed) =>
          Enter(id);
          nodes := nodes[id := nodes[id].(inFlight := nodes[id].inFlight - 1)];
          if flushed {
            nodes := nodes[id := nodes[id].(awaiting := nodes[id].awaiting - 1)];
          }
        case SetTotals(objects, done, bytes) =>
          rep := rep.(totalObjects := objects, objects := done, totalBytes := bytes);
        case More(more) =>
          rep := rep.(totalBytes := WrapInt(rep.totalBytes + more));
        case AddObjects(count) =>
          rep := rep.(objects := WrapInt(rep.objects + count));
      }
    }

    method Enter(id: NodeId)
      modifies this`nodes
      ensures nodes == old(nodes)[id := NodeOf(old(View()), id)]
    {
      if id !in nodes {
        nodes := nodes[id := NodeProgress(0, 0, 0)];
      }
    }

    /** The map may be walked in any order; the sort by id hides it. */
    method Snapshot() returns (r: Report)
      ensures IsReport(r, View(), paths)
    {
      var order := AnyOrder(nodes.Keys);
      var s := State(rep, nodes);
      var rows: seq<Row> := [];
      for i := 0 to |order|
        invariant |rows| == i && forall j :: 0 <= j < i ==> rows[j] == RowOf(s, order[j], paths)
      {
        rows := rows + [RowOf(s, order[i], paths)];
      }
      var sorted := SortRows(rows);
      forall id | id in nodes ensures RowOf(s, id, paths) in sorted {
        var i :| 0 <= i < |order| && order[i] == id;
        assert rows[i] == RowOf(s, id, paths);
      }
      r := Report(rep, sorted);
    }
  }

  predicate ById(a: Row, b: Row) {
    a.id < b.id
  }

  lemma ByIdIsOrder()
    ensures Orders.WeakOrder(ById)
  {
  }

  method SortRows(rows: seq<Row>) returns (sorted: seq<Row>)
    requires forall i, j :: 0 <= i < j < |rows| ==> rows[i].id != rows[j].id
    ensures Ascending(sorted) && forall row :: row in sorted <==> row in rows
  {
    ByIdIsOrder();
    var v := new Row[|rows|](i requires 0 <= i < |rows| => rows[i]);
    assert v[..] == rows;
    Pdqsort.Slice(v, ById);
    sorted := v[..];
    DistinctRearranged(rows, sorted);
    forall i, j | 0 <= i < j < |sorted| ensures sorted[i].id < sorted[j].id {
      assert sorted[i] in rows && sorted[j] in rows && sorted[i] != sorted[j] && !ById(sorted[j], sorted[i]);
    }
  }

  /** A state has one report, so the iteration order of the node map does not show. */
  lemma {:induction false} AscendingUnique(a: seq<Row>, b: seq<Row>)
    requires Ascending(a) && Ascending(b)
    requires forall x :: x in a <==> x in b
    ensures a == b
    decreases |a|
  {
    assert a != [] ==> a[0] in b;
    assert b != [] ==> b[0] in a;
    if a != [] {
      assert a[0] == b[0];
      forall x ensures x in a[1..] <==> x in b[1..] {
        assert x in a[1..] ==> x in a && x != a[0];
        assert x in b[1..] ==> x in b && x != b[0];
      }
      AscendingUnique(a[1..], b[1..]);
    }
  }

  lemma OneReport(s: State, paths: map<NodeId, PathInfo>, q: Report, r: Report)
    requires IsReport(q, s, paths) && IsReport(r, s, paths)
    ensures q == r
  {
    AscendingUnique(q.nodes, r.nodes);
  }

  // ----- concurrent uploads

  datatype Upload = Upload(node: NodeId, flushed: bool, open: bool)

  datatype World = World(tracker: State, uploads: map<nat, Upload>)

  /** One observer call of one upload, or a call of the command itself. */
  datatype Step =
    | Begin(u: nat, node: NodeId)
    | Send(u: nat, n: int)
    | Flush(u: nat)
    | Finish(u: nat)
    | Other(e: Event)

  predicate Enabled(w: World, step: Step) {
    match step
    case Begin(u, _) => u !in w.uploads
    case Send(u, _) => u in w.uploads && w.uploads[u].open
    case Flush(u) => u in w.uploads && w.uploads[u].open && !w.uploads[u].flushed
    case Finish(u) => u in w.uploads && w.uploads[u].open
    case Other(e) => e.SetTotals? || e.More? || e.AddObjects?
  }

  function Next(w: World, step: Step): World
    requires Enabled(w, step)
  {
    match step
    case Begin(u, node) => World(Apply(w.tracker, Start(node)), w.uploads[u := Upload(node, false, true)])
    case Send(u, n) => w.(tracker := Apply(w.tracker, Sent(w.uploads[u].node, n)))
    case Flush(u) =>
      var up := w.uploads[u];
      World(Apply(w.tracker, Flushed(up.node)), w.uploads[u := up.(flushed := true)])
    case Finish(u) =>
      var up := w.uploads[u];
      World(Apply(w.tracker, Done(up.node, up.flushed)), w.uploads[u := up.(open := false)])
    case Other(e) => w.(tracker := Apply(w.tracker, e))
  }

  /** The call of the tracker that a step is. */
  function EventOf(w: World, step: Step): Event
    requires Enabled(w, step)
  {
    match step
    case Begin(_, node) => Start(node)
    case Send(u, n) => Sent(w.uploads[u].node, n)
    case Flush(u) => Flushed(w.uploads[u].node)
    case Finish(u) => Done(w.uploads[u].node, w.uploads[u].flushed)
    case Other(e) => e
  }

  /** Any interleaving of any number of uploads. */
  predicate Legal(w: World, steps: seq<Step>)
    decreases |steps|
  {
    steps == [] || (Enabled(w, steps[0]) && Legal(Next(w, steps[0]), steps[1..]))
  }

  function Run(w: World, steps: seq<Step>): World
    requires Legal(w, steps)
    decreases |steps|
  {
    if steps == [] then w else Run(Next(w, steps[0]), steps[1..])
  }

  /** The open uploads to a node, or those of them that wait for their answer. */
  ghost function UploadsAt(uploads: map<nat, Upload>, node: NodeId, waiting: bool): set<nat> {
    set u | u in uploads && Counts(uploads[u], node, waiting)
  }

  predicate Counts(up: Upload, node: NodeId, waiting: bool) {
    up.node == node && up.open && (waiting ==> up.flushed)
  }

  ghost function BytesOf(nodes: map<NodeId, NodeProgress>): map<NodeId, int> {
    map id | id in nodes :: nodes[id].bytes
  }

  ghost predicate Counted(w: World, id: NodeId) {
    && NodeOf(w.tracker, id).inFlight == |UploadsAt(w.uploads, id, false)|
    && NodeOf(w.tracker, id).awaiting == |UploadsAt(w.uploads, id, true)|
  }

  ghost predicate Inv(w: World) {
    && (forall id :: Counted(w, id))
    && w.tracker.rep.bytes == WrapInt(Sum(BytesOf(w.tracker.nodes)))
  }

  lemma BytesChange(nodes: map<NodeId, NodeProgress>, id: NodeId, np: NodeProgress)
    ensures Sum(BytesOf(nodes[id := np])) ==
            Sum(BytesOf(nodes)) + np.bytes - (if id in nodes then nodes[id].bytes else 0)
  {
    SumUpdate(BytesOf(nodes), id, np.bytes);
    assert BytesOf(nodes[id := np]) == BytesOf(nodes)[id := np.bytes];
  }

  /** The total and one of its parts grow by n, each as an int. */
  lemma BothWrap(sum: int, part: int, n: int)
    ensures WrapInt(WrapInt(sum) + n) == WrapInt(sum + WrapInt(part + n) - part)
  {
    WrapIntAdd(sum, n);
    WrapIntAdd(part + n, sum - part);
    assert WrapInt(part + n) + (sum - part) == sum + WrapInt(part + n) - part;
  }

  lemma BytesRemove(nodes: map<NodeId, NodeProgress>, id: NodeId)
    requires id in nodes
    ensures Sum(BytesOf(nodes)) == nodes[id].bytes + Sum(BytesOf(nodes - {id}))
  {
    SumRemove(BytesOf(nodes), id);
    assert BytesOf(nodes) - {id} == BytesOf(nodes - {id});
  }

  lemma CountChange(uploads: map<nat, Upload>, u: nat, up: Upload, id: NodeId, waiting: bool)
    ensures |UploadsAt(uploads[u := up], id, waiting)| ==
            |UploadsAt(uploads, id, waiting)|
            - (if u in uploads && Counts(uploads[u], id, waiting) then 1 else 0)
            + (if Counts(up, id, waiting) then 1 else 0)
  {
    var before, after := UploadsAt(uploads, id, waiting), UploadsAt(uploads[u := up], id, waiting);
    assert after - {u} == before - {u};
    assert |before - {u}| == |before| - (if u in before then 1 else 0);
    assert |after - {u}| == |after| - (if u in after then 1 else 0);
  }

  /** The tracker and the record of one upload change together. */
  lemma ChangeKeeps(w: World, u: nat, up: Upload, e: Event)
    requires Inv(w)
    requires match e
             case Start(id) => u !in w.uploads && up == Upload(id, false, true)
             case Flushed(id) =>
               u in w.uploads && w.uploads[u] == Upload(id, false, true) && up == Upload(id, true, true)
             case Done(id, flushed) =>
               u in w.uploads && w.uploads[u] == Upload(id, flushed, true) && up == Upload(id, flushed, false)
             case _ => false
    ensures Inv(World(Apply(w.tracker, e), w.uploads[u := up]))
  {
    var w' := World(Apply(w.tracker, e), w.uploads[u := up]);
    BytesChange(w.tracker.nodes, e.id, w'.tracker.nodes[e.id]);
    forall id ensures Counted(w', id) {
      assert Counted(w, id);
      CountChange(w.uploads, u, up, id, false);
      CountChange(w.uploads, u, up, id, true);
    }
  }

  lemma StepKeeps(w: World, step: Step)
    requires Inv(w) && Enabled(w, step)
    ensures Inv(Next(w, step))
  {
    match step
    case Begin(u, node) =>
      ChangeKeeps(w, u, Upload(node, false, true), Start(node));
    case Send(u, n) =>
      var w' := Next(w, step);
      BytesChange(w.tracker.nodes, w.uploads[u].node, w'.tracker.nodes[w.uploads[u].node]);
      BothWrap(Sum(BytesOf(w.tracker.nodes)), NodeOf(w.tracker, w.uploads[u].node).bytes, n);
      forall id ensures Counted(w', id) {
        assert Counted(w, id);
      }
    case Flush(u) =>
      ChangeKeeps(w, u, w.uploads[u].(flushed := true), Flushed(w.uploads[u].node));
    case Finish(u) =>
      ChangeKeeps(w, u, w.uploads[u].(open := false), Done(w.uploads[u].node, w.uploads[u].flushed));
    case Other(_) =>
      forall id ensures Counted(Next(w, step), id) {
        assert Counted(w, id);
      }
  }

  lemma {:induction false} RunKeeps(w: World, steps: seq<Step>)
    requires Inv(w) && Legal(w, steps)
    ensures Inv(Run(w, steps))
    decreases |steps|
  {
    if steps != [] {
      StepKeeps(w, steps[0]);
      RunKeeps(Next(w, steps[0]), steps[1..]);
    }
  }

  // ----- every report of every interleaving

  function RowBytes(rows: seq<Row>): int {
    if rows == [] then 0 else rows[0].progress.bytes + RowBytes(rows[1..])
  }

  ghost function RowIds(rows: seq<Row>): set<NodeId> {
    set row | row in rows :: row.id
  }

  lemma RowsAddUp(rows: seq<Row>, nodes: map<NodeId, NodeProgress>)
    requires Ascending(rows) && RowIds(rows) == nodes.Keys
    requires forall row :: row in rows ==> row.id in nodes && nodes[row.id] == row.progress
    ensures RowBytes(rows) == Sum(BytesOf(nodes))
  {
    RowsShow(rows, BytesOf(nodes));
  }

  lemma RowIdsTail(rows: seq<Row>)
    requires Ascending(rows) && rows != []
    ensures RowIds(rows[1..]) == RowIds(rows) - {rows[0].id}
    ensures forall row :: row in rows[1..] ==> row.id != rows[0].id
  {
    forall row | row in rows[1..] ensures row.id != rows[0].id && row in rows {
      var i :| 0 <= i < |rows| - 1 && rows[1..][i] == row;
      assert rows[i + 1] == row;
    }
    forall row | row in rows && row.id != rows[0].id ensures row in rows[1..] {
    }
  }

  const Idle := World(NewTracker, map[])

  /** The bytes that the steps send to a node. */
  function SentTo(w: World, steps: seq<Step>, id: NodeId): int
    requires Legal(w, steps)
    decreases |steps|
  {
    if steps == [] then 0
    else
      (if steps[0].Send? && w.uploads[steps[0].u].node == id then steps[0].n else 0)
      + SentTo(Next(w, steps[0]), steps[1..], id)
  }

  function SentAll(steps: seq<Step>): int {
    if steps == [] then 0 else (if steps[0].Send? then steps[0].n else 0) + SentAll(steps[1..])
  }

  /** The nodes that uploads have begun to. */
  function Begun(steps: seq<Step>): set<NodeId> {
    if steps == [] then {} else (if steps[0].Begin? then {steps[0].node} else {}) + Begun(steps[1..])
  }

  /** The bytes of each of these nodes, as an int shows them. */
  ghost function Shown(steps: seq<Step>): map<NodeId, int>
    requires Legal(Idle, steps)
  {
    map id | id in Begun(steps) :: WrapInt(SentTo(Idle, steps, id))
  }

  lemma {:induction false} RunNodeBytes(w: World, steps: seq<Step>, id: NodeId)
    requires Legal(w, steps) && IsInt(NodeOf(w.tracker, id).bytes)
    ensures NodeOf(Run(w, steps).tracker, id).bytes == WrapInt(NodeOf(w.tracker, id).bytes + SentTo(w, steps, id))
    decreases |steps|
  {
    if steps != [] {
      var w', sent := Next(w, steps[0]), SentTo(Next(w, steps[0]), steps[1..], id);
      StepNodeBytes(w, steps[0], id);
      RunNodeBytes(w', steps[1..], id);
      if steps[0].Send? && w.uploads[steps[0].u].node == id {
        WrapIntAdd(NodeOf(w.tracker, id).bytes + steps[0].n, sent);
      }
    }
  }

  lemma StepNodeBytes(w: World, step: Step, id: NodeId)
    requires Enabled(w, step) && IsInt(NodeOf(w.tracker, id).bytes)
    ensures var after, before := NodeOf(Next(w, step).tracker, id).bytes, NodeOf(w.tracker, id).bytes;
            && IsInt(after)
            && after == if step.Send? && w.uploads[step.u].node == id then WrapInt(before + step.n) else before
  {
  }

  lemma {:induction false} RunTotal(w: World, steps: seq<Step>)
    requires Legal(w, steps) && IsInt(w.tracker.rep.bytes)
    ensures Run(w, steps).tracker.rep.bytes == WrapInt(w.tracker.rep.bytes + SentAll(steps))
    decreases |steps|
  {
    if steps != [] {
      RunTotal(Next(w, steps[0]), steps[1..]);
      if steps[0].Send? {
        WrapIntAdd(w.tracker.rep.bytes + steps[0].n, SentAll(steps[1..]));
      }
    }
  }

  ghost predicate Known(w: World) {
    forall u :: u in w.uploads ==> w.uploads[u].node in w.tracker.nodes
  }

  lemma {:induction false} RunNodes(w: World, steps: seq<Step>)
    requires Legal(w, steps) && Known(w)
    ensures Run(w, steps).tracker.nodes.Keys == w.tracker.nodes.Keys + Begun(steps)
    decreases |steps|
  {
    if steps != [] {
      StepNodes(w, steps[0]);
      RunNodes(Next(w, steps[0]), steps[1..]);
    }
  }

  lemma StepNodes(w: World, step: Step)
    requires Enabled(w, step) && Known(w)
    ensures Known(Next(w, step))
    ensures Next(w, step).tracker.nodes.Keys == w.tracker.nodes.Keys + if step.Begin? then {step.node} else {}
  {
  }

  /** What a report says about the steps behind it: a row for every node begun, with its open uploads
      and the bytes sent to it, and the bytes sent in all; bytes as an int shows them. */
  ghost predicate Truthful(r: Report, steps: seq<Step>)
    requires Legal(Idle, steps)
  {
    var uploads := Run(Idle, steps).uploads;
    && Ascending(r.nodes) && RowIds(r.nodes) == Begun(steps)
    && r.rep.bytes == WrapInt(SentAll(steps)) == WrapInt(RowBytes(r.nodes))
    && (forall row :: row in r.nodes ==>
          RowTruthful(row, uploads) && row.progress.bytes == WrapInt(SentTo(Idle, steps, row.id)))
    && (forall u :: u in uploads && uploads[u].open ==> uploads[u].node in RowIds(r.nodes))
  }

  ghost predicate RowTruthful(row: Row, uploads: map<nat, Upload>) {
    && row.progress.inFlight == |UploadsAt(uploads, row.id, false)|
    && row.progress.awaiting == |UploadsAt(uploads, row.id, true)|
    && 0 <= row.progress.awaiting <= row.progress.inFlight
  }

  /** Every report of every interleaving is truthful, and shows only zeros once all are done. */
  lemma EveryReport(steps: seq<Step>, paths: map<NodeId, PathInfo>, r: Report)
    requires Legal(Idle, steps) && IsReport(r, Run(Idle, steps).tracker, paths)
    ensures Truthful(r, steps)
    ensures (forall u :: u in Run(Idle, steps).uploads ==> !Run(Idle, steps).uploads[u].open) ==>
              forall row :: row in r.nodes ==> row.progress.inFlight == 0 && row.progress.awaiting == 0
  {
    IdleInv();
    RunKeeps(Idle, steps);
    ReportIsTruthful(steps, paths, r);
    if forall u :: u in Run(Idle, steps).uploads ==> !Run(Idle, steps).uploads[u].open {
      forall row | row in r.nodes ensures row.progress.inFlight == 0 {
        assert UploadsAt(Run(Idle, steps).uploads, row.id, false) == {};
      }
    }
  }

  /** The total is the sum of the rows exactly when the bytes that the nodes show add up to an int. */
  lemma TotalIsSum(steps: seq<Step>, r: Report)
    requires Legal(Idle, steps) && Truthful(r, steps)
    ensures RowBytes(r.nodes) == Sum(Shown(steps))
    ensures r.rep.bytes == RowBytes(r.nodes) <==> IsInt(Sum(Shown(steps)))
  {
    RowsShow(r.nodes, Shown(steps));
    WrapIntShift(RowBytes(r.nodes));
  }

  /** No byte count of the report has wrapped. */
  ghost predicate Exact(r: Report, steps: seq<Step>)
    requires Legal(Idle, steps)
  {
    r.rep.bytes == SentAll(steps) && RowsExact(r.nodes, steps)
  }

  /** A report shows the bytes sent exactly when they are ints, and then its total is the sum of its
      rows. If no step sends a negative number, that is when all bytes together are an int. */
  lemma ReportIsExact(steps: seq<Step>, r: Report)
    requires Legal(Idle, steps) && Truthful(r, steps)
    ensures Exact(r, steps) <==> IsInt(SentAll(steps)) && AllInts(steps)
    ensures Exact(r, steps) ==> r.rep.bytes == RowBytes(r.nodes)
    ensures NoneNegative(steps) ==> (Exact(r, steps) <==> SentAll(steps) <= MAX_INT)
  {
    ExactRows(steps, r);
    Unwrapped(SentAll(steps));
    if Exact(r, steps) {
      SentAddsUp(Idle, steps, Begun(steps));
      ShownIsSent(steps);
      TotalIsSum(steps, r);
    }
    if NoneNegative(steps) {
      forall id: NodeId ensures 0 <= SentTo(Idle, steps, id) <= SentAll(steps) {
        PartOfAll(Idle, steps, id);
      }
      assert 0 <= SentTo(Idle, steps, 0) <= SentAll(steps);
    }
  }

  lemma Unwrapped(x: int)
    ensures WrapInt(x) == x <==> IsInt(x)
  {
    WrapIntShift(x);
  }

  ghost predicate RowsExact(rows: seq<Row>, steps: seq<Step>)
    requires Legal(Idle, steps)
  {
    forall row :: row in rows ==> row.progress.bytes == SentTo(Idle, steps, row.id)
  }

  ghost predicate AllInts(steps: seq<Step>)
    requires Legal(Idle, steps)
  {
    forall id :: id in Begun(steps) ==> IsInt(SentTo(Idle, steps, id))
  }

  lemma ExactRows(steps: seq<Step>, r: Report)
    requires Legal(Idle, steps) && Truthful(r, steps)
    ensures RowsExact(r.nodes, steps) <==> AllInts(steps)
  {
    forall row | row in r.nodes
      ensures row.id in Begun(steps)
      ensures row.progress.bytes == SentTo(Idle, steps, row.id) <==> IsInt(SentTo(Idle, steps, row.id))
    {
      assert row.id in RowIds(r.nodes);
      Unwrapped(SentTo(Idle, steps, row.id));
    }
    forall id | id in Begun(steps) ensures exists row :: row in r.nodes && row.id == id {
      assert id in RowIds(r.nodes);
    }
  }

  lemma ShownIsSent(steps: seq<Step>)
    requires Legal(Idle, steps) && AllInts(steps)
    ensures Shown(steps) == SentEach(Idle, steps, Begun(steps))
  {
  }

  ghost predicate NoneNegative(steps: seq<Step>) {
    forall i :: 0 <= i < |steps| && steps[i].Send? ==> steps[i].n >= 0
  }

  lemma {:induction false} PartOfAll(w: World, steps: seq<Step>, id: NodeId)
    requires Legal(w, steps) && NoneNegative(steps)
    ensures 0 <= SentTo(w, steps, id) <= SentAll(steps)
    decreases |steps|
  {
    if steps != [] {
      PartOfAll(Next(w, steps[0]), steps[1..], id);
    }
  }

  ghost function SentEach(w: World, steps: seq<Step>, ids: set<NodeId>): map<NodeId, int>
    requires Legal(w, steps)
  {
    map id | id in ids :: SentTo(w, steps, id)
  }

  /** What is sent to the nodes is all that is sent. */
  lemma {:induction false} SentAddsUp(w: World, steps: seq<Step>, ids: set<NodeId>)
    requires Legal(w, steps) && Begun(steps) <= ids && forall u :: u in w.uploads ==> w.uploads[u].node in ids
    ensures Sum(SentEach(w, steps, ids)) == SentAll(steps)
    decreases |steps|
  {
    if steps == [] {
      SumOfZeros(SentEach(w, steps, ids));
    } else {
      var rest := SentEach(Next(w, steps[0]), steps[1..], ids);
      SentAddsUp(Next(w, steps[0]), steps[1..], ids);
      if steps[0].Send? {
        var id := w.uploads[steps[0].u].node;
        SumUpdate(rest, id, steps[0].n + rest[id]);
        assert SentEach(w, steps, ids) == rest[id := steps[0].n + rest[id]];
      } else {
        assert SentEach(w, steps, ids) == rest;
      }
    }
  }

  lemma {:induction false} SumOfZeros(m: map<NodeId, int>)
    requires forall id :: id in m ==> m[id] == 0
    ensures Sum(m) == 0
    decreases |m|
  {
    if m != map[] {
      Smaller(m, Pick(m));
      SumOfZeros(m - {Pick(m)});
    }
  }

  /** Two nodes that together got more bytes than an int counts: the total of every report then is
      negative, and not the sum of its rows. */
  lemma TotalWraps(paths: map<NodeId, PathInfo>, r: Report, steps: seq<Step>)
    requires steps == [Begin(0, 1), Begin(1, 2), Send(0, MAX_INT), Send(1, 1)]
    ensures Legal(Idle, steps)
    ensures IsReport(r, Run(Idle, steps).tracker, paths) ==> r.rep.bytes == MIN_INT && RowBytes(r.nodes) == MAX_INT + 1
  {
    var w := TwoUploads(steps);
    if IsReport(r, w.tracker, paths) {
      ReportRows(r, w.tracker, paths);
      RowsAddUp(r.nodes, w.tracker.nodes);
    }
  }

  lemma TwoUploads(steps: seq<Step>) returns (w4: World)
    requires steps == [Begin(0, 1), Begin(1, 2), Send(0, MAX_INT), Send(1, 1)]
    ensures Legal(Idle, steps) && Run(Idle, steps) == w4
    ensures w4.tracker.rep.bytes == MIN_INT && Sum(BytesOf(w4.tracker.nodes)) == MAX_INT + 1
  {
    var w1 := Next(Idle, steps[0]);
    var w2 := Next(w1, steps[1]);
    var w3 := Next(w2, steps[2]);
    w4 := Next(w3, steps[3]);
    FourSteps(Idle, w1, w2, w3, w4, steps);
    var nodes := w4.tracker.nodes;
    assert nodes == map[1 := NodeProgress(1, 0, MAX_INT), 2 := NodeProgress(1, 0, 1)];
    BytesRemove(nodes, 1);
    BytesRemove(nodes - {1}, 2);
    assert nodes - {1} - {2} == map[] && BytesOf(map[]) == map[];
  }

  lemma FourSteps(w0: World, w1: World, w2: World, w3: World, w4: World, steps: seq<Step>)
    requires |steps| == 4
    requires Enabled(w0, steps[0]) && Enabled(w1, steps[1]) && Enabled(w2, steps[2]) && Enabled(w3, steps[3])
    requires w1 == Next(w0, steps[0]) && w2 == Next(w1, steps[1])
    requires w3 == Next(w2, steps[2]) && w4 == Next(w3, steps[3])
    ensures Legal(w0, steps) && Run(w0, steps) == w4
  {
    var s1, s2, s3 := steps[1..], steps[2..], steps[3..];
    assert s1[1..] == s2 && s2[1..] == s3 && s3[1..] == [];
    assert Legal(w3, s3) && Run(w3, s3) == w4;
    assert Legal(w2, s2) && Run(w2, s2) == w4;
    assert Legal(w1, s1) && Run(w1, s1) == w4;
  }

  lemma {:induction false} PrefixRun(w: World, steps: seq<Step>, i: nat)
    requires Legal(w, steps) && i < |steps|
    ensures Legal(w, steps[..i]) && Legal(w, steps[..i + 1]) && Enabled(Run(w, steps[..i]), steps[i])
    ensures Run(w, steps[..i + 1]) == Next(Run(w, steps[..i]), steps[i])
    decreases i
  {
    var rest := steps[1..];
    if i == 0 {
      assert steps[..0] == [] && steps[..1][1..] == [];
    } else {
      PrefixRun(Next(w, steps[0]), rest, i - 1);
      assert steps[..i][1..] == rest[..i - 1] && steps[..i + 1][1..] == rest[..i];
    }
  }

  /** Every report that the callback of a tracker receives, in any interleaving, is truthful about
      the steps up to that moment. */
  method Play(t: Tracker, steps: seq<Step>)
    requires Legal(Idle, steps) && t.reporting && t.View() == NewTracker && t.reports == []
    modifies t
    ensures |t.reports| == |steps| && forall i :: 0 <= i < |steps| ==> ReportedAt(t.reports[i], steps, i)
  {
    var w := Idle;
    for i := 0 to |steps|
      invariant Legal(Idle, steps[..i]) && w == Run(Idle, steps[..i]) && t.View() == w.tracker
      invariant |t.reports| == i && forall j :: 0 <= j < i ==> ReportedAt(t.reports[j], steps, j)
    {
      ghost var before := t.reports;
      w := PlayOne(t, steps, i, w);
      assert forall j :: 0 <= j < i ==> t.reports[j] == before[j];
    }
  }

  method PlayOne(t: Tracker, steps: seq<Step>, i: nat, w: World) returns (next: World)
    requires Legal(Idle, steps) && i < |steps| && t.reporting
    requires Legal(Idle, steps[..i]) && w == Run(Idle, steps[..i]) && t.View() == w.tracker
    modifies t
    ensures Legal(Idle, steps[..i + 1]) && next == Run(Idle, steps[..i + 1]) && t.View() == next.tracker
    ensures |t.reports| == |old(t.reports)| + 1 && t.reports[..|old(t.reports)|] == old(t.reports)
    ensures ReportedAt(t.reports[|old(t.reports)|], steps, i)
  {
    PrefixRun(Idle, steps, i);
    t.Update(EventOf(w, steps[i]));
    next := Next(w, steps[i]);
    EveryReport(steps[..i + 1], t.paths, t.reports[|t.reports| - 1]);
  }

  ghost predicate ReportedAt(r: Report, steps: seq<Step>, i: nat)
    requires i < |steps|
  {
    Legal(Idle, steps[..i + 1]) && Truthful(r, steps[..i + 1])
  }

  lemma IdleInv()
    ensures Inv(Idle)
  {
    forall id ensures Counted(Idle, id) {
      assert UploadsAt(map[], id, false) == {} && UploadsAt(map[], id, true) == {};
    }
    assert BytesOf(map[]) == map[];
  }

  lemma ReportIsTruthful(steps: seq<Step>, paths: map<NodeId, PathInfo>, r: Report)
    requires Legal(Idle, steps) && Inv(Run(Idle, steps)) && IsReport(r, Run(Idle, steps).tracker, paths)
    ensures Truthful(r, steps)
  {
    var w := Run(Idle, steps);
    ReportRows(r, w.tracker, paths);
    forall row | row in r.nodes
      ensures RowTruthful(row, w.uploads) && row.progress.bytes == WrapInt(SentTo(Idle, steps, row.id))
    {
      CountedRow(w, row);
      NodeShown(steps, row.id);
    }
    OpenIsKnown(w);
    TotalShown(steps);
    RunNodes(Idle, steps);
    RowsAddUp(r.nodes, w.tracker.nodes);
  }

  lemma NodeShown(steps: seq<Step>, id: NodeId)
    requires Legal(Idle, steps)
    ensures NodeOf(Run(Idle, steps).tracker, id).bytes == WrapInt(SentTo(Idle, steps, id))
  {
    RunNodeBytes(Idle, steps, id);
  }

  lemma TotalShown(steps: seq<Step>)
    requires Legal(Idle, steps)
    ensures Run(Idle, steps).tracker.rep.bytes == WrapInt(SentAll(steps))
  {
    RunTotal(Idle, steps);
  }

  lemma ReportRows(r: Report, s: State, paths: map<NodeId, PathInfo>)
    requires IsReport(r, s, paths)
    ensures RowIds(r.nodes) == s.nodes.Keys
    ensures forall row :: row in r.nodes ==> row.progress == NodeOf(s, row.id)
  {
    forall id | id in s.nodes ensures id in RowIds(r.nodes) {
      assert RowOf(s, id, paths) in r.nodes;
    }
  }

  lemma CountedRow(w: World, row: Row)
    requires Inv(w) && row.progress == NodeOf(w.tracker, row.id)
    ensures RowTruthful(row, w.uploads)
  {
    assert Counted(w, row.id);
    Subset(UploadsAt(w.uploads, row.id, true), UploadsAt(w.uploads, row.id, false));
  }

  lemma OpenIsKnown(w: World)
    requires Inv(w)
    ensures forall u :: u in w.uploads && w.uploads[u].open ==> w.uploads[u].node in w.tracker.nodes
  {
    forall u | u in w.uploads && w.uploads[u].open ensures w.uploads[u].node in w.tracker.nodes {
      assert Counted(w, w.uploads[u].node);
      assert u in UploadsAt(w.uploads, w.uploads[u].node, false);
    }
  }

  /** The rows show the bytes of a map of their nodes. */
  lemma {:induction false} RowsShow(rows: seq<Row>, shown: map<NodeId, int>)
    requires Ascending(rows) && RowIds(rows) == shown.Keys
    requires forall row :: row in rows ==> row.id in shown && shown[row.id] == row.progress.bytes
    ensures RowBytes(rows) == Sum(shown)
    decreases |rows|
  {
    if rows == [] {
      assert shown == map[];
    } else {
      var id := rows[0].id;
      assert rows[0] in rows;
      SumRemove(shown, id);
      RowIdsTail(rows);
      RowsShow(rows[1..], shown - {id});
    }
  }

  lemma Subset(a: set<nat>, b: set<nat>)
    requires a <= b
    ensures |a| <= |b|
  {
    assert b == a + (b - a);
  }
}
