/** The vector families: each registers the paths it owns, and regenerating a family replaces
    exactly those paths in the output tree. */
module Registry {
  import opened Collections
  import Orders
  import opened Paths
  import Pdqsort

  type Content = seq<int>

  /** The regular files below a directory. */
  type Tree = map<Path, Content>

  /** A generator is deterministic and does not read the output directory, so all there is to it is
      what it leaves in a fresh one, or its error. */
  datatype Generator = Produces(files: Tree) | Fails

  datatype Family = Family(name: string, owns: seq<Path>, gen: Generator)

  type Families = map<string, Family>

  const RESERVED: seq<Path> := ["cli/snapshots.json", ".gitkeep"]

  /** rel is dir itself or lies below it. */
  predicate Within(rel: Path, dir: Path) {
    rel == dir || dir + "/" <= rel
  }

  predicate Overlap(p: Path, q: Path) {
    Within(p, q) || Within(q, p)
  }

  // ----- registration

  predicate GoodName(name: string) {
    name != "" && ' ' !in name && '\t' !in name && '\n' !in name && '/' !in name
  }

  /** checkFamily: the families registered so far admit one more. */
  predicate CheckFamily(registry: Families, f: Family) {
    && GoodName(f.name) && f.name !in registry && f.owns != []
    && forall i :: 0 <= i < |f.owns| ==>
         && GoodPath(f.owns[i])
         && (forall r :: r in RESERVED ==> !Within(r, f.owns[i]))
         && (forall q :: q in f.owns[..i] ==> !Overlap(f.owns[i], q))
         && (forall other :: other in registry ==> forall q :: q in registry[other].owns ==> !Overlap(f.owns[i], q))
  }

  predicate DisjointOwns(owns: seq<Path>) {
    forall i, j :: 0 <= i < j < |owns| ==> !Overlap(owns[i], owns[j])
  }

  ghost predicate Valid(registry: Families) {
    && (forall n :: n in registry ==> registry[n].name == n && registry[n].owns != [] && DisjointOwns(registry[n].owns))
    && (forall n, p, r :: n in registry && p in registry[n].owns && r in RESERVED ==> !Within(r, p))
    && (forall n, m, p, q ::
          n in registry && m in registry && n != m && p in registry[n].owns && q in registry[m].owns ==> !Overlap(p, q))
  }

  lemma RegisterKeeps(registry: Families, f: Family)
    requires Valid(registry) && CheckFamily(registry, f)
    ensures Valid(registry[f.name := f])
  {
    assert DisjointOwns(f.owns) by {
      forall i, j | 0 <= i < j < |f.owns| ensures !Overlap(f.owns[i], f.owns[j]) {
        assert f.owns[i] in f.owns[..j];
      }
    }
  }

  /** Two owned paths that hold the same file overlap. */
  lemma CommonFile(rel: Path, p: Path, q: Path)
    requires Within(rel, p) && Within(rel, q)
    ensures Overlap(p, q)
  {
    if rel != p && rel != q && |p| <= |q| {
      PrefixOfPrefix(rel, p, q);
    } else if rel != p && rel != q {
      PrefixOfPrefix(rel, q, p);
    }
  }

  lemma PrefixOfPrefix(rel: Path, p: Path, q: Path)
    requires p + "/" <= rel && q + "/" <= rel && |p| <= |q|
    ensures Within(q, p)
  {
    if |p| == |q| {
      assert p == rel[..|p|] == q;
    } else {
      assert p + "/" == rel[..|p| + 1];
      assert q == rel[..|q|];
      assert q[..|p| + 1] == rel[..|p| + 1];
    }
  }

  // ----- what a family may produce

  predicate Owns(f: Family, rel: Path) {
    OwnedBy(f.owns, rel)
  }

  predicate OwnedBy(owns: seq<Path>, rel: Path) {
    exists i :: 0 <= i < |owns| && Within(rel, owns[i])
  }

  ghost predicate HasFile(files: set<Path>, p: Path) {
    exists rel :: rel in files && Within(rel, p)
  }

  /** Every file lies below an owned path and every owned path holds a file. */
  ghost predicate Covers(owns: seq<Path>, files: set<Path>) {
    && (forall rel :: rel in files ==> OwnedBy(owns, rel))
    && (forall i :: 0 <= i < |owns| ==> HasFile(files, owns[i]))
  }

  ghost function Listed(files: seq<Path>): set<Path> {
    set rel | rel in files
  }

  /** checkProduced. Its scan stops at the first owner of a file, which is the only one. */
  method CheckProduced(owns: seq<Path>, files: seq<Path>) returns (ok: bool)
    requires DisjointOwns(owns)
    ensures ok <==> Covers(owns, Listed(files))
  {
    var covered := new bool[|owns|](_ => false);
    ok := MarkCovered(owns, files, covered);
    if !ok {
      return false;
    }
    for i := 0 to |owns|
      invariant forall j :: 0 <= j < i ==> HasFile(Listed(files), owns[j])
    {
      if !covered[i] {
        return false;
      }
    }
    return true;
  }

  /** Its loop over the files, which stops at a file outside the owned paths. */
  method MarkCovered(owns: seq<Path>, files: seq<Path>, covered: array<bool>) returns (ok: bool)
    requires DisjointOwns(owns) && covered.Length == |owns|
    requires forall i :: 0 <= i < |owns| ==> !covered[i]
    modifies covered
    ensures ok <==> forall rel :: rel in Listed(files) ==> OwnedBy(owns, rel)
    ensures ok ==> forall i :: 0 <= i < |owns| ==> (covered[i] <==> HasFile(Listed(files), owns[i]))
  {
    for n := 0 to |files|
      invariant forall rel :: rel in Listed(files[..n]) ==> OwnedBy(owns, rel)
      invariant forall i :: 0 <= i < |owns| ==> (covered[i] <==> HasFile(Listed(files[..n]), owns[i]))
    {
      var rel := files[n];
      assert Listed(files[..n + 1]) == Listed(files[..n]) + {rel} by {
        assert files[..n + 1] == files[..n] + [rel];
      }
      var owner := FirstOwner(owns, rel);
      if owner < 0 {
        assert rel in Listed(files) && !OwnedBy(owns, rel);
        return false;
      }
      OnlyOwner(owns, rel, owner);
      OneMoreFile(owns, Listed(files[..n]), rel, owner);
      covered[owner] := true;
    }
    assert files[..|files|] == files;
    return true;
  }

  lemma OneMoreFile(owns: seq<Path>, files: set<Path>, rel: Path, owner: nat)
    requires owner < |owns| && Within(rel, owns[owner])
    requires forall i :: 0 <= i < |owns| && Within(rel, owns[i]) ==> i == owner
    ensures forall i :: 0 <= i < |owns| ==> (HasFile(files + {rel}, owns[i]) <==> i == owner || HasFile(files, owns[i]))
  {
    assert rel in files + {rel};
    forall i | 0 <= i < |owns| ensures HasFile(files + {rel}, owns[i]) <==> i == owner || HasFile(files, owns[i]) {
      if HasFile(files, owns[i]) {
        var r :| r in files && Within(r, owns[i]);
        assert r in files + {rel};
      }
    }
  }

  method FirstOwner(owns: seq<Path>, rel: Path) returns (owner: int)
    ensures -1 <= owner < |owns|
    ensures owner < 0 ==> forall i :: 0 <= i < |owns| ==> !Within(rel, owns[i])
    ensures owner >= 0 ==> Within(rel, owns[owner])
  {
    for i := 0 to |owns|
      invariant forall j :: 0 <= j < i ==> !Within(rel, owns[j])
    {
      if Within(rel, owns[i]) {
        return i;
      }
    }
    return -1;
  }

  lemma OnlyOwner(owns: seq<Path>, rel: Path, owner: int)
    requires DisjointOwns(owns) && 0 <= owner < |owns| && Within(rel, owns[owner])
    ensures forall i :: 0 <= i < |owns| && Within(rel, owns[i]) ==> i == owner
  {
    forall i | 0 <= i < |owns| && Within(rel, owns[i]) ensures i == owner {
      CommonFile(rel, owns[i], owns[owner]);
    }
  }

  // ----- regeneration

  ghost predicate Succeeds(f: Family) {
    f.gen.Produces? && Covers(f.owns, f.gen.files.Keys)
  }

  ghost function Cleared(tree: Tree, owns: seq<Path>): Tree {
    map k | k in tree && !OwnedBy(owns, k) :: tree[k]
  }

  /** A failing generator or check leaves the tree as it was. */
  ghost function Regenerated(tree: Tree, f: Family): Tree {
    if Succeeds(f) then Cleared(tree, f.owns) + f.gen.files else tree
  }

  /** Families one after the other, up to the first that fails. */
  ghost function RunAll(tree: Tree, fams: seq<Family>): Tree
    decreases |fams|
  {
    if fams == [] || !Succeeds(fams[0]) then tree
    else RunAll(Regenerated(tree, fams[0]), fams[1..])
  }

  class VectorGen {
    var registry: Families
    var tree: Tree

    constructor (tree: Tree)
      ensures registry == map[] && Valid(registry) && this.tree == tree
    {
      registry, this.tree := map[], tree;
    }

    /** register; ok is false where the program panics. */
    method Register(f: Family) returns (ok: bool)
      requires Valid(registry)
      modifies this`registry
      ensures Valid(registry)
      ensures ok == CheckFamily(old(registry), f)
      ensures registry == if ok then old(registry)[f.name := f] else old(registry)
    {
      ok := CheckFamily(registry, f);
      if ok {
        RegisterKeeps(registry, f);
        registry := registry[f.name := f];
      }
    }

    method Regenerate(f: Family) returns (ok: bool)
      requires DisjointOwns(f.owns)
      modifies this`tree
      ensures ok <==> Succeeds(f)
      ensures tree == Regenerated(old(tree), f)
    {
      if f.gen.Fails? {
        return false;
      }
      var files := ProducedFiles(f.gen.files);
      assert Listed(files) == f.gen.files.Keys;
      ok := CheckProduced(f.owns, files);
      if ok {
        RemoveOwned(f.owns);
        CopyFiles(f.gen.files, files);
      }
    }

    method RemoveOwned(owns: seq<Path>)
      modifies this`tree
      ensures tree == Cleared(old(tree), owns)
    {
      for i := 0 to |owns|
        invariant tree == Cleared(old(tree), owns[..i])
      {
        ghost var before := tree;
        tree := map k | k in tree && !Within(k, owns[i]) :: tree[k];
        ClearNext(old(tree), owns, i);
        assert tree == Cleared(old(tree), owns[..i + 1]);
      }
      assert owns[..|owns|] == owns;
    }

    method CopyFiles(stage: Tree, files: seq<Path>)
      requires forall rel :: rel in files <==> rel in stage
      modifies this`tree
      ensures tree == old(tree) + stage
    {
      for n := 0 to |files|
        invariant forall k :: k in tree <==> k in old(tree) || k in files[..n]
        invariant forall k :: k in tree ==> tree[k] == if k in files[..n] then stage[k] else old(tree)[k]
      {
        assert files[..n + 1] == files[..n] + [files[n]];
        tree := tree[files[n] := stage[files[n]]];
      }
      assert files[..|files|] == files;
    }

    /** run: all families, by name, when none is selected; it refuses unknown and repeated names
        before it touches anything. */
    method Run(selected: seq<string>) returns (ok: bool, ghost names: seq<string>)
      requires Valid(registry)
      modifies this`tree
      ensures if selected == [] then Enumerates(names, registry.Keys) && SortedNames(names) else names == selected
      ensures !Selectable(registry, names) ==> !ok && tree == old(tree)
      ensures Selectable(registry, names) ==>
                && tree == RunAll(old(tree), Named(registry, names))
                && (ok <==> AllSucceed(Named(registry, names)))
    {
      var list := selected;
      if |list| == 0 {
        list := FamilyNames();
      }
      names := list;
      ok := RunNames(list);
    }

    /** familyNames: the registered names, sorted. */
    method FamilyNames() returns (names: seq<string>)
      ensures Enumerates(names, registry.Keys) && SortedNames(names)
    {
      var order := AnyOrder(registry.Keys);
      names := SortNames(order, registry.Keys);
    }

    method RunNames(names: seq<string>) returns (ok: bool)
      requires Valid(registry)
      modifies this`tree
      ensures !Selectable(registry, names) ==> !ok && tree == old(tree)
      ensures Selectable(registry, names) ==>
                && tree == RunAll(old(tree), Named(registry, names))
                && (ok <==> AllSucceed(Named(registry, names)))
    {
      ok := CheckNames(names);
      if !ok {
        return;
      }
      ghost var todo := Named(registry, names);
      for i := 0 to |names|
        invariant RunAll(old(tree), todo) == RunAll(tree, todo[i..])
        invariant AllSucceed(todo[..i])
      {
        var f := registry[names[i]];
        Next(todo, i);
        var done := Regenerate(f);
        if !done {
          assert f in todo;
          return false;
        }
      }
      assert todo[..|names|] == todo;
    }

    method CheckNames(names: seq<string>) returns (ok: bool)
      ensures ok <==> Selectable(registry, names)
    {
      for i := 0 to |names|
        invariant Selectable(registry, names[..i])
      {
        if names[i] !in registry || names[i] in names[..i] {
          return false;
        }
        assert names[..i + 1] == names[..i] + [names[i]];
      }
      assert names[..|names|] == names;
      return true;
    }
  }

  /** The order of Go strings. */
  predicate Before(a: string, b: string) {
    b != "" && (a == "" || a[0] < b[0] || (a[0] == b[0] && Before(a[1..], b[1..])))
  }

  lemma {:induction false} BeforeTotal(a: string, b: string)
    requires a != b
    ensures Before(a, b) || Before(b, a)
  {
    if a != "" && b != "" && a[0] == b[0] {
      assert a == [a[0]] + a[1..] && b == [b[0]] + b[1..];
      BeforeTotal(a[1..], b[1..]);
    }
  }

  lemma {:induction false} BeforeTransitive(a: string, b: string, c: string)
    requires Before(a, b) && Before(b, c)
    ensures Before(a, c)
  {
    if a != "" && a[0] == b[0] == c[0] {
      BeforeTransitive(a[1..], b[1..], c[1..]);
    }
  }

  ghost predicate SortedNames(names: seq<string>) {
    forall i, j :: 0 <= i < j < |names| ==> Before(names[i], names[j])
  }

  lemma BeforeIsOrder()
    ensures Orders.WeakOrder(Before)
  {
    forall a, b | Before(a, b) ensures !Before(b, a) {
      BeforeOneWay(a, b);
    }
    forall x, y, z ensures Orders.Chains(Before, x, y, z) {
      if Before(z, x) && !Before(y, x) && x != y {
        BeforeTotal(x, y);
        BeforeTransitive(z, x, y);
      }
    }
  }

  lemma {:induction false} BeforeOneWay(a: string, b: string)
    requires Before(a, b)
    ensures !Before(b, a)
  {
    if a != "" && a[0] == b[0] {
      BeforeOneWay(a[1..], b[1..]);
    }
  }

  method SortNames(order: seq<string>, ghost keys: set<string>) returns (names: seq<string>)
    requires Enumerates(order, keys)
    ensures Enumerates(names, keys) && SortedNames(names)
  {
    BeforeIsOrder();
    var v := new string[|order|](i requires 0 <= i < |order| => order[i]);
    assert v[..] == order;
    Pdqsort.Slice(v, Before);
    names := v[..];
    DistinctRearranged(order, names);
    forall i, j | 0 <= i < j < |names| ensures Before(names[i], names[j]) {
      BeforeTotal(names[i], names[j]);
    }
  }

  /** Known names, none of them twice. */
  ghost predicate Selectable(registry: Families, names: seq<string>) {
    && (forall n :: n in names ==> n in registry)
    && forall i, j :: 0 <= i < j < |names| ==> names[i] != names[j]
  }

  lemma ClearNext(tree: Tree, owns: seq<Path>, n: nat)
    requires n < |owns|
    ensures Cleared(tree, owns[..n + 1]) == map k | k in Cleared(tree, owns[..n]) && !Within(k, owns[n]) :: tree[k]
  {
    assert owns[..n + 1] == owns[..n] + [owns[n]];
    var a, b := Cleared(tree, owns[..n + 1]), Cleared(tree, owns[..n]);
    forall k | k in a ensures k in b && !Within(k, owns[n]) {
      assert owns[..n + 1][n] == owns[n];
      assert forall i :: 0 <= i < n ==> owns[..n][i] == owns[..n + 1][i];
    }
    forall k | k in b && !Within(k, owns[n]) ensures k in a {
      assert forall i :: 0 <= i < n ==> owns[..n][i] == owns[..n + 1][i];
    }
  }

  function Named(registry: Families, names: seq<string>): seq<Family>
    requires forall n :: n in names ==> n in registry
  {
    seq(|names|, i requires 0 <= i < |names| => registry[names[i]])
  }

  method ProducedFiles(files: Tree) returns (list: seq<Path>)
    ensures forall rel :: rel in list <==> rel in files
  {
    list := [];
    var rest := files.Keys;
    while rest != {}
      invariant rest <= files.Keys
      invariant forall rel :: rel in list <==> rel in files.Keys - rest
      decreases rest
    {
      var rel :| rel in rest;
      list, rest := list + [rel], rest - {rel};
    }
  }

  // ----- what a run leaves behind

  ghost function At(tree: Tree, k: Path): Option<Content> {
    if k in tree then Some(tree[k]) else None
  }

  lemma RegeneratedAt(tree: Tree, f: Family, k: Path)
    requires Succeeds(f)
    ensures At(Regenerated(tree, f), k) == if Owns(f, k) then At(f.gen.files, k) else At(tree, k)
  {
  }

  /** No path is owned by two different families of the list. */
  ghost predicate Apart(fams: seq<Family>) {
    forall f, g, k :: f in fams && g in fams && Owns(f, k) && Owns(g, k) ==> f == g
  }

  lemma RegisteredApart(registry: Families, names: seq<string>)
    requires Valid(registry) && forall n :: n in names ==> n in registry
    ensures Apart(Named(registry, names))
  {
    var fams := Named(registry, names);
    forall f, g, k | f in fams && g in fams && Owns(f, k) && Owns(g, k) ensures f == g {
      var i :| 0 <= i < |f.owns| && Within(k, f.owns[i]);
      var j :| 0 <= j < |g.owns| && Within(k, g.owns[j]);
      CommonFile(k, f.owns[i], g.owns[j]);
      var m :| 0 <= m < |fams| && fams[m] == f;
      var n :| 0 <= n < |fams| && fams[n] == g;
      assert names[m] in registry && names[n] in registry;
    }
  }

  ghost predicate AllSucceed(fams: seq<Family>) {
    forall f :: f in fams ==> Succeeds(f)
  }

  /** A path outside every selected family keeps its file, whatever happens. */
  lemma {:induction false} RunElsewhere(tree: Tree, fams: seq<Family>, k: Path)
    requires forall f :: f in fams ==> !Owns(f, k)
    ensures At(RunAll(tree, fams), k) == At(tree, k)
    decreases |fams|
  {
    if fams != [] && Succeeds(fams[0]) {
      RegeneratedAt(tree, fams[0], k);
      RunElsewhere(Regenerated(tree, fams[0]), fams[1..], k);
    }
  }

  /** An owned path ends with what its family produced there, or nothing. */
  lemma {:induction false} RunOwned(tree: Tree, fams: seq<Family>, f: Family, k: Path)
    requires Apart(fams) && AllSucceed(fams) && f in fams && Owns(f, k)
    ensures At(RunAll(tree, fams), k) == At(f.gen.files, k)
    decreases |fams|
  {
    var next := Regenerated(tree, fams[0]);
    TailApart(fams);
    if f in fams[1..] {
      RunOwned(next, fams[1..], f, k);
    } else {
      assert f == fams[0];
      RegeneratedAt(tree, f, k);
      assert forall g :: g in fams[1..] ==> !Owns(g, k);
      RunElsewhere(next, fams[1..], k);
    }
  }

  lemma TailApart(fams: seq<Family>)
    requires Apart(fams) && AllSucceed(fams) && fams != []
    ensures Apart(fams[1..]) && AllSucceed(fams[1..]) && Succeeds(fams[0])
    ensures forall g, k :: g in fams[1..] && Owns(fams[0], k) && Owns(g, k) ==> g == fams[0]
  {
    assert forall g :: g in fams[1..] ==> g in fams;
  }

  lemma SameTree(s: Tree, t: Tree)
    requires forall k :: At(s, k) == At(t, k)
    ensures s == t
  {
    forall k ensures k in s <==> k in t {
      assert At(s, k) == At(t, k);
    }
    forall k | k in s ensures s[k] == t[k] {
      assert At(s, k) == At(t, k);
    }
  }

  /** The order in which families are regenerated does not matter. */
  lemma OrderDoesNotMatter(tree: Tree, fams: seq<Family>, other: seq<Family>)
    requires Apart(fams) && AllSucceed(fams)
    requires forall f :: f in fams <==> f in other
    ensures RunAll(tree, fams) == RunAll(tree, other)
  {
    forall k ensures At(RunAll(tree, fams), k) == At(RunAll(tree, other), k) {
      if f :| f in fams && Owns(f, k) {
        RunOwned(tree, fams, f, k);
        RunOwned(tree, other, f, k);
      } else {
        RunElsewhere(tree, fams, k);
        RunElsewhere(tree, other, k);
      }
    }
    SameTree(RunAll(tree, fams), RunAll(tree, other));
  }

  /** Running again changes nothing, and stale files do not survive: the outcome at owned paths does
      not depend on the tree before. */
  lemma RunTwice(tree: Tree, fams: seq<Family>)
    requires Apart(fams) && AllSucceed(fams)
    ensures RunAll(RunAll(tree, fams), fams) == RunAll(tree, fams)
  {
    var once := RunAll(tree, fams);
    forall k ensures At(RunAll(once, fams), k) == At(once, k) {
      if f :| f in fams && Owns(f, k) {
        RunOwned(tree, fams, f, k);
        RunOwned(once, fams, f, k);
      } else {
        RunElsewhere(once, fams, k);
      }
    }
    SameTree(RunAll(once, fams), once);
  }

  /** The promises of the command, for any registry built by accepted registrations. */
  lemma Promises(registry: Families, tree: Tree, names: seq<string>, other: seq<string>)
    requires Valid(registry) && forall n :: n in names ==> n in registry && Succeeds(registry[n])
    requires forall n :: n in names <==> n in other
    ensures RunAll(tree, Named(registry, names)) == RunAll(tree, Named(registry, other))
    ensures RunAll(RunAll(tree, Named(registry, names)), Named(registry, names)) == RunAll(tree, Named(registry, names))
    ensures forall r :: r in RESERVED ==> At(RunAll(tree, Named(registry, names)), r) == At(tree, r)
  {
    var fams, fams' := Named(registry, names), Named(registry, other);
    RegisteredApart(registry, names);
    NamedMembers(registry, names);
    NamedMembers(registry, other);
    OrderDoesNotMatter(tree, fams, fams');
    RunTwice(tree, fams);
    forall r | r in RESERVED ensures At(RunAll(tree, fams), r) == At(tree, r) {
      RunElsewhere(tree, fams, r);
    }
  }

  lemma NamedMembers(registry: Families, names: seq<string>)
    requires forall n :: n in names ==> n in registry
    ensures forall f :: f in Named(registry, names) <==> exists n :: n in names && registry[n] == f
  {
    forall n | n in names ensures registry[n] in Named(registry, names) {
      var i :| 0 <= i < |names| && names[i] == n;
      assert Named(registry, names)[i] == registry[n];
    }
  }
}
