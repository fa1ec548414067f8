/** Slash-separated paths, and what Go's path.Clean makes of them. */
module Paths {

  type Path = string

  /** The slash-separated elements of a path. */
  function Elements(p: Path): (e: seq<string>)
    ensures e != []
  {
    if p == [] then [""]
    else
      var rest := Elements(p[1..]);
      if p[0] == '/' then [""] + rest else [[p[0]] + rest[0]] + rest[1..]
  }

  function Joined(es: seq<string>): Path
    requires es != []
  {
    if |es| == 1 then es[0] else es[0] + "/" + Joined(es[1..])
  }

  predicate NoSlash(es: seq<string>) {
    forall i :: 0 <= i < |es| ==> '/' !in es[i]
  }

  lemma {:induction false} JoinElements(p: Path)
    ensures Joined(Elements(p)) == p && NoSlash(Elements(p))
  {
    if p != [] {
      var rest := Elements(p[1..]);
      JoinElements(p[1..]);
      assert p == [p[0]] + p[1..];
      if p[0] == '/' {
        assert ([""] + rest)[1..] == rest;
      } else {
        assert ([[p[0]] + rest[0]] + rest[1..])[1..] == rest[1..];
      }
    }
  }

  lemma {:induction false} ElementsJoin(es: seq<string>)
    requires es != [] && NoSlash(es)
    ensures Elements(Joined(es)) == es
    decreases |es|
  {
    if |es| == 1 {
      OneElement(es[0]);
    } else {
      ElementsJoin(es[1..]);
      FirstElement(es[0], Joined(es[1..]));
      assert es == [es[0]] + es[1..];
    }
  }

  lemma {:induction false} OneElement(e: string)
    requires '/' !in e
    ensures Elements(e) == [e]
  {
    if e != [] {
      OneElement(e[1..]);
      assert [e[0]] + e[1..] == e;
    }
  }

  lemma {:induction false} FirstElement(e: string, rest: Path)
    requires '/' !in e
    ensures Elements(e + "/" + rest) == [e] + Elements(rest)
  {
    var p := e + "/" + rest;
    if e == [] {
      assert p[1..] == rest;
    } else {
      FirstElement(e[1..], rest);
      assert p[1..] == e[1..] + "/" + rest && [e[0]] + e[1..] == e;
      assert ([e[1..]] + Elements(rest))[1..] == Elements(rest);
    }
  }

  // ----- path.Clean

  /** Drops empty elements and dots, and lets two dots take back the element before them; those that
      find none stay, unless the path starts at the root. */
  function Reduce(kept: seq<string>, es: seq<string>, rooted: bool): seq<string>
    decreases |es|
  {
    if es == [] then kept
    else
      var e, last := es[0], |kept| - 1;
      var next :=
        if e == "" || e == "." then kept
        else if e != ".." then kept + [e]
        else if kept != [] && kept[last] != ".." then kept[..last]
        else if rooted then kept
        else kept + [e];
      Reduce(next, es[1..], rooted)
  }

  function Clean(p: Path): Path {
    if p == "" then "."
    else
      var rooted := p[0] == '/';
      var kept := Reduce([], Elements(p), rooted);
      if kept == [] then (if rooted then "/" else ".")
      else (if rooted then "/" else "") + Joined(kept)
  }

  /** Neither empty nor dots, but for two dots at the start. */
  ghost predicate Reduced(kept: seq<string>) {
    && NoSlash(kept) && (forall i :: 0 <= i < |kept| ==> kept[i] != "" && kept[i] != ".")
    && (forall i, j :: 0 <= i < j < |kept| && kept[j] == ".." ==> kept[i] == "..")
  }

  lemma {:induction false} ReduceReduces(kept: seq<string>, es: seq<string>, rooted: bool)
    requires Reduced(kept) && NoSlash(es)
    ensures Reduced(Reduce(kept, es, rooted))
    decreases |es|
  {
    if es != [] {
      var e, last := es[0], |kept| - 1;
      if e == "" || e == "." {
        ReduceReduces(kept, es[1..], rooted);
      } else if e != ".." {
        ReduceReduces(kept + [e], es[1..], rooted);
      } else if kept != [] && kept[last] != ".." {
        ReduceReduces(kept[..last], es[1..], rooted);
      } else if rooted {
        ReduceReduces(kept, es[1..], rooted);
      } else {
        ReduceReduces(kept + [e], es[1..], rooted);
      }
    }
  }

  ghost predicate Plain(es: seq<string>) {
    forall i :: 0 <= i < |es| ==> es[i] != "" && es[i] != "." && es[i] != ".."
  }

  lemma {:induction false} ReducePlain(kept: seq<string>, es: seq<string>, rooted: bool)
    requires Plain(es)
    ensures Reduce(kept, es, rooted) == kept + es
    decreases |es|
  {
    if es == [] {
      assert kept + es == kept;
    } else {
      ReducePlain(kept + [es[0]], es[1..], rooted);
      assert kept + [es[0]] + es[1..] == kept + es;
    }
  }

  /** A path that a family may own, as it is checked. */
  predicate GoodPath(p: Path) {
    && p != "" && p != "." && p[0] != '/' && Clean(p) == p && p != ".."
    && !("../" <= p) && '\\' !in p
  }

  /** These checks together: elements that are neither empty nor dots, and no backslash. */
  lemma GoodPathRule(p: Path)
    ensures GoodPath(p) <==> Plain(Elements(p)) && '\\' !in p
  {
    JoinElements(p);
    if GoodPath(p) {
      CleanIsPlain(p);
    }
    if Plain(Elements(p)) {
      PlainIsClean(p);
    }
  }

  lemma CleanIsPlain(p: Path)
    requires GoodPath(p)
    ensures Plain(Elements(p))
  {
    JoinElements(p);
    var kept := Reduce([], Elements(p), false);
    ReduceReduces([], Elements(p), false);
    assert p == "" + Joined(kept) == Joined(kept);
    ElementsJoin(kept);
    assert Elements(p) == kept;
    NoDots(kept);
  }

  lemma NoDots(kept: seq<string>)
    requires Reduced(kept) && kept != [] && Joined(kept) != ".." && !("../" <= Joined(kept))
    ensures Plain(kept)
  {
    if kept[0] == ".." {
      DotsFirst(kept);
    }
  }

  lemma DotsFirst(kept: seq<string>)
    requires kept != [] && kept[0] == ".."
    ensures Joined(kept) == ".." || "../" <= Joined(kept)
  {
    if |kept| > 1 {
      var rest := Joined(kept[1..]);
      assert Joined(kept) == ".." + "/" + rest;
      assert (".." + "/" + rest)[..3] == "../";
    }
  }

  lemma PlainIsClean(p: Path)
    requires Plain(Elements(p))
    ensures p != "" && p != "." && p[0] != '/' && p != ".." && !("../" <= p) && Clean(p) == p
  {
    JoinElements(p);
    var es := Elements(p);
    if p == "" || p == "." || p == ".." || p[0] == '/' || "../" <= p {
      NotPlain(p);
    }
    ReducePlain([], es, false);
    assert [] + es == es && "" + Joined(es) == p;
  }

  lemma NotPlain(p: Path)
    requires p == "" || p == "." || p == ".." || p[0] == '/' || "../" <= p
    ensures !Plain(Elements(p))
  {
    OneElement(".");
    OneElement("..");
    if "../" <= p {
      assert p == ".." + "/" + p[3..];
      FirstElement("..", p[3..]);
    }
    var e := Elements(p)[0];
    assert e == "" || e == "." || e == "..";
  }
}
