/** Lists of replacements in a sequence, in order and without overlap, and what they make of it. */
module Splices {
  import Collections

  /** Replace the elements from start to end by what is new. */
  datatype Splice<T> = Splice(start: nat, end: nat, ins: seq<T>)

  function Last<T>(s: seq<T>): T
    requires s != []
  {
    s[|s| - 1]
  }

  function Front<T>(s: seq<T>): seq<T>
    requires s != []
  {
    s[..|s| - 1]
  }

  /** The elements the splices delete and insert. */
  function Cost<T>(edits: seq<Splice<T>>): int {
    if edits == [] then 0 else Cost(Front(edits)) + Last(edits).end - Last(edits).start + |Last(edits).ins|
  }

  /** Each changes something, and there is something left between one and the next. */
  predicate Separated<T(==)>(edits: seq<Splice<T>>) {
    && (forall i :: 0 <= i < |edits| ==> edits[i].start < edits[i].end || edits[i].ins != [])
    && forall i :: 0 < i < |edits| ==> edits[i - 1].end < edits[i].start
  }

  /** How far into the old sequence the splices reach. */
  function End<T>(edits: seq<Splice<T>>): nat {
    if edits == [] then 0 else Last(edits).end
  }

  /** Sorted, without overlap, and inside a sequence of n elements. */
  predicate Valid<T>(edits: seq<Splice<T>>, n: nat) {
    edits == [] ||
    (Valid(Front(edits), n) && End(Front(edits)) <= Last(edits).start <= Last(edits).end <= n)
  }

  /** The new sequence up to where the last splice ends. */
  function Out<T>(src: seq<T>, edits: seq<Splice<T>>): seq<T>
    requires Valid(edits, |src|)
  {
    if edits == [] then []
    else Out(src, Front(edits)) + src[End(Front(edits))..Last(edits).start] + Last(edits).ins
  }

  function Apply<T>(src: seq<T>, edits: seq<Splice<T>>): seq<T>
    requires Valid(edits, |src|)
  {
    Out(src, edits) + src[End(edits)..]
  }

  lemma FrontOfAppend<T>(s: seq<T>, x: T)
    ensures Front(s + [x]) == s && Last(s + [x]) == x
  {
    assert (s + [x])[..|s|] == s;
  }

  /** No splices. */
  lemma ApplyNone<T>(src: seq<T>)
    ensures Valid<T>([], |src|) && Apply(src, []) == src
  {
    assert [] + src[0..] == src;
  }

  /** One splice more. */
  lemma Append<T>(src: seq<T>, edits: seq<Splice<T>>, e: Splice<T>)
    requires Valid(edits, |src|) && End(edits) <= e.start <= e.end <= |src|
    ensures Valid(edits + [e], |src|) && End(edits + [e]) == e.end
    ensures Out(src, edits + [e]) == Out(src, edits) + src[End(edits)..e.start] + e.ins
  {
    FrontOfAppend(edits, e);
  }

  /** A last splice that also rewrites its surroundings as they are. */
  lemma Widen<T>(src: seq<T>, done: seq<Splice<T>>, e: Splice<T>, s: nat, end: nat)
    requires Valid(done, |src|) && End(done) <= s <= e.start <= e.end <= end <= |src|
    ensures var x := Splice(s, end, src[s..e.start] + e.ins + src[e.end..end]);
            && Valid(done + [e], |src|) && Valid(done + [x], |src|)
            && Out(src, done + [x]) == Out(src, done + [e]) + src[e.end..end]
  {
    var x := Splice(s, end, src[s..e.start] + e.ins + src[e.end..end]);
    Append(src, done, e);
    Append(src, done, x);
    Collections.Regroup(Out(src, done), src[End(done)..s], src[s..e.start], e.ins, src[e.end..end]);
    Collections.Join(src, End(done), s, e.start);
  }

  /** Prefixes of valid lists are valid. */
  lemma {:induction false} ValidPrefix<T>(edits: seq<Splice<T>>, n: nat, k: nat)
    requires Valid(edits, n) && k <= |edits|
    ensures Valid(edits[..k], n)
    ensures k < |edits| ==> End(edits[..k]) <= edits[k].start <= edits[k].end <= n
    decreases |edits|
  {
    if k == |edits| {
      assert edits[..k] == edits;
    } else {
      if k < |edits| - 1 {
        ValidPrefix(Front(edits), n, k);
        assert Front(edits)[..k] == edits[..k];
      }
    }
  }

  /** The length of the result: every splice adds what it inserts and takes what it removes. */
  function Growth<T>(edits: seq<Splice<T>>): int {
    if edits == [] then 0 else Growth(Front(edits)) + |Last(edits).ins| + Last(edits).start - Last(edits).end
  }

  lemma {:induction false} OutLength<T>(src: seq<T>, edits: seq<Splice<T>>)
    requires Valid(edits, |src|)
    ensures |Out(src, edits)| == End(edits) + Growth(edits)
  {
    if edits != [] {
      OutLength(src, Front(edits));
    }
  }
}
