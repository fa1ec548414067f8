/** The CBOR writer of hand-built decode inputs (RFC 8949): every head in its shortest form. */
module Cbor {
  import opened Words
  import opened Collections

  type Major = x: int | 0 <= x < 8

  function Head(major: Major, n: Word): seq<Byte> {
    var m := major * 32;
    if n < 24 then [m + n]
    else if n <= 0xff then [m + 24] + BigEndian(n, 1)
    else if n <= 0xffff then [m + 25] + BigEndian(n, 2)
    else if n <= 0xffff_ffff then [m + 26] + BigEndian(n, 4)
    else [m + 27] + BigEndian(n, 8)
  }

  /** One write: an integer, a container head, or a string with its bytes. */
  datatype Item =
    | Unsigned(n: Word)
    | Negative(n: Word)
    | Array(n: Word)
    | Map(n: Word)
    | Bytes(s: seq<Byte>)
    | Text(s: seq<Byte>)

  /** A Go slice is far shorter than 2^64. */
  predicate Writable(item: Item) {
    (item.Bytes? || item.Text?) ==> |item.s| < TWO64
  }

  function Encode(item: Item): seq<Byte>
    requires Writable(item)
  {
    match item
    case Unsigned(n) => Head(0, n)
    case Negative(n) => Head(1, n)
    case Bytes(s) => Head(2, |s|) + s
    case Text(s) => Head(3, |s|) + s
    case Array(n) => Head(4, n)
    case Map(n) => Head(5, n)
  }

  function EncodeAll(items: seq<Item>): seq<Byte>
    requires forall item :: item in items ==> Writable(item)
  {
    if items == [] then [] else Encode(items[0]) + EncodeAll(items[1..])
  }

  class Writer {
    var b: seq<Byte>

    constructor ()
      ensures b == []
    {
      b := [];
    }

    method WriteHead(major: Major, n: Word)
      modifies this
      ensures b == old(b) + Head(major, n)
    {
      var m := major * 32;
      if n < 24 {
        b := b + [m + n];
      } else if n <= 0xff {
        b := b + [m + 24, n];
        assert BigEndian(n, 1) == BigEndian(n / 256, 0) + [n % 256];
      } else if n <= 0xffff {
        b := b + [m + 25, n / 0x100, n % 0x100];
        BigEndian2(n);
      } else if n <= 0xffff_ffff {
        b := b + [m + 26, n / 0x100_0000, n / 0x1_0000 % 0x100, n / 0x100 % 0x100, n % 0x100];
        BigEndian4(n);
      } else {
        b := b + [m + 27];
        b := b + BigEndian(n, 8);
      }
    }

    /** u, neg, bs, ts, arr and mp. */
    method Write(item: Item)
      requires Writable(item)
      modifies this
      ensures b == old(b) + Encode(item)
    {
      match item
      case Unsigned(n) => WriteHead(0, n);
      case Negative(n) => WriteHead(1, n);
      case Bytes(s) =>
        WriteHead(2, |s|);
        b := b + s;
      case Text(s) =>
        WriteHead(3, |s|);
        b := b + s;
      case Array(n) => WriteHead(4, n);
      case Map(n) => WriteHead(5, n);
    }
  }

  lemma BigEndian2(n: Word)
    requires n <= 0xffff
    ensures BigEndian(n, 2) == [n / 0x100, n % 0x100]
  {
    assert BigEndian(n / 256, 1) == BigEndian(n / 256 / 256, 0) + [n / 256 % 256];
  }

  lemma BigEndian4(n: Word)
    requires n <= 0xffff_ffff
    ensures BigEndian(n, 4) == [n / 0x100_0000, n / 0x1_0000 % 0x100, n / 0x100 % 0x100, n % 0x100]
  {
    var h := n / 0x1_0000;
    assert n / 256 / 256 == h;
    BigEndian2(h);
    assert BigEndian(n / 256, 3) == BigEndian(h, 2) + [n / 256 % 256];
    assert h / 0x100 == n / 0x100_0000;
  }

  // ----- reading

  datatype HeadRead = HeadRead(major: Major, n: Word, size: nat)

  /** How many argument bytes follow the initial byte (section 3 of RFC 8949). */
  function ArgumentSize(info: nat): Option<nat> {
    if info < 24 then Some(0)
    else if info == 24 then Some(1)
    else if info == 25 then Some(2)
    else if info == 26 then Some(4)
    else if info == 27 then Some(8)
    else None
  }

  /** Reads any definite head, shortest or not. */
  function ReadHead(s: seq<Byte>): Option<HeadRead> {
    if s == [] then None
    else
      var info := s[0] % 32;
      match ArgumentSize(info)
      case None => None
      case Some(k) =>
        if |s| < 1 + k then None
        else
          var n := if k == 0 then info else FromBigEndian(s[1..1 + k]);
          BigEndianFits(s[1..1 + k]);
          ByteWidths();
          Some(HeadRead(s[0] / 32, n, 1 + k))
  }

  /** A head is an initial byte and k argument bytes. */
  lemma HeadParts(major: Major, n: Word) returns (info: nat, k: nat)
    ensures info < 32 && ArgumentSize(info) == Some(k)
    ensures Head(major, n) == [major * 32 + info] + (if k == 0 then [] else BigEndian(n, k))
    ensures if k == 0 then info == n else n < Pow256(k)
  {
    ByteWidths();
    if n < 24 {
      info, k := n, 0;
    } else if n <= 0xff {
      info, k := 24, 1;
    } else if n <= 0xffff {
      info, k := 25, 2;
    } else if n <= 0xffff_ffff {
      info, k := 26, 4;
    } else {
      info, k := 27, 8;
    }
  }

  lemma FirstByte(major: Major, info: nat)
    requires info < 32
    ensures (major * 32 + info) % 32 == info && (major * 32 + info) / 32 == major
  {
  }

  lemma HeadReads(major: Major, n: Word, rest: seq<Byte>)
    ensures ReadHead(Head(major, n) + rest) == Some(HeadRead(major, n, |Head(major, n)|))
  {
    var info, k := HeadParts(major, n);
    var s := Head(major, n) + rest;
    if k > 0 {
      assert s[1..1 + k] == BigEndian(n, k);
      BigEndianRoundTrip(n, k);
    }
    ReadHeadIs(s, major, info, k, n);
  }

  lemma ReadHeadIs(s: seq<Byte>, major: Major, info: nat, k: nat, n: Word)
    requires 1 + k <= |s| && info < 32 && s[0] == major * 32 + info && ArgumentSize(info) == Some(k)
    requires n == if k == 0 then info else FromBigEndian(s[1..1 + k])
    ensures ReadHead(s) == Some(HeadRead(major, n, 1 + k))
  {
    FirstByte(major, info);
  }

  /** Heads of different (major, n) are never prefixes of one another. */
  lemma HeadsArePrefixFree(m1: Major, n1: Word, m2: Major, n2: Word)
    requires Head(m1, n1) <= Head(m2, n2)
    ensures m1 == m2 && n1 == n2
  {
    var rest := Head(m2, n2)[|Head(m1, n1)|..];
    assert Head(m2, n2) == Head(m1, n1) + rest;
    HeadReads(m1, n1, rest);
    HeadReads(m2, n2, []);
    assert Head(m2, n2) + [] == Head(m2, n2);
  }

  /** No head that means (major, n) is shorter (section 4.2.1 of RFC 8949). */
  lemma HeadIsShortest(s: seq<Byte>)
    requires ReadHead(s).Some?
    ensures var h := ReadHead(s).value;
            |Head(h.major, h.n)| <= h.size <= |s|
  {
    var h := ReadHead(s).value;
    var k := h.size - 1;
    ByteWidths();
    BigEndianFits(s[1..1 + k]);
  }

  function ReadItem(s: seq<Byte>): Option<(Item, nat)> {
    match ReadHead(s)
    case None => None
    case Some(h) =>
      if h.major == 0 then Some((Unsigned(h.n), h.size))
      else if h.major == 1 then Some((Negative(h.n), h.size))
      else if h.major == 4 then Some((Array(h.n), h.size))
      else if h.major == 5 then Some((Map(h.n), h.size))
      else if h.major > 5 || h.size + h.n > |s| then None
      else
        var body := s[h.size..h.size + h.n];
        Some((if h.major == 2 then Bytes(body) else Text(body), h.size + h.n))
  }

  lemma ReadItemProgress(s: seq<Byte>)
    requires ReadItem(s).Some?
    ensures 0 < ReadItem(s).value.1 <= |s|
  {
  }

  function ReadAll(s: seq<Byte>): Option<seq<Item>>
    decreases |s|
  {
    if s == [] then Some([])
    else
      match ReadItem(s)
      case None => None
      case Some(r) =>
        ReadItemProgress(s);
        match ReadAll(s[r.1..])
        case None => None
        case Some(items) => Some([r.0] + items)
  }

  lemma ItemReads(item: Item, rest: seq<Byte>)
    requires Writable(item)
    ensures ReadItem(Encode(item) + rest) == Some((item, |Encode(item)|))
  {
    match item
    case Unsigned(n) => HeadReads(0, n, rest);
    case Negative(n) => HeadReads(1, n, rest);
    case Array(n) => HeadReads(4, n, rest);
    case Map(n) => HeadReads(5, n, rest);
    case Bytes(s) => StringReads(2, s, rest);
    case Text(s) => StringReads(3, s, rest);
  }

  lemma StringReads(major: Major, s: seq<Byte>, rest: seq<Byte>)
    requires |s| < TWO64
    ensures var head := Head(major, |s|);
            var all := head + s + rest;
            && ReadHead(all) == Some(HeadRead(major, |s|, |head|))
            && all[|head|..|head| + |s|] == s
  {
    var head := Head(major, |s|);
    HeadReads(major, |s|, s + rest);
    assert head + s + rest == head + (s + rest);
  }

  /** Any sequence of writes is recovered from its bytes, so different sequences write different
      bytes. */
  lemma {:induction false} WritesAreRecovered(items: seq<Item>)
    requires forall item :: item in items ==> Writable(item)
    ensures ReadAll(EncodeAll(items)) == Some(items)
  {
    if items != [] {
      var s := EncodeAll(items);
      ItemReads(items[0], EncodeAll(items[1..]));
      ReadItemProgress(s);
      WritesAreRecovered(items[1..]);
      assert s[|Encode(items[0])|..] == EncodeAll(items[1..]);
      assert [items[0]] + items[1..] == items;
    }
  }
}
