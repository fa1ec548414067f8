/** Go's pattern-defeating quicksort as a decision tree over positions. It ends, stays inside the
    array and never compares a position with itself, whatever the answers. */
module PdqTree {
  import opened Sorters
  import Words

  // ----- insertion sort

  /** The element at j goes down, not below a. */
  function SinkTree(a: int, j: int): Sorter<()>
    decreases j - a
  {
    if j > a then Less(j, j - 1, Swap(j, j - 1, SinkTree(a, j - 1)), Done(())) else Done(())
  }

  function InsertionTree(a: int, b: int, i: int): Sorter<()>
    decreases b - i
  {
    if i < b then Then(SinkTree(a, i), InsertionTree(a, b, i + 1)) else Done(())
  }

  // ----- heap sort

  function SiftTree(root: int, hi: int, first: int): Sorter<()>
    requires 0 <= root
    decreases hi - root, 1
  {
    var c := 2 * root + 1;
    if c + 1 < hi then Less(first + c, first + c + 1, SiftAt(root, c + 1, hi, first), SiftAt(root, c, hi, first))
    else if c < hi then SiftAt(root, c, hi, first)
    else Done(())
  }

  function SiftAt(root: int, child: int, hi: int, first: int): Sorter<()>
    requires 0 <= root < child < hi
    decreases hi - root, 0
  {
    Less(first + root, first + child, Swap(first + root, first + child, SiftTree(child, hi, first)), Done(()))
  }

  function BuildTree(first: int, hi: int, i: int): Sorter<()>
    requires -1 <= i
    decreases i + 1
  {
    if i >= 0 then Then(SiftTree(i, hi, first), BuildTree(first, hi, i - 1)) else Done(())
  }

  function PopTree(first: int, i: int): Sorter<()>
    requires -1 <= i
    decreases i + 1
  {
    if i >= 0 then Swap(first, first + i, Then(SiftTree(0, i, first), PopTree(first, i - 1))) else Done(())
  }

  /** The last element that has a child. */
  function LastParent(hi: nat): int {
    if hi == 0 then 0 else (hi - 1) / 2
  }

  function HeapTree(a: int, b: int): Sorter<()>
    requires a <= b
  {
    Then(BuildTree(a, b - a, LastParent(b - a)), PopTree(a, b - a - 1))
  }

  // ----- partitions

  /** Does the element at p belong to the front? With the pivot at a: it belongs before the pivot, or,
      for the partition into equal and greater elements, not behind it. */
  function FrontTree<R>(equal: bool, a: int, p: int, yes: Sorter<R>, no: Sorter<R>): Sorter<R> {
    if equal then Less(a, p, no, yes) else Less(p, a, yes, no)
  }

  /** Skips what is in place at the front. It tells where front and back begin and end, and whether
      nothing had to be exchanged. */
  function UpTree(equal: bool, a: int, p: int, q: int, first: bool): Sorter<(int, int, bool)>
    decreases q - p, 1
  {
    if p <= q then FrontTree(equal, a, p, UpTree(equal, a, p + 1, q, first), DownTree(equal, a, p, q, first))
    else Done((p, q, first))
  }

  /** Skips what is in place at the back. */
  function DownTree(equal: bool, a: int, p: int, q: int, first: bool): Sorter<(int, int, bool)>
    decreases q - p, 0
  {
    if p <= q
    then FrontTree(equal, a, q, AcrossTree(equal, a, p, q), DownTree(equal, a, p, q - 1, first))
    else Done((p, q, first))
  }

  /** Exchanges two elements, and goes on. */
  function AcrossTree(equal: bool, a: int, p: int, q: int): Sorter<(int, int, bool)>
    requires p <= q
    decreases q - p, -1
  {
    Swap(p, q, UpTree(equal, a, p + 1, q - 1, false))
  }

  function PlaceTree(a: int): ((int, int, bool)) -> Sorter<(int, bool)> {
    (r: (int, int, bool)) => Swap(r.1, a, Done((r.1, r.2)))
  }

  function PartitionTree(a: int, b: int, pivot: int): Sorter<(int, bool)> {
    Swap(a, pivot, Bind(UpTree(false, a, a + 1, b - 1, true), PlaceTree(a)))
  }

  function PartitionEqualTree(a: int, b: int, pivot: int): Sorter<(int, int, bool)> {
    Swap(a, pivot, UpTree(true, a, a + 1, b - 1, true))
  }

  // ----- rearranging

  function ReverseTree(i: int, j: int): Sorter<()>
    decreases j - i
  {
    if i < j then Swap(i, j, ReverseTree(i + 1, j - 1)) else Done(())
  }

  function BitsLen(x: nat): (n: nat) {
    if x == 0 then 0 else 1 + BitsLen(x / 2)
  }

  /** The next power of two is less than twice the number away. */
  lemma {:induction false} NextPowerOfTwo(n: nat)
    requires n > 0
    ensures n < Words.Pow2(BitsLen(n)) <= 2 * n
  {
    if n > 1 {
      NextPowerOfTwo(n / 2);
    } else {
      assert BitsLen(1) == 1 + BitsLen(0) && Words.Pow2(1) == 2 * Words.Pow2(0);
    }
  }

  /** xorshift on 64 bits. */
  function NextRandom(r: nat): nat {
    var x := Words.Xor(r, r * 0x2000 % Words.TWO64);
    var y := Words.XorShift(x, 7);
    Words.Xor(y, y * 0x2_0000 % Words.TWO64)
  }

  /** A random number below length. */
  function Wrapped(random: nat, length: nat): (other: nat)
    requires 0 < length
    ensures other < length
  {
    NextPowerOfTwo(length);
    var r := random % Words.Pow2(BitsLen(length));
    if r >= length then r - length else r
  }

  function BreakFrom(a: int, idx: int, last: int, random: nat, length: nat): Sorter<()>
    requires 0 < length
    decreases last - idx
  {
    if idx <= last
    then
      var next := NextRandom(random);
      Swap(idx, a + Wrapped(next, length), BreakFrom(a, idx + 1, last, next, length))
    else Done(())
  }

  function BreakTree(a: int, b: int): Sorter<()> {
    var length := b - a;
    if length >= 8 then BreakFrom(a, a + length / 4 * 2 - 1, a + length / 4 * 2 + 1, length, length) else Done(())
  }

  // ----- choosing a pivot

  datatype Hint = UnknownHint | Increasing | Decreasing

  function HintOf(swaps: nat): Hint {
    if swaps == 0 then Increasing else if swaps == 12 then Decreasing else UnknownHint
  }

  /** What a median is for: the first, second or third of a ninther, with the other places of it, or the
      last one. */
  datatype Use = First(j: int, k: int) | Second(i: int, k: int) | Third(i: int, j: int) | Last

  function Rank(use: Use): nat {
    match use
    case First(_, _) => 3
    case Second(_, _) => 2
    case Third(_, _) => 1
    case Last => 0
  }

  function MedianTree(use: Use, a: int, b: int, c: int, swaps: nat): Sorter<(int, Hint)>
    decreases Rank(use), 3
  {
    Less(b, a, MedianOf(use, b, a, c, swaps + 1), MedianOf(use, a, b, c, swaps))
  }

  /** The element at y does not belong before the one at x. */
  function MedianOf(use: Use, x: int, y: int, c: int, swaps: nat): Sorter<(int, Hint)>
    decreases Rank(use), 2
  {
    Less(c, y, Upper(use, x, c, swaps + 1), Upper(use, x, y, swaps))
  }

  function Upper(use: Use, x: int, y: int, swaps: nat): Sorter<(int, Hint)>
    decreases Rank(use), 1
  {
    Less(y, x, UseTree(use, x, swaps + 1), UseTree(use, y, swaps))
  }

  /** What comes after the median. */
  function UseTree(use: Use, m: int, swaps: nat): Sorter<(int, Hint)>
    decreases Rank(use), 0
  {
    match use
    case First(j, k) => MedianTree(Second(m, k), j - 1, j, j + 1, swaps)
    case Second(i, k) => MedianTree(Third(i, m), k - 1, k, k + 1, swaps)
    case Third(i, j) => MedianTree(Last, i, j, m, swaps)
    case Last => Done((m, HintOf(swaps)))
  }

  function ChooseTree(a: int, b: int): Sorter<(int, Hint)> {
    var l := b - a;
    var i, j, k := a + l / 4, a + l / 4 * 2, a + l / 4 * 3;
    if l >= 50 then MedianTree(First(j, k), i - 1, i, i + 1, 0)
    else if l >= 8 then MedianTree(Last, i, j, k, 0)
    else Done((j, HintOf(0)))
  }

  // ----- ranges that may be sorted already

  function PartialTree(a: int, b: int, i: int, step: nat): Sorter<bool>
    requires step <= 5
    decreases 5 - step, b - i, 1
  {
    if step == 5 then Done(false) else AscendTree(a, b, i, step)
  }

  function AscendTree(a: int, b: int, i: int, step: nat): Sorter<bool>
    requires step < 5
    decreases 5 - step, b - i, 0
  {
    if i < b then Less(i, i - 1, ShiftTree(a, b, i, step), AscendTree(a, b, i + 1, step)) else Done(true)
  }

  function ShiftTree(a: int, b: int, i: int, step: nat): Sorter<bool>
    requires step < 5 && i < b
    decreases 5 - step, b - i - 1, 2
  {
    if b - a < 50 then Done(false)
    else Swap(i, i - 1, Then(if i - a >= 2 then SinkTree(0, i - 1) else Done(()),
                             Then(if b - i >= 2 then RiseTree(i + 1, b) else Done(()), PartialTree(a, b, i, step + 1))))
  }

  /** The element before j goes up, not beyond b. */
  function RiseTree(j: int, b: int): Sorter<()>
    decreases b - j
  {
    if j < b then Less(j, j - 1, Swap(j, j - 1, RiseTree(j + 1, b)), Done(())) else Done(())
  }

  // ----- the sort

  /** The pivot of the next partition, and whether the range is sorted. */
  function ReadyTree(lo: int, hi: int, balanced: bool, partitioned: bool): Sorter<(int, bool)> {
    Then(if balanced then Done(()) else BreakTree(lo, hi),
         Bind(ChooseTree(lo, hi), ChosenTree(lo, hi, balanced && partitioned)))
  }

  function ChosenTree(lo: int, hi: int, try: bool): ((int, Hint)) -> Sorter<(int, bool)> {
    (r: (int, Hint)) =>
      if r.1 == Decreasing then Then(ReverseTree(lo, hi - 1), TryTree(lo, hi, hi - 1 - (r.0 - lo), try))
      else TryTree(lo, hi, r.0, try && r.1 == Increasing)
  }

  function TryTree(lo: int, hi: int, pivot: int, try: bool): Sorter<(int, bool)> {
    if try then Bind(PartialTree(lo, hi, lo + 1, 0), WithPivot(pivot)) else Done((pivot, false))
  }

  function WithPivot(pivot: int): bool -> Sorter<(int, bool)> {
    (done: bool) => Done((pivot, done))
  }

  function Pdq(lo: int, hi: int, bad: nat, balanced: bool, partitioned: bool): Sorter<()>
    requires lo <= hi
    decreases hi - lo, 3
  {
    if hi - lo <= 12 then InsertionTree(lo, hi, lo + 1)
    else if bad == 0 then HeapTree(lo, hi)
    else Bind(ReadyTree(lo, hi, balanced, partitioned),
              AfterReady(lo, hi, if balanced then bad else bad - 1, balanced, partitioned))
  }

  function AfterReady(lo: int, hi: int, bad: nat, balanced: bool, partitioned: bool): ((int, bool)) -> Sorter<()>
    requires lo <= hi
    decreases hi - lo, 2
  {
    (r: (int, bool)) =>
      if r.1 then Done(())
      else if lo > 0
      then Less(lo - 1, r.0, DivideTree(lo, hi, bad, r.0), SkipTree(lo, hi, bad, balanced, partitioned, r.0))
      else DivideTree(lo, hi, bad, r.0)
  }

  function SkipTree(lo: int, hi: int, bad: nat, balanced: bool, partitioned: bool, pivot: int): Sorter<()>
    requires lo <= hi
    decreases hi - lo, 1
  {
    Bind(PartitionEqualTree(lo, hi, pivot), AfterSkip(lo, hi, bad, balanced, partitioned))
  }

  function AfterSkip(lo: int, hi: int, bad: nat, balanced: bool, partitioned: bool): ((int, int, bool)) -> Sorter<()>
    requires lo <= hi
    decreases hi - lo, 0
  {
    (r: (int, int, bool)) => if lo < r.0 <= hi then Pdq(r.0, hi, bad, balanced, partitioned) else Done(())
  }

  function DivideTree(lo: int, hi: int, bad: nat, pivot: int): Sorter<()>
    requires lo <= hi
    decreases hi - lo, 1
  {
    Bind(PartitionTree(lo, hi, pivot), AfterDivide(lo, hi, bad))
  }

  function AfterDivide(lo: int, hi: int, bad: nat): ((int, bool)) -> Sorter<()>
    requires lo <= hi
    decreases hi - lo, 0
  {
    (r: (int, bool)) =>
      var mid := r.0;
      if !(lo <= mid < hi) then Done(())
      else if mid - lo < hi - mid
      then Then(Pdq(lo, mid, bad, true, true), Pdq(mid + 1, hi, bad, mid - lo >= (hi - lo) / 8, r.1))
      else Then(Pdq(mid + 1, hi, bad, true, true), Pdq(lo, mid, bad, hi - mid >= (hi - lo) / 8, r.1))
  }

  /** sort.Sort and sort.Slice for n elements. */
  function SortTree(n: nat): Sorter<()> {
    Pdq(0, n, BitsLen(n), true, true)
  }

  // ----- whatever the answers

  lemma {:induction false} SinkSound(a: int, j: int, n: nat)
    requires 0 <= a && j < n
    ensures Sound(SinkTree(a, j), n, Any<()>())
    decreases j - a
  {
    if j > a {
      SinkSound(a, j - 1, n);
    }
  }

  lemma {:induction false} InsertionSound(a: int, b: int, i: int, n: nat)
    requires 0 <= a && b <= n
    ensures Sound(InsertionTree(a, b, i), n, Any<()>())
    decreases b - i
  {
    if i < b {
      SinkSound(a, i, n);
      InsertionSound(a, b, i + 1, n);
      SoundThen(SinkTree(a, i), InsertionTree(a, b, i + 1), n, Any<()>());
    }
  }

  lemma {:induction false} SiftSound(root: int, hi: int, first: int, n: nat)
    requires 0 <= root && 0 <= first && first + hi <= n
    ensures Sound(SiftTree(root, hi, first), n, Any<()>())
    decreases hi - root
  {
    var c := 2 * root + 1;
    if c + 1 < hi {
      SiftSound(c + 1, hi, first, n);
    }
    if c < hi {
      SiftSound(c, hi, first, n);
    }
  }

  lemma {:induction false} BuildSound(first: int, hi: int, i: int, n: nat)
    requires -1 <= i && 0 <= first && first + hi <= n
    ensures Sound(BuildTree(first, hi, i), n, Any<()>())
    decreases i
  {
    if i >= 0 {
      SiftSound(i, hi, first, n);
      BuildSound(first, hi, i - 1, n);
      SoundThen(SiftTree(i, hi, first), BuildTree(first, hi, i - 1), n, Any<()>());
    }
  }

  lemma {:induction false} PopSound(first: int, i: int, n: nat)
    requires -1 <= i && 0 <= first && first + i < n
    ensures Sound(PopTree(first, i), n, Any<()>())
    decreases i
  {
    if i >= 0 {
      SiftSound(0, i, first, n);
      PopSound(first, i - 1, n);
      SoundThen(SiftTree(0, i, first), PopTree(first, i - 1), n, Any<()>());
    }
  }

  lemma HeapSound(a: int, b: int, n: nat)
    requires 0 <= a <= b <= n
    ensures Sound(HeapTree(a, b), n, Any<()>())
  {
    BuildSound(a, b - a, LastParent(b - a), n);
    PopSound(a, b - a - 1, n);
    SoundThen(BuildTree(a, b - a, LastParent(b - a)), PopTree(a, b - a - 1), n, Any<()>());
  }

  /** Where a partition may end. */
  function Cut(a: int, b: int): ((int, int, bool)) -> bool {
    (r: (int, int, bool)) => a < r.0 <= b && a <= r.1 < b
  }

  lemma {:induction false} UpSound(equal: bool, a: int, b: int, p: int, q: int, first: bool, n: nat)
    requires 0 <= a < p <= b <= n && a <= q < b
    ensures Sound(UpTree(equal, a, p, q, first), n, Cut(a, b))
    decreases q - p, 1
  {
    if p <= q {
      UpSound(equal, a, b, p + 1, q, first, n);
      DownSound(equal, a, b, p, q, first, n);
    }
  }

  lemma {:induction false} DownSound(equal: bool, a: int, b: int, p: int, q: int, first: bool, n: nat)
    requires 0 <= a < p <= b <= n && a <= q < b
    ensures Sound(DownTree(equal, a, p, q, first), n, Cut(a, b))
    decreases q - p, 0
  {
    if p <= q {
      UpSound(equal, a, b, p + 1, q - 1, false, n);
      DownSound(equal, a, b, p, q - 1, first, n);
    }
  }

  function Mid(a: int, b: int): ((int, bool)) -> bool {
    (r: (int, bool)) => a <= r.0 < b
  }

  lemma PartitionSound(a: int, b: int, pivot: int, n: nat)
    requires 0 <= a <= pivot < b <= n
    ensures Sound(PartitionTree(a, b, pivot), n, Mid(a, b))
    ensures Sound(PartitionEqualTree(a, b, pivot), n, Cut(a, b))
  {
    UpSound(false, a, b, a + 1, b - 1, true, n);
    UpSound(true, a, b, a + 1, b - 1, true, n);
    SoundBind(UpTree(false, a, a + 1, b - 1, true), PlaceTree(a), n, Cut(a, b), Mid(a, b));
  }

  lemma {:induction false} ReverseSound(i: int, j: int, n: nat)
    requires 0 <= i && j < n
    ensures Sound(ReverseTree(i, j), n, Any<()>())
    decreases j - i
  {
    if i < j {
      ReverseSound(i + 1, j - 1, n);
    }
  }

  lemma {:induction false} BreakSound(a: int, idx: int, last: int, random: nat, length: nat, n: nat)
    requires 0 < length && 0 <= a && a + length <= n && 0 <= idx && last < n
    ensures Sound(BreakFrom(a, idx, last, random, length), n, Any<()>())
    decreases last - idx
  {
    if idx <= last {
      BreakSound(a, idx + 1, last, NextRandom(random), length, n);
    }
  }

  function Pivot(a: int, b: int): ((int, Hint)) -> bool {
    (r: (int, Hint)) => a <= r.0 < b
  }

  /** The median of positions from lo to hi, all of the range from a to b, is used for positions that
      differ from it. */
  ghost predicate Suits(use: Use, lo: int, hi: int, a: int, b: int) {
    && 0 <= a <= lo && hi <= b
    && match use
       case First(j, k) => hi < j && j + 1 < k - 1 && k + 1 < b
       case Second(i, k) => a <= i < lo && hi < k && k + 1 < b
       case Third(i, j) => a <= i < j < lo
       case Last => true
  }

  lemma {:induction false} MedianSound(use: Use, p: int, q: int, c: int, swaps: nat, lo: int, hi: int, a: int, b: int,
                                       n: nat)
    requires Suits(use, lo, hi, a, b) && b <= n && lo <= p < hi && lo <= q < hi && lo <= c < hi
    requires p != q && q != c && p != c
    ensures Sound(MedianTree(use, p, q, c, swaps), n, Pivot(a, b))
    decreases Rank(use), 3
  {
    MedianOfSound(use, q, p, c, swaps + 1, lo, hi, a, b, n);
    MedianOfSound(use, p, q, c, swaps, lo, hi, a, b, n);
  }

  lemma {:induction false} MedianOfSound(use: Use, x: int, y: int, c: int, swaps: nat, lo: int, hi: int, a: int,
                                         b: int, n: nat)
    requires Suits(use, lo, hi, a, b) && b <= n && lo <= x < hi && lo <= y < hi && lo <= c < hi
    requires x != y && y != c && x != c
    ensures Sound(MedianOf(use, x, y, c, swaps), n, Pivot(a, b))
    decreases Rank(use), 2
  {
    UpperSound(use, x, c, swaps + 1, lo, hi, a, b, n);
    UpperSound(use, x, y, swaps, lo, hi, a, b, n);
  }

  lemma {:induction false} UpperSound(use: Use, x: int, y: int, swaps: nat, lo: int, hi: int, a: int, b: int, n: nat)
    requires Suits(use, lo, hi, a, b) && b <= n && lo <= x < hi && lo <= y < hi && x != y
    ensures Sound(Upper(use, x, y, swaps), n, Pivot(a, b))
    decreases Rank(use), 1
  {
    UseSound(use, x, swaps + 1, lo, hi, a, b, n);
    UseSound(use, y, swaps, lo, hi, a, b, n);
  }

  lemma {:induction false} UseSound(use: Use, m: int, swaps: nat, lo: int, hi: int, a: int, b: int, n: nat)
    requires Suits(use, lo, hi, a, b) && b <= n && lo <= m < hi
    ensures Sound(UseTree(use, m, swaps), n, Pivot(a, b))
    decreases Rank(use), 0
  {
    match use
    case First(j, k) => MedianSound(Second(m, k), j - 1, j, j + 1, swaps, j - 1, j + 2, a, b, n);
    case Second(i, k) => MedianSound(Third(i, m), k - 1, k, k + 1, swaps, k - 1, k + 2, a, b, n);
    case Third(i, j) => MedianSound(Last, i, j, m, swaps, a, b, a, b, n);
    case Last =>
  }

  lemma ChooseSound(a: int, b: int, n: nat)
    requires 0 <= a < b <= n
    ensures Sound(ChooseTree(a, b), n, Pivot(a, b))
  {
    var l := b - a;
    var i, j, k := a + l / 4, a + l / 4 * 2, a + l / 4 * 3;
    if l >= 50 {
      MedianSound(First(j, k), i - 1, i, i + 1, 0, i - 1, i + 2, a, b, n);
    } else if l >= 8 {
      MedianSound(Last, i, j, k, 0, a, b, a, b, n);
    }
  }

  lemma {:induction false} PartialSound(a: int, b: int, i: int, step: nat, n: nat)
    requires 0 <= a < i && b <= n && step <= 5
    ensures Sound(PartialTree(a, b, i, step), n, Any<bool>())
    decreases 5 - step, b - i, 1
  {
    if step < 5 {
      AscendSound(a, b, i, step, n);
    }
  }

  lemma {:induction false} AscendSound(a: int, b: int, i: int, step: nat, n: nat)
    requires 0 <= a < i && b <= n && step < 5
    ensures Sound(AscendTree(a, b, i, step), n, Any<bool>())
    decreases 5 - step, b - i, 0
  {
    if i < b {
      AscendSound(a, b, i + 1, step, n);
      PartialSound(a, b, i, step + 1, n);
      ShiftSound(a, b, i, step, n);
    }
  }

  lemma ShiftSound(a: int, b: int, i: int, step: nat, n: nat)
    requires 0 <= a < i < b <= n && step < 5 && Sound(PartialTree(a, b, i, step + 1), n, Any<bool>())
    ensures Sound(ShiftTree(a, b, i, step), n, Any<bool>())
  {
    SinkSound(0, i - 1, n);
    RiseSound(i + 1, b, n);
    var left := if i - a >= 2 then SinkTree(0, i - 1) else Done(());
    var right := if b - i >= 2 then RiseTree(i + 1, b) else Done(());
    SoundThen(right, PartialTree(a, b, i, step + 1), n, Any<bool>());
    SoundThen(left, Then(right, PartialTree(a, b, i, step + 1)), n, Any<bool>());
  }

  lemma {:induction false} RiseSound(j: int, b: int, n: nat)
    requires 0 < j && b <= n
    ensures Sound(RiseTree(j, b), n, Any<()>())
    decreases b - j
  {
    if j < b {
      RiseSound(j + 1, b, n);
    }
  }

  lemma ReadySound(lo: int, hi: int, balanced: bool, partitioned: bool, n: nat)
    requires 0 <= lo < hi <= n
    ensures Sound(ReadyTree(lo, hi, balanced, partitioned), n, Mid(lo, hi))
  {
    var try := balanced && partitioned;
    var before := if balanced then Done(()) else BreakTree(lo, hi);
    if !balanced && hi - lo >= 8 {
      var mid := lo + (hi - lo) / 4 * 2;
      BreakSound(lo, mid - 1, mid + 1, hi - lo, hi - lo, n);
    }
    ChooseSound(lo, hi, n);
    forall r | Pivot(lo, hi)(r) ensures Sound(ChosenTree(lo, hi, try)(r), n, Mid(lo, hi)) {
      ChosenSound(lo, hi, try, r, n);
    }
    SoundBind(ChooseTree(lo, hi), ChosenTree(lo, hi, try), n, Pivot(lo, hi), Mid(lo, hi));
    SoundThen(before, Bind(ChooseTree(lo, hi), ChosenTree(lo, hi, try)), n, Mid(lo, hi));
  }

  lemma ChosenSound(lo: int, hi: int, try: bool, r: (int, Hint), n: nat)
    requires 0 <= lo <= r.0 < hi <= n
    ensures Sound(ChosenTree(lo, hi, try)(r), n, Mid(lo, hi))
  {
    if r.1 == Decreasing {
      var pivot := hi - 1 - (r.0 - lo);
      ReverseSound(lo, hi - 1, n);
      TrySound(lo, hi, pivot, try, n);
      SoundThen(ReverseTree(lo, hi - 1), TryTree(lo, hi, pivot, try), n, Mid(lo, hi));
    } else {
      TrySound(lo, hi, r.0, try && r.1 == Increasing, n);
    }
  }

  lemma TrySound(lo: int, hi: int, pivot: int, try: bool, n: nat)
    requires 0 <= lo <= pivot < hi <= n
    ensures Sound(TryTree(lo, hi, pivot, try), n, Mid(lo, hi))
  {
    if try {
      PartialSound(lo, hi, lo + 1, 0, n);
      SoundBind(PartialTree(lo, hi, lo + 1, 0), WithPivot(pivot), n, Any<bool>(), Mid(lo, hi));
    }
  }

  lemma {:induction false} PdqSound(lo: int, hi: int, bad: nat, balanced: bool, partitioned: bool, n: nat)
    requires 0 <= lo <= hi <= n
    ensures Sound(Pdq(lo, hi, bad, balanced, partitioned), n, Any<()>())
    decreases hi - lo, 3
  {
    if hi - lo <= 12 {
      InsertionSound(lo, hi, lo + 1, n);
    } else if bad == 0 {
      HeapSound(lo, hi, n);
    } else {
      var bad' := if balanced then bad else bad - 1;
      var next := AfterReady(lo, hi, bad', balanced, partitioned);
      ReadySound(lo, hi, balanced, partitioned, n);
      forall r | Mid(lo, hi)(r) ensures Sound(next(r), n, Any<()>()) {
        DivideSound(lo, hi, bad', r.0, n);
        SkipSound(lo, hi, bad', balanced, partitioned, r.0, n);
      }
      SoundBind(ReadyTree(lo, hi, balanced, partitioned), next, n, Mid(lo, hi), Any<()>());
    }
  }

  lemma {:induction false} SkipSound(lo: int, hi: int, bad: nat, balanced: bool, partitioned: bool, pivot: int, n: nat)
    requires 0 <= lo <= pivot < hi <= n
    ensures Sound(SkipTree(lo, hi, bad, balanced, partitioned, pivot), n, Any<()>())
    decreases hi - lo, 1
  {
    var next := AfterSkip(lo, hi, bad, balanced, partitioned);
    PartitionSound(lo, hi, pivot, n);
    forall r | Cut(lo, hi)(r) ensures Sound(next(r), n, Any<()>()) {
      PdqSound(r.0, hi, bad, balanced, partitioned, n);
    }
    SoundBind(PartitionEqualTree(lo, hi, pivot), next, n, Cut(lo, hi), Any<()>());
  }

  lemma {:induction false} DivideSound(lo: int, hi: int, bad: nat, pivot: int, n: nat)
    requires 0 <= lo <= pivot < hi <= n
    ensures Sound(DivideTree(lo, hi, bad, pivot), n, Any<()>())
    decreases hi - lo, 1
  {
    var next := AfterDivide(lo, hi, bad);
    PartitionSound(lo, hi, pivot, n);
    forall r | Mid(lo, hi)(r) ensures Sound(next(r), n, Any<()>()) {
      SidesSound(lo, hi, bad, r, n);
    }
    SoundBind(PartitionTree(lo, hi, pivot), next, n, Mid(lo, hi), Any<()>());
  }

  lemma {:induction false} SidesSound(lo: int, hi: int, bad: nat, r: (int, bool), n: nat)
    requires 0 <= lo <= r.0 < hi <= n
    ensures Sound(AfterDivide(lo, hi, bad)(r), n, Any<()>())
    decreases hi - lo, 0
  {
    var mid := r.0;
    if mid - lo < hi - mid {
      PdqSound(lo, mid, bad, true, true, n);
      PdqSound(mid + 1, hi, bad, mid - lo >= (hi - lo) / 8, r.1, n);
      SoundThen(Pdq(lo, mid, bad, true, true), Pdq(mid + 1, hi, bad, mid - lo >= (hi - lo) / 8, r.1), n, Any<()>());
    } else {
      PdqSound(mid + 1, hi, bad, true, true, n);
      PdqSound(lo, mid, bad, hi - mid >= (hi - lo) / 8, r.1, n);
      SoundThen(Pdq(mid + 1, hi, bad, true, true), Pdq(lo, mid, bad, hi - mid >= (hi - lo) / 8, r.1), n, Any<()>());
    }
  }

  /** Whatever the answers, the sort ends, stays inside its n positions and never compares one with
      itself. */
  lemma SortIsSound(n: nat)
    ensures Fits(SortTree(n), n) && NoSelfCompare(SortTree(n))
  {
    PdqSound(0, n, BitsLen(n), true, true, n);
    SoundSorter(SortTree(n), n, Any<()>());
  }
}
