/** The sort of one run: moved in place into parts by the hash's leading bits, a part to each thread, and the
    parts sorted apart. Swaps never reach past another part's end, since each part has just as many slots as
    the run has pairs of it. */
module RunSort {
  import Bits
  import opened Pairs

  /** The part of `parts` a hash falls in: its high half scaled. */
  function PartOf(h: u64, parts: nat): nat {
    var high := h as int / 0x1_0000_0000;
    high * parts / 0x1_0000_0000
  }

  lemma PartInRange(h: u64, parts: nat)
    requires parts >= 1
    ensures PartOf(h, parts) < parts
  {
    var high := h as int / 0x1_0000_0000;
    assert high <= 0xFFFF_FFFF;
    Bits.MulMonotone(high, 0xFFFF_FFFF, parts);
  }

  lemma PartMonotone(g: u64, h: u64, parts: nat)
    requires g <= h
    ensures PartOf(g, parts) <= PartOf(h, parts)
  {
    Bits.MulMonotone(g as int / 0x1_0000_0000, h as int / 0x1_0000_0000, parts);
  }

  // ----- counting the elements of a part

  function CountOf(s: seq<Pair>, f: u64 -> nat, d: nat): (n: nat)
    ensures n <= |s|
  {
    if s == [] then 0 else (if f(s[0].0) == d then 1 else 0) + CountOf(s[1..], f, d)
  }

  lemma {:induction false} CountConcat(a: seq<Pair>, b: seq<Pair>, f: u64 -> nat, d: nat)
    ensures CountOf(a + b, f, d) == CountOf(a, f, d) + CountOf(b, f, d)
  {
    if a == [] {
      assert a + b == b;
    } else {
      assert (a + b)[1..] == a[1..] + b;
      CountConcat(a[1..], b, f, d);
    }
  }

  lemma {:induction false} CountAll(s: seq<Pair>, f: u64 -> nat, d: nat)
    requires forall i :: 0 <= i < |s| ==> f(s[i].0) == d
    ensures CountOf(s, f, d) == |s|
  {
    if s != [] {
      CountAll(s[1..], f, d);
    }
  }

  lemma CountAt(s: seq<Pair>, f: u64 -> nat, d: nat, i: nat)
    requires i < |s| && f(s[i].0) == d
    ensures CountOf(s, f, d) >= 1
  {
    assert s == s[..i] + ([s[i]] + s[i + 1..]);
    CountConcat(s[..i], [s[i]] + s[i + 1..], f, d);
    CountConcat([s[i]], s[i + 1..], f, d);
  }

  /** Elements of `d` in a stretch, and one more outside it. */
  lemma CountStretchAndOne(s: seq<Pair>, f: u64 -> nat, d: nat, a: nat, b: nat, i: nat)
    requires a <= b <= |s| && i < |s| && (i < a || i >= b)
    requires forall k :: a <= k < b ==> f(s[k].0) == d
    requires f(s[i].0) == d
    ensures CountOf(s, f, d) >= b - a + 1
  {
    hide CountOf;
    assert s == s[..a] + (s[a..b] + s[b..]);
    CountConcat(s[..a], s[a..b] + s[b..], f, d);
    CountConcat(s[a..b], s[b..], f, d);
    CountAll(s[a..b], f, d);
    if i < a {
      CountAt(s[..a], f, d, i);
    } else {
      CountAt(s[b..], f, d, i - b);
    }
  }

  lemma {:induction false} CountUpdate(s: seq<Pair>, f: u64 -> nat, d: nat, k: nat, x: Pair)
    requires k < |s|
    ensures CountOf(s[k := x], f, d) + (if f(s[k].0) == d then 1 else 0)
         == CountOf(s, f, d) + if f(x.0) == d then 1 else 0
  {
    if k > 0 {
      CountUpdate(s[1..], f, d, k - 1, x);
      assert s[k := x][1..] == s[1..][k - 1 := x];
    } else {
      assert s[k := x][1..] == s[1..];
    }
  }

  /** A swap changes no count and no multiset. */
  lemma SwapKeeps(s: seq<Pair>, i: nat, j: nat, f: u64 -> nat)
    requires i < |s| && j < |s|
    ensures var t := s[i := s[j]][j := s[i]];
      && multiset(t) == multiset(s)
      && forall d :: CountOf(t, f, d) == CountOf(s, f, d)
  {
    var t := s[i := s[j]][j := s[i]];
    forall d
      ensures CountOf(t, f, d) == CountOf(s, f, d)
    {
      CountUpdate(s, f, d, i, s[j]);
      CountUpdate(s[i := s[j]], f, d, j, s[i]);
    }
  }

  // ----- the layout of the parts

  /** The parts' ranges: as long as the part has elements, one after another, over the whole run. */
  ghost predicate Bounds(starts: seq<nat>, ends: seq<nat>, s: seq<Pair>, f: u64 -> nat) {
    && |starts| == |ends| > 0
    && starts[0] == 0 && ends[|ends| - 1] == |s|
    && (forall d :: 0 <= d < |ends| ==> ends[d] == starts[d] + CountOf(s, f, d))
    && (forall d :: 0 <= d < |ends| ==> ends[d] <= |s|)
    && (forall d, e :: 0 <= d < e < |ends| ==> ends[d] <= starts[e])
    && (forall d, e :: 0 <= d < e < |ends| && e == d + 1 ==> ends[d] == starts[e])
  }

  /** The first slots of each part's range, up to `next`, hold elements of that part. */
  ghost predicate Placed(s: seq<Pair>, f: u64 -> nat, starts: seq<nat>, ends: seq<nat>, next: seq<nat>) {
    && |starts| == |ends| == |next|
    && (forall d :: 0 <= d < |next| ==> starts[d] <= next[d] <= ends[d])
    && (forall d, i :: 0 <= d < |next| && starts[d] <= i < next[d] ==> i < |s| && f(s[i].0) == d)
  }

  function Unplaced(ends: seq<nat>, next: seq<nat>): nat
    requires |ends| == |next|
    requires forall d :: 0 <= d < |next| ==> next[d] <= ends[d]
  {
    if next == [] then 0 else ends[0] - next[0] + Unplaced(ends[1..], next[1..])
  }

  lemma {:induction false} UnplacedFalls(ends: seq<nat>, next: seq<nat>, d: nat)
    requires |ends| == |next| && d < |next| && next[d] < ends[d]
    requires forall e :: 0 <= e < |next| ==> next[e] <= ends[e]
    ensures Unplaced(ends, next[d := next[d] + 1]) == Unplaced(ends, next) - 1
  {
    if d > 0 {
      UnplacedFalls(ends[1..], next[1..], d - 1);
      assert next[d := next[d] + 1][1..] == next[1..][d - 1 := next[d] + 1];
    } else {
      assert next[d := next[d] + 1][1..] == next[1..];
    }
  }

  /** A part that an unplaced element belongs to has a free slot: its elements number its slots. */
  lemma FreeSlot(s: seq<Pair>, f: u64 -> nat, starts: seq<nat>, ends: seq<nat>, next: seq<nat>, p: nat, d: nat)
    requires Bounds(starts, ends, s, f) && Placed(s, f, starts, ends, next)
    requires p < |next| && d < |next| && d != p && next[p] < ends[p]
    requires f(s[next[p]].0) == d
    ensures next[d] < ends[d] && next[d] != next[p]
  {
    if d < p {
      assert ends[d] <= starts[p];
    } else {
      assert ends[p] <= starts[d];
    }
    CountStretchAndOne(s, f, d, starts[d], next[d], next[p]);
  }

  function Swapped(s: seq<Pair>, i: nat, j: nat): seq<Pair>
    requires i < |s| && j < |s|
  {
    s[i := s[j]][j := s[i]]
  }

  lemma SwapPlaces(s: seq<Pair>, f: u64 -> nat, starts: seq<nat>, ends: seq<nat>, next: seq<nat>, p: nat, d: nat)
    requires Bounds(starts, ends, s, f) && Placed(s, f, starts, ends, next)
    requires p < |next| && d < |next| && d != p && next[p] < ends[p] && next[d] < ends[d]
    requires f(s[next[p]].0) == d
    ensures var t := Swapped(s, next[p], next[d]);
      && multiset(t) == multiset(s)
      && Bounds(starts, ends, t, f) && Placed(t, f, starts, ends, next[d := next[d] + 1])
  {
    SwapKeeps(s, next[p], next[d], f);
    var t := Swapped(s, next[p], next[d]);
    var next' := next[d := next[d] + 1];
    forall e, i | 0 <= e < |next'| && starts[e] <= i < next'[e]
      ensures i < |t| && f(t[i].0) == e
    {
      assert e < p ==> ends[e] <= starts[p];
      assert p < e ==> ends[p] <= starts[e];
      assert e < d ==> ends[e] <= starts[d];
      assert d < e ==> ends[d] <= starts[e];
      assert i != next[p];
      if i != next[d] {
        assert i < next[e] && t[i] == s[i];
      }
    }
  }

  /** How many elements each part has. */
  method CountParts(run: array<Pair>, f: u64 -> nat, parts: nat) returns (counts: seq<nat>)
    requires forall h: u64 :: f(h) < parts
    ensures |counts| == parts && forall d :: 0 <= d < parts ==> counts[d] == CountOf(run[..], f, d)
  {
    counts := seq(parts, _ => 0);
    for i := 0 to run.Length
      invariant |counts| == parts
      invariant forall d :: 0 <= d < parts ==> counts[d] == CountOf(run[..i], f, d)
    {
      assert run[..i + 1] == run[..i] + [run[i]];
      forall d | 0 <= d < parts
        ensures CountOf(run[..i + 1], f, d) == CountOf(run[..i], f, d) + if f(run[i].0) == d then 1 else 0
      {
        CountConcat(run[..i], [run[i]], f, d);
      }
      var d := f(run[i].0);
      counts := counts[d := counts[d] + 1];
    }
    assert run[..run.Length] == run[..];
  }

  function PrefixCount(s: seq<Pair>, f: u64 -> nat, d: nat): nat {
    if d == 0 then 0 else PrefixCount(s, f, d - 1) + CountOf(s, f, d - 1)
  }

  lemma PrefixCountStarts(s: seq<Pair>, f: u64 -> nat)
    ensures PrefixCount(s, f, 0) == 0
  {
  }

  lemma PrefixCountStep(s: seq<Pair>, f: u64 -> nat, d: nat)
    ensures PrefixCount(s, f, d + 1) == PrefixCount(s, f, d) + CountOf(s, f, d)
  {
  }

  lemma {:induction false} PrefixCountTail(s: seq<Pair>, f: u64 -> nat, d: nat)
    requires s != []
    ensures PrefixCount(s, f, d) == PrefixCount(s[1..], f, d) + if f(s[0].0) < d then 1 else 0
  {
    if d > 0 {
      PrefixCountTail(s, f, d - 1);
    }
  }

  /** The parts' counts add up to all there is. */
  lemma {:induction false} PrefixCountAll(s: seq<Pair>, f: u64 -> nat, parts: nat)
    requires forall h: u64 :: f(h) < parts
    ensures PrefixCount(s, f, parts) == |s|
  {
    if s == [] {
      PrefixCountEmpty(f, parts);
    } else {
      PrefixCountAll(s[1..], f, parts);
      PrefixCountTail(s, f, parts);
    }
  }

  lemma {:induction false} PrefixCountEmpty(f: u64 -> nat, d: nat)
    ensures PrefixCount([], f, d) == 0
  {
    if d > 0 {
      PrefixCountEmpty(f, d - 1);
    }
  }

  lemma {:induction false} PrefixCountAscends(s: seq<Pair>, f: u64 -> nat, d: nat, e: nat)
    requires d <= e
    ensures PrefixCount(s, f, d) <= PrefixCount(s, f, e)
  {
    if d < e {
      PrefixCountAscends(s, f, d, e - 1);
    }
  }

  /** Where each part starts and ends: running sums of the counts. */
  method BoundParts(counts: seq<nat>, ghost s: seq<Pair>, ghost f: u64 -> nat) returns (next: seq<nat>, ends: seq<nat>)
    requires counts != [] && forall h: u64 :: f(h) < |counts|
    requires forall d :: 0 <= d < |counts| ==> counts[d] == CountOf(s, f, d)
    ensures |next| == |counts| && Bounds(next, ends, s, f)
  {
    hide PrefixCount, CountOf, Bounds;
    next, ends := [], [];
    var start := 0;
    PrefixCountStarts(s, f);
    for d := 0 to |counts|
      invariant |next| == |ends| == d && start == PrefixCount(s, f, d)
      invariant forall e :: 0 <= e < d ==> next[e] == PrefixCount(s, f, e)
      invariant forall e :: 0 <= e < d ==> ends[e] == PrefixCount(s, f, e + 1)
    {
      PrefixCountStep(s, f, d);
      next := next + [start];
      start := start + counts[d];
      ends := ends + [start];
    }
    SumsBound(next, ends, s, f);
  }

  lemma SumsBound(starts: seq<nat>, ends: seq<nat>, s: seq<Pair>, f: u64 -> nat)
    requires |starts| == |ends| > 0 && forall h: u64 :: f(h) < |ends|
    requires forall e :: 0 <= e < |ends| ==> starts[e] == PrefixCount(s, f, e)
    requires forall e :: 0 <= e < |ends| ==> ends[e] == PrefixCount(s, f, e + 1)
    ensures Bounds(starts, ends, s, f)
  {
    PrefixCountAll(s, f, |ends|);
    forall d, e | 0 <= d < e < |ends|
      ensures ends[d] <= starts[e]
    {
      PrefixCountAscends(s, f, d + 1, e);
    }
    forall d | 0 <= d < |ends|
      ensures ends[d] <= |s|
    {
      PrefixCountAscends(s, f, d + 1, |ends|);
    }
  }

  /** Partitioning by cycles of swaps: at each part's first unfilled slot, a pair of that part is left and the
      part advances, and any other is sent home, what was there being looked at in its stead. */
  method Partition(run: array<Pair>, f: u64 -> nat, starts: seq<nat>, ends: seq<nat>)
    requires Bounds(starts, ends, run[..], f) && forall h: u64 :: f(h) < |starts|
    modifies run
    ensures multiset(run[..]) == multiset(old(run[..]))
    ensures Bounds(starts, ends, run[..], f) && Placed(run[..], f, starts, ends, ends)
  {
    var next := starts;
    for p := 0 to |starts|
      invariant |next| == |starts|
      invariant multiset(run[..]) == multiset(old(run[..]))
      invariant Bounds(starts, ends, run[..], f) && Placed(run[..], f, starts, ends, next)
      invariant forall q :: 0 <= q < p ==> next[q] == ends[q]
    {
      while next[p] < ends[p]
        invariant |next| == |starts|
        invariant multiset(run[..]) == multiset(old(run[..]))
        invariant Bounds(starts, ends, run[..], f) && Placed(run[..], f, starts, ends, next)
        invariant forall q :: 0 <= q < p ==> next[q] == ends[q]
        decreases Unplaced(ends, next)
      {
        next := PlaceOne(run, f, starts, ends, next, p);
      }
    }
    assert next == ends;
  }

  /** One element examined: left where it is in its own part, swapped to its own part otherwise. */
  method PlaceOne(run: array<Pair>, f: u64 -> nat, ghost starts: seq<nat>, ghost ends: seq<nat>, next0: seq<nat>,
                  p: nat)
    returns (next: seq<nat>)
    requires forall h: u64 :: f(h) < |next0|
    requires Bounds(starts, ends, run[..], f) && Placed(run[..], f, starts, ends, next0)
    requires p < |next0| && next0[p] < ends[p]
    modifies run
    ensures multiset(run[..]) == multiset(old(run[..]))
    ensures Bounds(starts, ends, run[..], f) && Placed(run[..], f, starts, ends, next)
    ensures Unplaced(ends, next) < Unplaced(ends, next0)
    ensures forall q :: 0 <= q < |next| ==> next0[q] <= next[q]
  {
    hide CountOf, Unplaced;
    var i := next0[p];
    var d := f(run[i].0);
    if d == p {
      next := next0[p := i + 1];
    } else {
      FreeSlot(run[..], f, starts, ends, next0, p, d);
      SwapPlaces(run[..], f, starts, ends, next0, p, d);
      Swap(run, i, next0[d]);
      next := next0[d := next0[d] + 1];
    }
    UnplacedFalls(ends, next0, d);
  }

  method Swap(run: array<Pair>, i: nat, j: nat)
    requires i < run.Length && j < run.Length
    modifies run
    ensures run[..] == Swapped(old(run[..]), i, j)
  {
    run[i], run[j] := run[j], run[i];
  }

  // ----- sorting the parts

  function SliceSorted(s: seq<Pair>, lo: nat, hi: nat): seq<Pair>
    requires lo <= hi <= |s|
  {
    s[..lo] + Sort(s[lo..hi]) + s[hi..]
  }

  /** `run[lo..hi].sort_unstable()`. */
  method SortSlice(run: array<Pair>, lo: nat, hi: nat)
    requires lo <= hi <= run.Length
    modifies run
    ensures run[..] == SliceSorted(old(run[..]), lo, hi)
  {
    ghost var s := run[..];
    var sorted := Sort(run[lo..hi]);
    assert run[lo..hi] == s[lo..hi];
    WriteAt(run, lo, sorted);
  }

  method WriteAt(run: array<Pair>, lo: nat, with: seq<Pair>)
    requires lo + |with| <= run.Length
    modifies run
    ensures run[..] == old(run[..])[..lo] + with + old(run[..])[lo + |with|..]
  {
    for k := 0 to |with|
      invariant forall j :: lo <= j < lo + k ==> run[j] == with[j - lo]
      invariant forall j :: 0 <= j < run.Length && (j < lo || lo + k <= j) ==> run[j] == old(run[j])
    {
      run[lo + k] := with[k];
    }
  }

  /** The parts below `p` sorted, the rest partitioned. */
  ghost predicate PartsSorted(s: seq<Pair>, f: u64 -> nat, starts: seq<nat>, ends: seq<nat>, p: nat) {
    && Bounds(starts, ends, s, f) && Placed(s, f, starts, ends, ends)
    && forall d, i, j :: 0 <= d < p && d < |ends| && starts[d] <= i < j < ends[d] ==> PairAtMost(s[i], s[j])
  }

  lemma {:induction false} CountOfInsert(x: Pair, s: seq<Pair>, f: u64 -> nat, d: nat)
    ensures CountOf(Insert(x, s), f, d) == CountOf(s, f, d) + if f(x.0) == d then 1 else 0
  {
    if s != [] && !PairAtMost(x, s[0]) {
      CountOfInsert(x, s[1..], f, d);
    }
  }

  lemma {:induction false} CountOfSorted(s: seq<Pair>, f: u64 -> nat, d: nat)
    ensures CountOf(Sort(s), f, d) == CountOf(s, f, d)
  {
    if s != [] {
      CountOfSorted(s[1..], f, d);
      CountOfInsert(s[0], Sort(s[1..]), f, d);
    }
  }

  lemma SliceSortedCounts(s: seq<Pair>, lo: nat, hi: nat, f: u64 -> nat, d: nat)
    requires lo <= hi <= |s|
    ensures CountOf(SliceSorted(s, lo, hi), f, d) == CountOf(s, f, d)
  {
    var a, mid, b := s[..lo], s[lo..hi], s[hi..];
    assert s == a + mid + b;
    CountConcat(a + Sort(mid), b, f, d);
    CountConcat(a, Sort(mid), f, d);
    CountConcat(a + mid, b, f, d);
    CountConcat(a, mid, f, d);
    CountOfSorted(mid, f, d);
  }

  lemma SliceSortedIs(s: seq<Pair>, lo: nat, hi: nat)
    requires lo <= hi <= |s|
    ensures var t := SliceSorted(s, lo, hi);
      && |t| == |s| && multiset(t) == multiset(s)
      && (forall i :: 0 <= i < |s| && (i < lo || hi <= i) ==> t[i] == s[i])
      && (forall i, j :: lo <= i < j < hi ==> PairAtMost(t[i], t[j]))
      && (forall i :: lo <= i < hi ==> t[i] in s[lo..hi])
  {
    hide Sort, Sorted, PairAtMost, PairLess;
    var t, mid := SliceSorted(s, lo, hi), s[lo..hi];
    assert s == s[..lo] + mid + s[hi..];
    SortSorts(mid);
    forall i | lo <= i < hi
      ensures t[i] == Sort(mid)[i - lo] && t[i] in mid
    {
      SortHolds(mid, i - lo);
    }
  }

  lemma SortHolds(s: seq<Pair>, i: nat)
    requires i < |s|
    ensures Sort(s)[i] in s
  {
    assert Sort(s)[i] in multiset(Sort(s));
  }

  lemma SortingAPart(s: seq<Pair>, f: u64 -> nat, starts: seq<nat>, ends: seq<nat>, p: nat)
    requires PartsSorted(s, f, starts, ends, p) && p < |ends|
    ensures starts[p] <= ends[p] <= |s|
    ensures var t := SliceSorted(s, starts[p], ends[p]);
      multiset(t) == multiset(s) && PartsSorted(t, f, starts, ends, p + 1)
  {
    hide CountOf, SliceSorted;
    var t := SliceSorted(s, starts[p], ends[p]);
    SliceSortedIs(s, starts[p], ends[p]);
    forall d | 0 <= d < |ends|
      ensures CountOf(t, f, d) == CountOf(s, f, d)
    {
      SliceSortedCounts(s, starts[p], ends[p], f, d);
    }
    assert Bounds(starts, ends, t, f);
    forall d, i | 0 <= d < |ends| && starts[d] <= i < ends[d]
      ensures i < |t| && f(t[i].0) == d
      ensures d != p ==> t[i] == s[i]
    {
      PartKept(s, f, starts, ends, p, d, i);
    }
  }

  /** Sorting part `p` leaves every slot with an element of its part, and those of the others as they were. */
  lemma PartKept(s: seq<Pair>, f: u64 -> nat, starts: seq<nat>, ends: seq<nat>, p: nat, d: nat, i: nat)
    requires Bounds(starts, ends, s, f) && Placed(s, f, starts, ends, ends) && p < |ends|
    requires d < |ends| && starts[d] <= i < ends[d]
    ensures starts[p] <= ends[p] <= |s| && i < |s|
    ensures var t := SliceSorted(s, starts[p], ends[p]);
      i < |t| && f(t[i].0) == d && (d != p ==> t[i] == s[i])
  {
    hide CountOf, SliceSorted;
    var t := SliceSorted(s, starts[p], ends[p]);
    SliceSortedIs(s, starts[p], ends[p]);
    assert d < p ==> ends[d] <= starts[p];
    assert p < d ==> ends[p] <= starts[d];
    if d == p {
      var k :| 0 <= k < ends[p] - starts[p] && s[starts[p]..ends[p]][k] == t[i];
    }
  }

  lemma PartHolding(s: seq<Pair>, f: u64 -> nat, starts: seq<nat>, ends: seq<nat>, i: nat, hi: nat) returns (d: nat)
    requires Bounds(starts, ends, s, f) && hi < |ends| && i < ends[hi]
    ensures d < |ends| && starts[d] <= i < ends[d]
  {
    if starts[hi] <= i {
      d := hi;
    } else {
      assert ends[hi - 1] == starts[hi];
      d := PartHolding(s, f, starts, ends, i, hi - 1);
    }
  }

  /** Parts abut in order, so parts each sorted are the whole sorted. */
  lemma SortedPartsAbut(s: seq<Pair>, f: u64 -> nat, starts: seq<nat>, ends: seq<nat>)
    requires PartsSorted(s, f, starts, ends, |ends|)
    requires forall g: u64, h: u64 :: g <= h ==> f(g) <= f(h)
    ensures Sorted(s)
  {
    forall i, j | 0 <= i < j < |s|
      ensures PairAtMost(s[i], s[j])
    {
      var a := PartHolding(s, f, starts, ends, i, |ends| - 1);
      var b := PartHolding(s, f, starts, ends, j, |ends| - 1);
      if a < b {
        OrderedByPart(s[i].0, s[j].0, f, a, b);
      }
      PartsApart(starts, ends, s, f, b, a);
    }
  }

  lemma PartsApart(starts: seq<nat>, ends: seq<nat>, s: seq<Pair>, f: u64 -> nat, d: nat, e: nat)
    requires Bounds(starts, ends, s, f) && d < |ends| && e < |ends|
    ensures d < e ==> ends[d] <= starts[e]
  {
  }

  lemma OrderedByPart(g: u64, h: u64, f: u64 -> nat, a: nat, b: nat)
    requires forall x: u64, y: u64 :: x <= y ==> f(x) <= f(y)
    requires f(g) == a < b == f(h)
    ensures g < h
  {
    if h <= g {
      assert false;
    }
  }

  method SortParts(run: array<Pair>, f: u64 -> nat, starts: seq<nat>, ends: seq<nat>)
    requires forall g: u64, h: u64 :: g <= h ==> f(g) <= f(h)
    requires PartsSorted(run[..], f, starts, ends, 0)
    modifies run
    ensures multiset(run[..]) == multiset(old(run[..])) && Sorted(run[..])
  {
    for p := 0 to |starts|
      invariant multiset(run[..]) == multiset(old(run[..]))
      invariant PartsSorted(run[..], f, starts, ends, p)
    {
      SortingAPart(run[..], f, starts, ends, p);
      SortSlice(run, starts[p], ends[p]);
    }
    SortedPartsAbut(run[..], f, starts, ends);
  }

  method SortInParts(run: array<Pair>, f: u64 -> nat, parts: nat)
    requires parts >= 1 && forall h: u64 :: f(h) < parts
    requires forall g: u64, h: u64 :: g <= h ==> f(g) <= f(h)
    modifies run
    ensures Sorted(run[..])
    ensures multiset(run[..]) == multiset(old(run[..]))
  {
    var counts := CountParts(run, f, parts);
    var starts, ends := BoundParts(counts, run[..], f);
    Partition(run, f, starts, ends);
    SortParts(run, f, starts, ends);
  }

  /** `run` sorted on `threads` threads. */
  method SortRun(run: array<Pair>, threads: nat)
    modifies run
    ensures Sorted(run[..])
    ensures multiset(run[..]) == multiset(old(run[..]))
  {
    var parts := if threads < 1 then 1 else if threads > 256 then 256 else threads;
    if parts == 1 || run.Length < parts * 4096 {
      SliceSortedIs(run[..], 0, run.Length);
      SortSlice(run, 0, run.Length);
      return;
    }
    var f := (h: u64) => PartOf(h, parts);
    forall h: u64
      ensures f(h) < parts
    {
      PartInRange(h, parts);
    }
    forall g: u64, h: u64 | g <= h
      ensures f(g) <= f(h)
    {
      PartMonotone(g, h, parts);
    }
    SortInParts(run, f, parts);
  }
}
