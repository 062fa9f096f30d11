/** The streaming build's first pass: sorted runs spilled, counted by bins and merged a range of bins at a time. */
module StreamPairs {
  import opened Pairs
  import opened RunSort

  /** Bins the hash space is split in, by its top ten bits. */
  const BINS := 1024

  function Bin(h: u64): (b: nat)
    ensures b < BINS
  {
    h as int / 0x40_0000_0000_0000
  }

  /** Pairs of `s` in bins below `b`. */
  function BelowBin(s: seq<Pair>, b: nat): (n: nat)
    ensures n <= |s|
  {
    if s == [] then 0 else BelowBin(s[..|s| - 1], b) + if Bin(s[|s| - 1].0) < b then 1 else 0
  }

  /** In a sorted run they are the first. */
  lemma {:induction false} BelowBinIsAPrefix(s: seq<Pair>, b: nat)
    requires Sorted(s)
    ensures forall i :: 0 <= i < |s| ==> (Bin(s[i].0) < b <==> i < BelowBin(s, b))
  {
    if s != [] {
      BelowBinIsAPrefix(s[..|s| - 1], b);
      assert forall i :: 0 <= i < |s| - 1 ==> s[i] == s[..|s| - 1][i] && s[i].0 <= s[|s| - 1].0;
      if Bin(s[|s| - 1].0) < b && |s| > 1 {
        assert forall i :: 0 <= i < |s| - 1 ==> Bin(s[i].0) < b;
        assert BelowBin(s[..|s| - 1], b) == |s| - 1 by {
          assert Bin(s[..|s| - 1][|s| - 2].0) < b;
        }
      }
    }
  }

  lemma {:induction false} BelowBinMonotone(s: seq<Pair>, a: nat, b: nat)
    requires a <= b
    ensures BelowBin(s, a) <= BelowBin(s, b)
  {
    if s != [] {
      BelowBinMonotone(s[..|s| - 1], a, b);
    }
  }

  lemma {:induction false} BelowBinEnds(s: seq<Pair>)
    ensures BelowBin(s, 0) == 0 && BelowBin(s, BINS) == |s|
  {
    if s != [] {
      BelowBinEnds(s[..|s| - 1]);
    }
  }

  /** Where each bin starts in a run: `BINS + 1` offsets, the last the run's length. */
  ghost predicate Offsets(offsets: seq<nat>, s: seq<Pair>) {
    |offsets| == BINS + 1 && forall b :: 0 <= b <= BINS ==> offsets[b] == BelowBin(s, b)
  }

  /** Pairs of `s` in bin `b`. */
  function InBin(s: seq<Pair>, b: nat): nat {
    if s == [] then 0 else InBin(s[..|s| - 1], b) + if Bin(s[|s| - 1].0) == b then 1 else 0
  }

  lemma {:induction false} BelowNextBin(s: seq<Pair>, b: nat)
    ensures BelowBin(s, b + 1) == BelowBin(s, b) + InBin(s, b)
  {
    if s != [] {
      BelowNextBin(s[..|s| - 1], b);
    }
  }

  method CountBins(run: seq<Pair>) returns (offsets: seq<nat>)
    ensures Offsets(offsets, run)
  {
    offsets := seq(BINS + 1, _ => 0);
    for i := 0 to |run|
      invariant |offsets| == BINS + 1 && offsets[0] == 0
      invariant forall b :: 1 <= b <= BINS ==> offsets[b] == InBin(run[..i], b - 1)
    {
      assert run[..i + 1][..i] == run[..i];
      var b := Bin(run[i].0) + 1;
      offsets := offsets[b := offsets[b] + 1];
    }
    assert run[..|run|] == run;
    BelowBinEnds(run);
    for b := 0 to BINS
      invariant |offsets| == BINS + 1
      invariant forall c :: 0 <= c <= b ==> offsets[c] == BelowBin(run, c)
      invariant forall c :: b < c <= BINS ==> offsets[c] == InBin(run, c - 1)
    {
      BelowNextBin(run, b);
      offsets := offsets[b + 1 := offsets[b + 1] + offsets[b]];
    }
  }

  /** `dedup`, a pair at a time. */
  method DedupRun(run: seq<Pair>) returns (out: seq<Pair>)
    ensures out == Dedup(run)
  {
    out := [];
    for i := 0 to |run|
      invariant out == Dedup(run[..i])
    {
      assert run[..i + 1][..i] == run[..i];
      if i == 0 || run[i] != run[i - 1] {
        out := out + [run[i]];
      }
    }
    assert run[..|run|] == run;
  }

  /** `sort_run`, then `dedup`. */
  method SortedDistinct(run: seq<Pair>, threads: nat) returns (out: seq<Pair>)
    ensures Strict(out) && Elements(out) == Elements(run)
    ensures out == Canonical(run)
  {
    var a := new Pair[|run|](i requires 0 <= i < |run| => run[i]);
    assert a[..] == run;
    SortRun(a, threads);
    out := DedupRun(a[..]);
    DedupSorted(a[..]);
    SameElements(a[..], run);
    CanonicalIs(run);
    StrictIsUnique(out, Canonical(run));
  }

  // ----- one range of the merge

  /** The slices' elements, all together. */
  ghost predicate Gathers(out: seq<Pair>, slices: seq<seq<Pair>>) {
    forall x: Pair :: x in out <==> exists i :: 0 <= i < |slices| && x in slices[i]
  }

  function Left(slices: seq<seq<Pair>>, pos: seq<nat>): nat
    requires |pos| == |slices| && forall i :: 0 <= i < |pos| ==> pos[i] <= |slices[i]|
  {
    if pos == [] then 0 else |slices[0]| - pos[0] + Left(slices[1..], pos[1..])
  }

  lemma {:induction false} LeftFalls(slices: seq<seq<Pair>>, pos: seq<nat>, i: nat)
    requires |pos| == |slices| && forall j :: 0 <= j < |pos| ==> pos[j] <= |slices[j]|
    requires i < |pos| && pos[i] < |slices[i]|
    ensures Left(slices, pos[i := pos[i] + 1]) == Left(slices, pos) - 1
  {
    if i > 0 {
      LeftFalls(slices[1..], pos[1..], i - 1);
      assert pos[i := pos[i] + 1][1..] == pos[1..][i - 1 := pos[i] + 1];
    } else {
      assert pos[i := pos[i] + 1][1..] == pos[1..];
    }
  }

  /** The heap's top: the slice whose head is least, or all of them spent. */
  method LeastHead(slices: seq<seq<Pair>>, pos: seq<nat>) returns (i: nat)
    requires |pos| == |slices| && forall j :: 0 <= j < |pos| ==> pos[j] <= |slices[j]|
    ensures i <= |slices|
    ensures i == |slices| ==> forall j :: 0 <= j < |pos| ==> pos[j] == |slices[j]|
    ensures i < |slices| ==> pos[i] < |slices[i]|
    ensures i < |slices| ==>
      forall j :: 0 <= j < |pos| && pos[j] < |slices[j]| ==> PairAtMost(slices[i][pos[i]], slices[j][pos[j]])
  {
    i := |slices|;
    for j := 0 to |slices|
      invariant i < j || i == |slices|
      invariant i == |slices| ==> forall k :: 0 <= k < j ==> pos[k] == |slices[k]|
      invariant i < |slices| ==> pos[i] < |slices[i]|
      invariant i < |slices| ==>
        forall k :: 0 <= k < j && pos[k] < |slices[k]| ==> PairAtMost(slices[i][pos[i]], slices[k][pos[k]])
    {
      if pos[j] < |slices[j]| && (i == |slices| || PairLess(slices[j][pos[j]], slices[i][pos[i]])) {
        i := j;
      }
    }
  }

  /** How far the merge has come: what is out is ascending, all that was taken and nothing else, and at
      most what is left. */
  ghost predicate Merging(slices: seq<seq<Pair>>, pos: seq<nat>, out: seq<Pair>) {
    && |pos| == |slices|
    && (forall i :: 0 <= i < |pos| ==> pos[i] <= |slices[i]|)
    && Strict(out)
    && (forall i, j :: 0 <= i < |pos| && 0 <= j < pos[i] ==> slices[i][j] in out)
    && (forall x :: x in out ==> exists i :: 0 <= i < |slices| && x in slices[i])
    && (out != [] ==> forall i, j :: 0 <= i < |pos| && pos[i] <= j < |slices[i]| ==>
          PairAtMost(out[|out| - 1], slices[i][j]))
  }

  lemma TakeLeast(slices: seq<seq<Pair>>, pos: seq<nat>, out: seq<Pair>, i: nat)
    requires Merging(slices, pos, out) && forall k :: 0 <= k < |slices| ==> Strict(slices[k])
    requires i < |slices| && pos[i] < |slices[i]|
    requires forall j :: 0 <= j < |pos| && pos[j] < |slices[j]| ==> PairAtMost(slices[i][pos[i]], slices[j][pos[j]])
    ensures var x := slices[i][pos[i]];
      var out' := if out != [] && out[|out| - 1] == x then out else out + [x];
      Merging(slices, pos[i := pos[i] + 1], out')
  {
    var x := slices[i][pos[i]];
    var out' := if out != [] && out[|out| - 1] == x then out else out + [x];
    var pos' := pos[i := pos[i] + 1];
    assert x in slices[i] && x in out';
    forall k, j | 0 <= k < |pos'| && pos'[k] <= j < |slices[k]|
      ensures PairAtMost(x, slices[k][j])
    {
      assert PairAtMost(x, slices[k][pos[k]]);
      assert j == pos[k] || PairLess(slices[k][pos[k]], slices[k][j]);
    }
    forall k, j | 0 <= k < |pos'| && 0 <= j < pos'[k]
      ensures slices[k][j] in out'
    {
      if k != i || j < pos[k] {
        assert slices[k][j] in out;
      }
    }
    if out' != out && out != [] {
      assert PairAtMost(out[|out| - 1], x);
    }
  }

  /** Slices of the runs merged by their least heads, repeats dropped, with a count of what came out and of the
      pairs in it whose hash is their predecessor's. */
  method MergeRange(slices: seq<seq<Pair>>) returns (out: seq<Pair>, n: nat, side: nat)
    requires forall i :: 0 <= i < |slices| ==> Strict(slices[i])
    ensures Strict(out) && Gathers(out, slices)
    ensures n == |out| && side == SameHash(out)
  {
    hide Gathers, Merging, Strict, SameHash, PairAtMost, PairLess;
    var pos := seq(|slices|, _ => 0);
    out, n, side := [], 0, 0;
    MergingStarts(slices, pos);
    while true
      invariant Merging(slices, pos, out)
      invariant n == |out| && side == SameHash(out)
      invariant |pos| == |slices| && forall j :: 0 <= j < |pos| ==> pos[j] <= |slices[j]|
      decreases Left(slices, pos)
    {
      var i := LeastHead(slices, pos);
      if i == |slices| {
        break;
      }
      var pair := slices[i][pos[i]];
      TakeLeast(slices, pos, out, i);
      LeftFalls(slices, pos, i);
      pos := pos[i := pos[i] + 1];
      if out != [] && out[|out| - 1] == pair {
        continue;
      }
      SameHashSnoc(out, pair);
      if out != [] && out[|out| - 1].0 == pair.0 {
        side := side + 1;
      }
      out := out + [pair];
      n := n + 1;
    }
    MergingAscends(slices, pos, out);
    AllTaken(slices, pos, out);
  }

  lemma MergingStarts(slices: seq<seq<Pair>>, pos: seq<nat>)
    requires |pos| == |slices| && forall j :: 0 <= j < |pos| ==> pos[j] == 0
    ensures Merging(slices, pos, []) && SameHash([]) == 0
  {
  }

  lemma MergingAscends(slices: seq<seq<Pair>>, pos: seq<nat>, out: seq<Pair>)
    requires Merging(slices, pos, out)
    ensures Strict(out)
  {
  }

  lemma SameHashSnoc(out: seq<Pair>, pair: Pair)
    ensures SameHash(out + [pair]) == SameHash(out) + if out != [] && out[|out| - 1].0 == pair.0 then 1 else 0
  {
    assert (out + [pair])[..|out|] == out;
  }

  lemma AllTaken(slices: seq<seq<Pair>>, pos: seq<nat>, out: seq<Pair>)
    requires Merging(slices, pos, out) && forall j :: 0 <= j < |pos| ==> pos[j] == |slices[j]|
    ensures Gathers(out, slices)
  {
    forall x: Pair
      ensures x in out <==> exists i :: 0 <= i < |slices| && x in slices[i]
    {
      if i :| 0 <= i < |slices| && x in slices[i] {
        var j :| 0 <= j < |slices[i]| && slices[i][j] == x;
      }
    }
  }

  // ----- the cuts

  /** Bin boundaries that tile the bins. */
  ghost predicate Tiles(cuts: seq<nat>) {
    && |cuts| >= 2 && cuts[0] == 0 && cuts[|cuts| - 1] == BINS
    && forall i, j :: 0 <= i < j < |cuts| ==> cuts[i] < cuts[j]
  }

  /** The first of the ascending `total` that reaches `target`. */
  method FirstReaching(total: seq<nat>, target: nat) returns (b: nat)
    requires |total| == BINS + 1
    ensures b <= BINS + 1
    ensures forall i :: 0 <= i < b ==> total[i] < target
    ensures b <= BINS ==> total[b] >= target
  {
    b := 0;
    while b < |total| && total[b] < target
      invariant 0 <= b <= |total| && forall i :: 0 <= i < b ==> total[i] < target
    {
      b := b + 1;
    }
  }

  method Cut(total: seq<nat>, ranges: nat) returns (cuts: seq<nat>)
    requires |total| == BINS + 1 && ranges >= 1
    ensures Tiles(cuts) && |cuts| <= ranges + 1
  {
    cuts := [0];
    for t := 1 to ranges
      invariant 1 <= |cuts| <= t && cuts[0] == 0 && cuts[|cuts| - 1] <= BINS
      invariant forall i, j :: 0 <= i < j < |cuts| ==> cuts[i] < cuts[j]
    {
      var b := FirstReaching(total, total[BINS] * t / ranges);
      if b > BINS {
        b := BINS;
      }
      if b > cuts[|cuts| - 1] {
        cuts := cuts + [b];
      }
    }
    if cuts[|cuts| - 1] != BINS {
      cuts := cuts + [BINS];
    }
  }

  // ----- the runs and their merge

  datatype Stream = Memory(run: seq<Pair>) | Files(segments: seq<seq<Pair>>, n: nat, side: nat) {
    /** The pairs in the order they are read back: the files one after another. */
    function All(): seq<Pair> {
      match this
      case Memory(run) => run
      case Files(segments, _, _) => Concat(segments)
    }

    /** The number of pairs, and of those among them that are not their hash's first. */
    function Counts(): (nat, nat) {
      match this
      case Memory(run) => (|run|, SameHash(run))
      case Files(_, n, side) => (n, side)
    }
  }

  function Concat(segments: seq<seq<Pair>>): seq<Pair> {
    if segments == [] then [] else Concat(segments[..|segments| - 1]) + segments[|segments| - 1]
  }

  /** No two of the files share a hash: each one's are below those of the files after it. */
  ghost predicate HashesApart(segments: seq<seq<Pair>>) {
    forall i, j, x, y :: 0 <= i < j < |segments| && x in segments[i] && y in segments[j] ==> x.0 < y.0
  }

  lemma {:induction false} InConcat(segments: seq<seq<Pair>>, i: nat)
    requires i < |segments|
    ensures forall x :: x in segments[i] ==> x in Concat(segments)
  {
    if i < |segments| - 1 {
      assert segments[..|segments| - 1][i] == segments[i];
      InConcat(segments[..|segments| - 1], i);
    }
  }

  lemma NothingMerged(files: seq<seq<Pair>>)
    ensures MergedBelow(files, [], 0) && HashesApart([]) && SameHash([]) == 0
  {
  }

  lemma AllMerged(files: seq<seq<Pair>>, out: seq<Pair>)
    requires MergedBelow(files, out, BINS)
    ensures Strict(out) && forall x: Pair :: x in out <==> InSome(files, x)
  {
  }

  lemma ApartSnoc(segments: seq<seq<Pair>>, last: seq<Pair>)
    requires HashesApart(segments)
    requires forall x, y :: x in Concat(segments) && y in last ==> x.0 < y.0
    ensures HashesApart(segments + [last])
  {
    hide Concat;
    forall i, j, x, y | 0 <= i < j < |segments + [last]| && x in (segments + [last])[i] && y in (segments + [last])[j]
      ensures x.0 < y.0
    {
      InConcat(segments, i);
    }
  }

  /** Pairs of `s` in bins from `b0` up to `b1`. */
  function Slice(s: seq<Pair>, offsets: seq<nat>, b0: nat, b1: nat): seq<Pair>
    requires Offsets(offsets, s) && b0 <= b1 <= BINS
  {
    BelowBinMonotone(s, b0, b1);
    s[offsets[b0]..offsets[b1]]
  }

  /** `slice` is what `file` holds of the bins from `b0` up to `b1`. */
  ghost predicate RangeOf(slice: seq<Pair>, file: seq<Pair>, b0: nat, b1: nat) {
    Strict(slice) && forall x: Pair :: x in slice <==> x in file && b0 <= Bin(x.0) < b1
  }

  lemma SliceIsTheRange(s: seq<Pair>, offsets: seq<nat>, b0: nat, b1: nat)
    requires Strict(s) && Offsets(offsets, s) && b0 <= b1 <= BINS
    ensures RangeOf(Slice(s, offsets, b0, b1), s, b0, b1)
  {
    hide BelowBin, Bin;
    BelowBinMonotone(s, b0, b1);
    BelowBinIsAPrefix(s, b0);
    BelowBinIsAPrefix(s, b1);
    var slice := Slice(s, offsets, b0, b1);
    forall x: Pair
      ensures x in slice <==> x in s && b0 <= Bin(x.0) < b1
    {
      if x in slice {
        var i :| 0 <= i < |slice| && slice[i] == x;
        var at := offsets[b0] + i;
        assert s[at] == x;
      }
      if x in s && b0 <= Bin(x.0) < b1 {
        var i :| 0 <= i < |s| && s[i] == x;
        var at := i - offsets[b0];
        assert slice[at] == x;
      }
    }
  }

  /** What the ranges below bin `b` wrote: the runs' pairs of those bins, ascending. */
  ghost predicate MergedBelow(files: seq<seq<Pair>>, out: seq<Pair>, b: nat) {
    && Strict(out)
    && forall x: Pair :: x in out <==> Bin(x.0) < b && InSome(files, x)
  }

  /** Some run holds `x`. */
  ghost predicate InSome(files: seq<seq<Pair>>, x: Pair) {
    exists k :: 0 <= k < |files| && x in files[k]
  }

  lemma RangeAppends(files: seq<seq<Pair>>, out: seq<Pair>, b0: nat, b1: nat, slices: seq<seq<Pair>>, more: seq<Pair>)
    requires b0 < b1 && MergedBelow(files, out, b0)
    requires |slices| == |files| && Strict(more) && Gathers(more, slices)
    requires forall k :: 0 <= k < |files| ==> RangeOf(slices[k], files[k], b0, b1)
    ensures MergedBelow(files, out + more, b1)
    ensures SameHash(out + more) == SameHash(out) + SameHash(more)
    ensures forall x, y :: x in out && y in more ==> x.0 < y.0
  {
    forall x: Pair
      ensures x in more <==> b0 <= Bin(x.0) < b1 && InSome(files, x)
    {
      if x in more {
        var k :| 0 <= k < |slices| && x in slices[k];
        assert RangeOf(slices[k], files[k], b0, b1);
      }
      if b0 <= Bin(x.0) < b1 && InSome(files, x) {
        var k :| 0 <= k < |files| && x in files[k];
        assert RangeOf(slices[k], files[k], b0, b1);
        assert x in slices[k];
      }
    }
    forall i, j | 0 <= i < |out| && 0 <= j < |more|
      ensures out[i].0 < more[j].0
    {
      assert out[i] in out && more[j] in more;
      BinsOrder(out[i].0, more[j].0);
    }
    forall x, y | x in out && y in more
      ensures x.0 < y.0
    {
      BinsOrder(x.0, y.0);
    }
    SameHashConcat(out, more);
  }

  lemma BinsOrder(g: u64, h: u64)
    requires Bin(g) < Bin(h)
    ensures g < h
  {
  }

  lemma InOneMore(files: seq<seq<Pair>>, file: seq<Pair>, x: Pair)
    ensures InSome(files + [file], x) <==> InSome(files, x) || x in file
  {
    var more := files + [file];
    if k :| 0 <= k < |files| && x in files[k] {
      assert more[k] == files[k];
    }
    if x in file {
      assert more[|files|] == file;
    }
    if k :| 0 <= k < |more| && x in more[k] {
      assert k == |files| || more[k] == files[k];
    }
  }

  /** The scratch directory: each run a file of ascending pairs, with its bins counted. */
  class Scratch {
    var threads: nat
    var files: seq<seq<Pair>>
    var bins: seq<seq<nat>>

    ghost predicate Valid()
      reads this
    {
      && |bins| == |files|
      && forall k :: 0 <= k < |files| ==> Strict(files[k]) && Offsets(bins[k], files[k])
    }

    /** Every pair some run holds. */
    ghost predicate Has(x: Pair)
      reads this
    {
      InSome(files, x)
    }

    constructor (threads: nat)
      ensures Valid() && files == [] && this.threads == threads
    {
      this.threads := threads;
      files, bins := [], [];
    }

    /** One more run file: what was gathered, ascending and without repeats. */
    method Spill(run: seq<Pair>)
      requires Valid()
      modifies this
      ensures Valid() && threads == old(threads) && |files| == old(|files|) + 1
      ensures forall x: Pair :: Has(x) <==> InSome(old(files), x) || x in run
    {
      var distinct := SortedDistinct(run, threads);
      var offsets := CountBins(distinct);
      ghost var before := files;
      files := files + [distinct];
      bins := bins + [offsets];
      forall x: Pair
        ensures Has(x) <==> InSome(before, x) || x in run
      {
        assert x in distinct <==> x in Elements(distinct);
        assert x in run <==> x in Elements(run);
        InOneMore(before, distinct, x);
      }
    }

    method Totals() returns (total: seq<nat>)
      requires Valid()
      ensures |total| == BINS + 1
    {
      total := [0];
      for b := 0 to BINS
        invariant |total| == b + 1
      {
        var inBin: nat := 0;
        for k := 0 to |bins|
        {
          BelowBinMonotone(files[k], b, b + 1);
          inBin := inBin + (bins[k][b + 1] - bins[k][b]);
        }
        total := total + [total[b] + inBin];
      }
    }

    method SlicesOf(b0: nat, b1: nat) returns (slices: seq<seq<Pair>>)
      requires Valid() && b0 <= b1 <= BINS
      ensures |slices| == |files|
      ensures forall k :: 0 <= k < |files| ==> RangeOf(slices[k], files[k], b0, b1)
    {
      slices := [];
      for k := 0 to |files|
        invariant |slices| == k
        invariant forall i :: 0 <= i < k ==> RangeOf(slices[i], files[i], b0, b1)
      {
        SliceIsTheRange(files[k], bins[k], b0, b1);
        slices := slices + [Slice(files[k], bins[k], b0, b1)];
      }
    }

    /** One range of bins, behind what the ranges below it wrote. */
    method MergeBins(b0: nat, b1: nat, ghost below: seq<Pair>) returns (out: seq<Pair>, n: nat, side: nat)
      requires Valid() && b0 < b1 <= BINS && MergedBelow(files, below, b0)
      ensures MergedBelow(files, below + out, b1) && n == |out|
      ensures SameHash(below + out) == SameHash(below) + side
      ensures forall x, y :: x in below && y in out ==> x.0 < y.0
    {
      hide MergedBelow, Gathers;
      var slices := SlicesOf(b0, b1);
      out, n, side := MergeRange(slices);
      RangeAppends(files, below, b0, b1, slices, out);
    }

    /** Merge the runs a range of bins at a time, a file of ascending pairs to each range: no pair twice, no
        hash in two files, and the counts those of the whole. */
    method Merge() returns (r: Stream)
      requires Valid()
      ensures r.Files? && Strict(r.All()) && HashesApart(r.segments)
      ensures forall x: Pair :: x in r.All() <==> Has(x)
      ensures r.Counts() == (|r.All()|, SameHash(r.All()))
    {
      hide MergedBelow, HashesApart, Strict, InSome, SameHash, Offsets;
      NothingMerged(files);
      var total := Totals();
      var cuts := Cut(total, if threads < 1 then 1 else threads);
      var segments: seq<seq<Pair>>, n, side := [], 0, 0;
      for t := 0 to |cuts| - 1
        invariant MergedBelow(files, Concat(segments), cuts[t]) && HashesApart(segments)
        invariant n == |Concat(segments)| && side == SameHash(Concat(segments))
      {
        assert cuts[t] < cuts[t + 1] <= BINS;
        var out, inRange, sameHash := MergeBins(cuts[t], cuts[t + 1], Concat(segments));
        ApartSnoc(segments, out);
        assert (segments + [out])[..|segments|] == segments;
        segments := segments + [out];
        n, side := n + inRange, side + sameHash;
      }
      AllMerged(files, Concat(segments));
      r := Files(segments, n, side);
    }
  }

  /** Pass one of a streaming build. Whatever the run budget, the threads and the cuts, the same pairs come
      out, those of one hash all in one file. */
  method StreamAll(input: seq<Pair>, threads: nat, runBytes: nat) returns (r: Stream)
    ensures r.All() == Canonical(input)
    ensures r.Counts() == (|Canonical(input)|, SameHash(Canonical(input)))
    ensures r.Files? ==> HashesApart(r.segments)
    ensures r.Memory? <==> |input| == 0 || |input| < runBytes / 16
  {
    var cap := if runBytes / 16 < 1 then 1 else runBytes / 16;
    var scratch := new Scratch(threads);
    var run: seq<Pair> := [];
    for i := 0 to |input|
      invariant scratch.Valid() && fresh(scratch) && scratch.threads == threads
      invariant forall x: Pair :: x in input[..i] <==> x in run || scratch.Has(x)
      invariant scratch.files == [] ==> run == input[..i]
      invariant |run| < cap && (scratch.files == [] <==> i < cap)
    {
      assert input[..i + 1] == input[..i] + [input[i]];
      run := run + [input[i]];
      if |run| == cap {
        scratch.Spill(run);
        run := [];
      }
    }
    assert input[..|input|] == input;
    CanonicalIs(input);
    if scratch.files == [] {
      var distinct := SortedDistinct(run, threads);
      return Memory(distinct);
    }
    if run != [] {
      scratch.Spill(run);
    }
    r := scratch.Merge();
    forall x: Pair
      ensures x in Elements(r.All()) <==> x in Elements(Canonical(input))
    {
      assert x in r.All() <==> x in Elements(r.All());
      assert x in input <==> x in Elements(input);
    }
    StrictIsUnique(r.All(), Canonical(input));
  }
}
