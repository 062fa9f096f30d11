/** Placing fingerprints at their slots: straight into one table, or through range files of a multiple
    of eight slots each, whose segments laid end to end are the same bytes. */
module FpPlace {
  import opened Lex
  import opened Bits
  import opened FpTable

  /** A fingerprint for a slot. */
  type Put = (nat, nat)

  ghost predicate Puts(puts: seq<Put>, m: nat, bits: nat) {
    && (forall i :: 0 <= i < |puts| ==> puts[i].0 < m && puts[i].1 < Pow2(bits))
    && (forall i, j :: 0 <= i < j < |puts| ==> puts[i].0 != puts[j].0)
  }

  /** What the table holds after `puts`. */
  function Filled(puts: seq<Put>, m: nat): (p: seq<nat>)
    ensures |p| == m
  {
    if puts == [] then seq(m, _ => 0)
    else
      var p := Filled(puts[..|puts| - 1], m);
      var (slot, fp) := puts[|puts| - 1];
      if slot < m then p[slot := fp] else p
  }

  /** Each slot put to holds its fingerprint and every other is empty, in whatever order they came. */
  lemma {:induction false} FilledHolds(puts: seq<Put>, m: nat, bits: nat)
    requires Puts(puts, m, bits)
    ensures forall i :: 0 <= i < |puts| ==> Filled(puts, m)[puts[i].0] == puts[i].1
    ensures forall s :: 0 <= s < m && (forall i :: 0 <= i < |puts| ==> puts[i].0 != s) ==> Filled(puts, m)[s] == 0
    ensures AllFit(Filled(puts, m), bits)
  {
    if puts != [] {
      var front := puts[..|puts| - 1];
      FilledHolds(front, m, bits);
      assert forall i :: 0 <= i < |front| ==> front[i] == puts[i];
    }
  }

  /** Two orders of the same puts fill the same table. */
  lemma FilledInAnyOrder(a: seq<Put>, b: seq<Put>, m: nat, bits: nat)
    requires Puts(a, m, bits) && Puts(b, m, bits)
    requires forall x: Put :: x in a <==> x in b
    ensures Filled(a, m) == Filled(b, m)
  {
    FilledHolds(a, m, bits);
    FilledHolds(b, m, bits);
    forall s | 0 <= s < m
      ensures Filled(a, m)[s] == Filled(b, m)[s]
    {
      PutElsewhere(b, a, s);
      if i :| 0 <= i < |a| && a[i].0 == s {
        assert a[i] in b;
        var j :| 0 <= j < |b| && b[j] == a[i];
      }
    }
  }

  lemma PutElsewhere(a: seq<Put>, b: seq<Put>, s: nat)
    requires forall x: Put :: x in a ==> x in b
    ensures (exists i :: 0 <= i < |a| && a[i].0 == s) ==> exists j :: 0 <= j < |b| && b[j].0 == s
  {
    if i :| 0 <= i < |a| && a[i].0 == s {
      assert a[i] in b;
      var j :| 0 <= j < |b| && b[j] == a[i];
    }
  }

  lemma FilledSnoc(puts: seq<Put>, i: nat, m: nat)
    requires i < |puts| && puts[i].0 < m
    ensures Filled(puts[..i + 1], m) == Filled(puts[..i], m)[puts[i].0 := puts[i].1]
  {
    assert puts[..i + 1][..i] == puts[..i];
  }

  lemma EmptyAtNext(puts: seq<Put>, i: nat, m: nat, bits: nat)
    requires Puts(puts, m, bits) && i < |puts|
    ensures Puts(puts[..i], m, bits) && Filled(puts[..i], m)[puts[i].0] == 0
    ensures AllFit(Filled(puts[..i], m), bits)
  {
    FilledHolds(puts[..i], m, bits);
  }

  lemma {:induction false} ZeroTable(m: nat, bits: nat)
    ensures TableVal(seq(m, _ => 0), bits) == 0
  {
    if m > 0 {
      var z: seq<nat> := seq(m, _ => 0);
      assert z[1..] == seq(m - 1, _ => 0);
      ZeroTable(m - 1, bits);
    }
  }

  lemma {:induction false} ZeroBytes(k: nat)
    ensures Val(seq(k, _ => 0)) == 0
  {
    if k > 0 {
      var z: seq<byte> := seq(k, _ => 0);
      assert z[1..] == seq(k - 1, _ => 0);
      ZeroBytes(k - 1);
    }
  }

  method ZeroedTable(m: nat, bits: nat) returns (fps: array<byte>)
    ensures fresh(fps) && TableOf(fps[..], seq(m, _ => 0), bits)
  {
    fps := new byte[TableLen(m, bits)](_ => 0);
    assert fps[..] == seq(fps.Length, _ => 0);
    ZeroBytes(fps.Length);
    ZeroTable(m, bits);
  }

  /** Straight into the table. */
  method PlaceInMemory(puts: seq<Put>, m: nat, bits: nat) returns (out: seq<byte>)
    requires 1 <= bits <= 64 && Puts(puts, m, bits)
    ensures TableOf(out, Filled(puts, m), bits)
  {
    var fps := ZeroedTable(m, bits);
    assert puts[..0] == [];
    for i := 0 to |puts|
      invariant TableOf(fps[..], Filled(puts[..i], m), bits)
    {
      EmptyAtNext(puts, i, m, bits);
      FilledSnoc(puts, i, m);
      WriteFp(fps, puts[i].0, bits, puts[i].1, Filled(puts[..i], m));
    }
    assert puts[..|puts|] == puts;
    out := fps[..];
  }

  // ----- range files

  /** The puts of the slots from `base` on, `size` of them, in order. */
  function Ranged(puts: seq<Put>, base: nat, size: nat): (q: seq<Put>)
    ensures forall k :: 0 <= k < |q| ==> base <= q[k].0 < base + size && q[k] in puts
  {
    if puts == [] then []
    else
      var q := Ranged(puts[..|puts| - 1], base, size);
      var last := puts[|puts| - 1];
      if base <= last.0 < base + size then q + [last] else q
  }

  lemma {:induction false} RangedPuts(puts: seq<Put>, base: nat, size: nat, m: nat, bits: nat)
    requires Puts(puts, m, bits)
    ensures forall i, j :: 0 <= i < j < |Ranged(puts, base, size)| ==>
      Ranged(puts, base, size)[i].0 != Ranged(puts, base, size)[j].0
    ensures forall i :: 0 <= i < |Ranged(puts, base, size)| ==>
      Ranged(puts, base, size)[i].0 < m && Ranged(puts, base, size)[i].1 < Pow2(bits)
  {
    if puts != [] {
      var front, last := puts[..|puts| - 1], puts[|puts| - 1];
      RangedPuts(front, base, size, m, bits);
      var q := Ranged(front, base, size);
      forall k | 0 <= k < |q|
        ensures q[k].0 != last.0
      {
        var i :| 0 <= i < |front| && front[i] == q[k];
        assert puts[i] == front[i];
      }
    }
  }

  /** The same puts counted from the start of the range. */
  function Local(q: seq<Put>, base: nat): (l: seq<Put>)
    requires forall k :: 0 <= k < |q| ==> base <= q[k].0
    ensures |l| == |q|
  {
    seq(|q|, k requires 0 <= k < |q| => (q[k].0 - base, q[k].1))
  }

  /** A range filled on its own is its stretch of the whole table filled. */
  lemma {:induction false} RangeFilled(puts: seq<Put>, base: nat, size: nat, slots: nat, m: nat)
    requires slots <= size && base + slots <= m && (slots == size || base + slots == m)
    requires forall i :: 0 <= i < |puts| ==> puts[i].0 < m
    ensures Filled(Local(Ranged(puts, base, size), base), slots) == Filled(puts, m)[base..base + slots]
  {
    hide Local;
    if puts != [] {
      var front, last := puts[..|puts| - 1], puts[|puts| - 1];
      RangeFilled(front, base, size, slots, m);
      var q := Ranged(front, base, size);
      FilledSnoc(puts, |puts| - 1, m);
      assert puts[..|puts|] == puts;
      if base <= last.0 < base + size {
        LocalSnoc(q, last, base, slots);
      }
    }
  }

  lemma LocalSnoc(q: seq<Put>, last: Put, base: nat, slots: nat)
    requires forall k :: 0 <= k < |q| ==> base <= q[k].0
    requires base <= last.0 < base + slots
    ensures Filled(Local(q + [last], base), slots) == Filled(Local(q, base), slots)[last.0 - base := last.1]
  {
    var l := Local(q + [last], base);
    assert l[..|l| - 1] == Local(q, base);
  }

  /** A range record: the slot, then the fingerprint at its own width. */
  function Record(put: Put, width: nat): (r: seq<byte>)
    ensures |r| == 4 + width
  {
    ToLe(put.0, 4) + ToLe(put.1, width)
  }

  function Records(puts: seq<Put>, width: nat): seq<byte> {
    if puts == [] then [] else Records(puts[..|puts| - 1], width) + Record(puts[|puts| - 1], width)
  }

  function OneRecord(rec: seq<byte>): Put
    requires |rec| >= 4
  {
    (Val(rec[..4]), Val(rec[4..]))
  }

  lemma RecordReadsBack(put: Put, width: nat)
    requires put.0 < 0x1_0000_0000 && put.1 < Pow2(8 * width)
    ensures OneRecord(Record(put, width)) == put
  {
    var rec := Record(put, width);
    assert rec[..4] == ToLe(put.0, 4) && rec[4..] == ToLe(put.1, width);
    ByteShifts(0, 0, 0);
    ByteShifts(0, 0, 8);
    ByteShifts(0, 0, 16);
    ByteShifts(0, 0, 24);
    ToLeReadsBack(put.0, 4);
    ToLeReadsBack(put.1, width);
  }

  lemma RecordsSnoc(puts: seq<Put>, put: Put, width: nat)
    ensures Records(puts + [put], width) == Records(puts, width) + Record(put, width)
  {
    assert (puts + [put])[..|puts|] == puts;
  }

  /** What the range files hold: each its range's records, in the order they came. */
  ghost predicate Staged(files: seq<seq<byte>>, bases: seq<nat>, puts: seq<Put>, size: nat, width: nat) {
    && |files| == |bases|
    && forall r :: 0 <= r < |files| ==> files[r] == Records(Ranged(puts, bases[r], size), width)
  }

  /** Where the ranges start. */
  ghost predicate Bases(bases: seq<nat>, size: nat, m: nat) {
    && size >= 1
    && (forall r :: 0 <= r < |bases| ==> bases[r] == r * size)
    && (forall s :: 0 <= s < m ==> s / size < |bases|)
  }

  lemma RangeOfSlot(slot: nat, size: nat, r: nat)
    requires size >= 1
    ensures slot / size == r <==> r * size <= slot < r * size + size
  {
    var q, rem := slot / size, slot % size;
    assert slot == q * size + rem;
    if q < r {
      MulMonotone(q + 1, r, size);
      assert (q + 1) * size == q * size + size;
    } else if r < q {
      MulMonotone(r + 1, q, size);
      assert (r + 1) * size == r * size + size;
    }
  }

  lemma StagedOneMore(files: seq<seq<byte>>, bases: seq<nat>, puts: seq<Put>, put: Put, size: nat, width: nat, m: nat)
    requires size >= 1 && Bases(bases, size, m) && Staged(files, bases, puts, size, width) && put.0 < m
    ensures put.0 / size < |files|
    ensures Staged(files[put.0 / size := files[put.0 / size] + Record(put, width)], bases, puts + [put], size, width)
  {
    var more := puts + [put];
    assert more[..|puts|] == puts;
    var at := put.0 / size;
    var files' := files[at := files[at] + Record(put, width)];
    forall r | 0 <= r < |files'|
      ensures files'[r] == Records(Ranged(more, bases[r], size), width)
    {
      RangeOfSlot(put.0, size, r);
      RecordsSnoc(Ranged(puts, bases[r], size), put, width);
    }
  }

  /** One segment: its range file's records, each written at its place. */
  method FillSegment(file: seq<byte>, base: nat, slots: nat, bits: nat, width: nat, ghost q: seq<Put>)
    returns (segment: seq<byte>)
    requires 1 <= bits <= 64 && bits <= 8 * width
    requires file == Records(q, width)
    requires forall k :: 0 <= k < |q| ==> base <= q[k].0 < 0x1_0000_0000
    requires Puts(Local(q, base), slots, bits)
    ensures TableOf(segment, Filled(Local(q, base), slots), bits)
  {
    hide Record, TableLen;
    var fps := ZeroedTable(slots, bits);
    var at := 0;
    ghost var k, l := 0, Local(q, base);
    assert l[..0] == [] && q[..0] == [] && q[..|q|] == q;
    while at < |file|
      invariant 0 <= k <= |q| && at == |Records(q[..k], width)|
      invariant TableOf(fps[..], Filled(l[..k], slots), bits)
      decreases |q| - k
    {
      NextRecord(q, k, width);
      WriteRecord(fps, file[at..at + 4 + width], base, slots, bits, width, q, k);
      at := at + 4 + width;
      k := k + 1;
    }
    AllRecords(q, k, width);
    assert l[..k] == l;
    segment := fps[..];
  }

  lemma AllRecords(q: seq<Put>, k: nat, width: nat)
    requires k <= |q| && |Records(q[..k], width)| >= |Records(q, width)|
    ensures k == |q|
  {
    if k < |q| {
      RecordsGrow(q, k, width);
    }
  }

  method WriteRecord(fps: array<byte>, rec: seq<byte>, base: nat, ghost slots: nat, bits: nat, ghost width: nat,
      ghost q: seq<Put>, ghost k: nat)
    requires 1 <= bits <= 64 && bits <= 8 * width && k < |q|
    requires forall k :: 0 <= k < |q| ==> base <= q[k].0 < 0x1_0000_0000
    requires Puts(Local(q, base), slots, bits) && rec == Record(q[k], width)
    requires TableOf(fps[..], Filled(Local(q, base)[..k], slots), bits)
    modifies fps
    ensures TableOf(fps[..], Filled(Local(q, base)[..k + 1], slots), bits)
  {
    ghost var l := Local(q, base);
    assert l[k].1 < Pow2(bits);
    Pow2Monotone(bits, 8 * width);
    RecordReadsBack(q[k], width);
    var (slot, fp) := OneRecord(rec);
    EmptyAtNext(l, k, slots, bits);
    FilledSnoc(l, k, slots);
    WriteFp(fps, slot - base, bits, fp, Filled(l[..k], slots));
  }

  lemma RecordsGrow(q: seq<Put>, k: nat, width: nat)
    requires k < |q|
    ensures |Records(q[..k], width)| + 4 + width <= |Records(q, width)|
    ensures Records(q[..k + 1], width) <= Records(q, width)
    ensures Records(q[..k + 1], width) == Records(q[..k], width) + Record(q[k], width)
  {
    hide Record;
    assert q[..k + 1][..k] == q[..k];
    if k + 1 == |q| {
      assert q[..k + 1] == q;
    } else {
      var front := q[..|q| - 1];
      RecordsGrow(front, k, width);
      assert front[..k] == q[..k] && front[..k + 1] == q[..k + 1];
    }
  }

  lemma NextRecord(q: seq<Put>, k: nat, width: nat)
    requires k <= |q| && |Records(q[..k], width)| < |Records(q, width)|
    ensures k < |q|
    ensures var at := |Records(q[..k], width)|;
      && at + 4 + width <= |Records(q, width)|
      && Records(q, width)[at..at + 4 + width] == Record(q[k], width)
      && |Records(q[..k + 1], width)| == at + 4 + width
      && Records(q[..k + 1], width) <= Records(q, width)
  {
    hide Record;
    assert q[..|q|] == q;
    RecordsGrow(q, k, width);
  }

  /** Segments of a multiple of eight slots end on a byte, so laid end to end they are one table. */
  lemma SegmentsConcat(a: seq<byte>, p: seq<nat>, b: seq<byte>, q: seq<nat>, bits: nat)
    requires TableOf(a, p, bits) && TableOf(b, q, bits) && |p| % 8 == 0
    ensures TableOf(a + b, p + q, bits)
  {
    WholeBytes(|p|, bits);
    TimesAdd(|p|, |q|, bits);
    ValConcat(a, b);
    TableConcat(p, q, bits);
  }

  lemma {:induction false} WholeBytes(n: nat, bits: nat)
    requires n % 8 == 0
    ensures Times(n, bits) % 8 == 0 && TableLen(n, bits) * 8 == Times(n, bits)
  {
    if n > 0 {
      WholeBytes(n - 8, bits);
      TimesAdd(n - 8, 8, bits);
      TimesIsProduct(8, bits);
    }
  }

  /** The range files' segments end to end, whatever order the records reached the files in. */
  method JoinRanges(files: seq<seq<byte>>, ghost bases: seq<nat>, ghost order: seq<Put>, m: nat, bits: nat, size: nat)
    returns (out: seq<byte>)
    requires 1 <= bits <= 64 && Puts(order, m, bits) && size >= 1 && size % 8 == 0 && m < 0x1_0000_0000
    requires Bases(bases, size, m) && |bases| * size >= m && (|bases| > 0 ==> (|bases| - 1) * size < m)
    requires Staged(files, bases, order, size, (bits + 7) / 8)
    ensures TableOf(out, Filled(order, m), bits)
  {
    hide TableOf, Filled, Ranged, Records;
    var ranges := |files|;
    FilledHolds(order, m, bits);
    FirstBase(m, size, ranges, bases);
    out := [];
    var base := 0;
    ghost var want := Filled(order, m);
    NothingYet(want, bits);
    for r := 0 to ranges
      invariant if r < ranges then base == bases[r] < m else base >= m
      invariant TableOf(out, want[..if base < m then base else m], bits)
    {
      RangeStep(m, size, r, ranges, bases);
      var slots := if size < m - base then size else m - base;
      var segment := OneSegment(files[r], order, m, bits, (bits + 7) / 8, base, size, slots);
      SegmentAppended(out, segment, want, base, slots, bits);
      out := out + segment;
      base := base + size;
    }
    assert want[..m] == want;
  }

  lemma NothingYet(want: seq<nat>, bits: nat)
    ensures TableOf([], want[..0], bits)
  {
  }

  lemma SegmentAppended(out: seq<byte>, segment: seq<byte>, want: seq<nat>, base: nat, slots: nat, bits: nat)
    requires base + slots <= |want| && base % 8 == 0
    requires TableOf(out, want[..base], bits) && TableOf(segment, want[base..base + slots], bits)
    ensures TableOf(out + segment, want[..base + slots], bits)
  {
    SegmentsConcat(out, want[..base], segment, want[base..base + slots], bits);
    assert want[..base] + want[base..base + slots] == want[..base + slots];
  }

  method OneSegment(file: seq<byte>, ghost puts: seq<Put>, ghost m: nat, bits: nat, width: nat, base: nat,
      ghost size: nat, slots: nat) returns (segment: seq<byte>)
    requires 1 <= bits <= 64 && width == (bits + 7) / 8 && Puts(puts, m, bits) && m < 0x1_0000_0000
    requires base < m && slots == (if size < m - base then size else m - base)
    requires file == Records(Ranged(puts, base, size), width)
    ensures TableOf(segment, Filled(puts, m)[base..base + slots], bits)
  {
    hide Filled, Ranged, Records, TableOf;
    ghost var q := Ranged(puts, base, size);
    RangedPuts(puts, base, size, m, bits);
    RangeFilled(puts, base, size, slots, m);
    segment := FillSegment(file, base, slots, bits, width, q);
  }

  lemma SizeTimes(r: nat, size: nat)
    requires size % 8 == 0
    ensures (r * size) % 8 == 0
  {
    var k := size / 8;
    assert r * size == 8 * (r * k);
  }

  lemma FirstBase(m: nat, size: nat, ranges: nat, bases: seq<nat>)
    requires |bases| == ranges && Bases(bases, size, m)
    requires ranges * size >= m && (ranges > 0 ==> (ranges - 1) * size < m)
    ensures if ranges > 0 then bases[0] == 0 < m else m == 0
  {
    if ranges > 0 {
      MulMonotone(0, ranges - 1, size);
    }
  }

  lemma RangeStep(m: nat, size: nat, r: nat, ranges: nat, bases: seq<nat>)
    requires size % 8 == 0 && r < ranges == |bases| && Bases(bases, size, m)
    requires ranges * size >= m && (ranges - 1) * size < m
    ensures bases[r] % 8 == 0
    ensures if r + 1 < ranges then bases[r + 1] == bases[r] + size < m else bases[r] + size >= m
  {
    SizeTimes(r, size);
    assert (r + 1) * size == r * size + size;
    if r + 1 < ranges {
      MulMonotone(r + 1, ranges - 1, size);
    }
  }

  /** `m.div_ceil(range_slots)` ranges. */
  method CountRanges(m: nat, size: nat) returns (ranges: nat, ghost bases: seq<nat>)
    requires size >= 1
    ensures |bases| == ranges && Bases(bases, size, m)
    ensures ranges * size >= m && (ranges > 0 ==> (ranges - 1) * size < m)
  {
    ranges := (m + size - 1) / size;
    bases := seq(ranges, r => r * size);
    CeilBounds(m, size, ranges);
    forall s | 0 <= s < m
      ensures s / size < ranges
    {
      RangeOfSlot(s, size, s / size);
      if ranges <= s / size {
        MulMonotone(ranges, s / size, size);
      }
    }
  }

  lemma CeilBounds(m: nat, size: nat, ranges: nat)
    requires size >= 1 && ranges == (m + size - 1) / size
    ensures ranges * size >= m && (ranges > 0 ==> (ranges - 1) * size < m)
  {
    var x := m + size - 1;
    assert x == ranges * size + x % size;
    assert (ranges - 1) * size == ranges * size - size;
  }

  /** The file build's table is the memory build's, byte for byte, whatever order the threads wrote in. */
  lemma SameTableEitherWay(a: seq<byte>, b: seq<byte>, puts: seq<Put>, shuffled: seq<Put>, m: nat, bits: nat)
    requires Puts(puts, m, bits) && Puts(shuffled, m, bits)
    requires forall x: Put :: x in puts <==> x in shuffled
    requires TableOf(a, Filled(puts, m), bits) && TableOf(b, Filled(shuffled, m), bits)
    ensures a == b
  {
    FilledInAnyOrder(puts, shuffled, m, bits);
    TableUnique(a, b, Filled(puts, m), bits);
  }
}
