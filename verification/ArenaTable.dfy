/** The string arena's offset table, what is written and what a reader makes of it: blocks of cumulative offsets
    with an overflow table, or one flat table; under a flag, a fingerprint a slot. */
module ArenaTable {
  import opened Lex
  import opened Bits
  import opened Wrappers

  /** Bytes of a flat offset, and of a block's base, in a small arena and in a large one. */
  const NARROW := 4
  const WIDE := 8
  const BLOCK_U8 := 0x11
  const BLOCK_U16 := 0x12
  const MERGED := 0x13
  const HEADER := 9
  const TRAILER := 8
  /** One past what a `usize` holds. */
  const USIZE := 0x1_0000_0000_0000_0000

  /** What a tag byte says. */
  datatype Tag = Tag(layout: nat, wide: bool, overflow: bool, fp: bool) {

    predicate Blocked() {
      layout == BLOCK_U8 || layout == BLOCK_U16
    }

    predicate Flat() {
      (layout == NARROW || layout == WIDE) && !wide && !overflow
    }

    function Byte(): byte
      requires layout < 0x20
    {
      layout + (if wide then 0x20 else 0) + (if overflow then 0x40 else 0) + if fp then 0x80 else 0
    }

    function Base(): nat {
      if wide then WIDE else NARROW
    }

    function Slots(): nat {
      if layout == BLOCK_U16 then 256 else 16
    }

    function Width(): nat {
      if layout == BLOCK_U16 then 2 else 1
    }

    /** The most bytes of keys a block's offsets reach. */
    function Most(): nat {
      if layout == BLOCK_U16 then 0xFFFF else 0xFF
    }

    /** A block's row of offsets. */
    function RowBytes(): nat {
      Times(Slots() + 1, Width())
    }

    function BlockBytes(): nat {
      Base() + RowBytes() + if fp then Slots() else 0
    }

    /** An overflow entry: the same offsets, each as wide as the base. */
    function EntryBytes(): nat {
      Times(Slots() + 1, Base())
    }

    function BlockOf(i: nat): nat {
      if layout == BLOCK_U16 then i / 256 else i / 16
    }

    function PlaceOf(i: nat): nat {
      if layout == BLOCK_U16 then i % 256 else i % 16
    }

    /** Blocks `n` slots take: `n` over the slots of one, rounded up. */
    function BlocksFor(n: nat): nat {
      BlockOf(n + Slots() - 1)
    }
  }

  function Split(tag: byte): Tag {
    Tag(tag % 0x20, tag / 0x20 % 2 == 1, tag / 0x40 % 2 == 1, tag / 0x80 % 2 == 1)
  }

  lemma SplitReadsBack(tag: Tag)
    requires tag.layout < 0x20
    ensures Split(tag.Byte()) == tag
  {
    var b: int := tag.Byte();
    assert b / 0x80 % 2 == if tag.fp then 1 else 0;
  }

  // ----- lengths added up

  function LenAt(lens: seq<nat>, i: nat): nat {
    if i < |lens| then lens[i] else 0
  }

  /** The bytes of `k` keys from slot `at` on, slots past the last holding none. */
  function Run(lens: seq<nat>, at: nat, k: nat): nat {
    if k == 0 then 0 else Run(lens, at, k - 1) + LenAt(lens, at + k - 1)
  }

  function RunAll(lens: seq<nat>): nat {
    Run(lens, 0, |lens|)
  }

  lemma {:induction false} RunSplit(lens: seq<nat>, at: nat, k: nat, m: nat)
    ensures Run(lens, at, k + m) == Run(lens, at, k) + Run(lens, at + k, m)
  {
    if m > 0 {
      RunSplit(lens, at, k, m - 1);
    }
  }

  lemma RunMonotone(lens: seq<nat>, at: nat, k: nat, m: nat)
    requires k <= m
    ensures Run(lens, at, k) <= Run(lens, at, m)
  {
    RunSplit(lens, at, k, m - k);
  }

  lemma {:induction false} RunPast(lens: seq<nat>, k: nat)
    ensures Run(lens, |lens|, k) == 0
  {
    if k > 0 {
      RunPast(lens, k - 1);
    }
  }

  /** No run reaches past the whole. */
  lemma RunBound(lens: seq<nat>, k: nat)
    ensures Run(lens, 0, k) <= RunAll(lens)
    ensures k >= |lens| ==> Run(lens, 0, k) == RunAll(lens)
  {
    if k <= |lens| {
      RunMonotone(lens, 0, k, |lens|);
    } else {
      RunSplit(lens, 0, |lens|, k - |lens|);
      RunPast(lens, k - |lens|);
    }
  }

  // ----- what is written

  /** The first `k` of slot `at`'s cumulative offsets, `w` bytes each. */
  function Row(lens: seq<nat>, at: nat, k: nat, w: nat): (s: seq<byte>)
    ensures |s| == Times(k, w)
  {
    if k == 0 then [] else Row(lens, at, k - 1, w) + ToLe(Run(lens, at, k - 1), w)
  }

  lemma {:induction false} RowHolds(lens: seq<nat>, at: nat, k: nat, w: nat, i: nat)
    requires i < k
    ensures Times(i, w) + w <= Times(k, w)
    ensures Row(lens, at, k, w)[Times(i, w)..Times(i, w) + w] == ToLe(Run(lens, at, i), w)
  {
    if i < k - 1 {
      RowHolds(lens, at, k - 1, w, i);
    }
  }

  function FpAt(fps: Option<seq<byte>>, i: nat): byte {
    if fps.Some? && i < |fps.value| then fps.value[i] else 0
  }

  function FpRow(fps: Option<seq<byte>>, at: nat, k: nat): (s: seq<byte>)
    ensures |s| == k
    ensures forall i :: 0 <= i < k ==> s[i] == FpAt(fps, at + i)
  {
    if k == 0 then [] else FpRow(fps, at, k - 1) + [FpAt(fps, at + k - 1)]
  }

  /** Whether block `j`'s keys outgrow its offsets. */
  predicate Overflows(lens: seq<nat>, tag: Tag, j: nat) {
    Run(lens, Times(j, tag.Slots()), tag.Slots()) > tag.Most()
  }

  /** How many of the first `j` blocks do. */
  function Index(lens: seq<nat>, tag: Tag, j: nat): nat {
    if j == 0 then 0 else Index(lens, tag, j - 1) + if Overflows(lens, tag, j - 1) then 1 else 0
  }

  function OffsetRow(lens: seq<nat>, tag: Tag, j: nat): (s: seq<byte>)
    ensures |s| == tag.RowBytes()
  {
    RowRoom(tag);
    if Overflows(lens, tag, j)
    then seq(tag.Width(), _ => 0xFF) + ToLe(Index(lens, tag, j), tag.Base())
           + seq(tag.RowBytes() - tag.Width() - tag.Base(), _ => 0)
    else Row(lens, Times(j, tag.Slots()), tag.Slots() + 1, tag.Width())
  }

  lemma RowRoom(tag: Tag)
    ensures tag.RowBytes() == if tag.layout == BLOCK_U16 then 514 else 17
    ensures tag.Width() + tag.Base() <= tag.RowBytes()
  {
    TimesBytes(tag.Slots() + 1, 1);
  }

  function Block(lens: seq<nat>, fps: Option<seq<byte>>, tag: Tag, j: nat): (s: seq<byte>)
    ensures |s| == tag.BlockBytes()
  {
    var at := Times(j, tag.Slots());
    ToLe(Run(lens, 0, at), tag.Base()) + OffsetRow(lens, tag, j)
      + if tag.fp then FpRow(fps, at, tag.Slots()) else []
  }

  function Blocks(lens: seq<nat>, fps: Option<seq<byte>>, tag: Tag, j: nat): (s: seq<byte>)
    ensures |s| == Times(j, tag.BlockBytes())
  {
    if j == 0 then [] else Blocks(lens, fps, tag, j - 1) + Block(lens, fps, tag, j - 1)
  }

  /** The overflow entries of the first `j` blocks. */
  function Spilled(lens: seq<nat>, tag: Tag, j: nat): (s: seq<byte>)
    ensures |s| == Times(Index(lens, tag, j), tag.EntryBytes())
  {
    if j == 0 then []
    else
      var entry := Row(lens, Times(j - 1, tag.Slots()), tag.Slots() + 1, tag.Base());
      assert |entry| == tag.EntryBytes();
      Spilled(lens, tag, j - 1) + if Overflows(lens, tag, j - 1) then entry else []
  }

  function FlatTable(lens: seq<nat>, fps: Option<seq<byte>>, tag: Tag): (s: seq<byte>)
    ensures |s| == Times(|lens| + 1, tag.layout) + if tag.fp then |lens| else 0
  {
    Row(lens, 0, |lens| + 1, tag.layout) + if tag.fp then FpRow(fps, 0, |lens|) else []
  }

  /** The offset structure. */
  function Table(lens: seq<nat>, fps: Option<seq<byte>>, tag: Tag): (s: seq<byte>)
    ensures |s| + HEADER == PrefixSize(tag, |lens|)
  {
    if tag.Blocked() then Blocks(lens, fps, tag, tag.BlocksFor(|lens|)) else FlatTable(lens, fps, tag)
  }

  /** What follows the data: the overflow entries and, under the flag, how many bytes they are. */
  function Tail(lens: seq<nat>, tag: Tag): seq<byte> {
    var spilled := if tag.Blocked() then Spilled(lens, tag, tag.BlocksFor(|lens|)) else [];
    spilled + if tag.overflow then ToLe(|spilled|, TRAILER) else []
  }

  function PrefixSize(tag: Tag, n: nat): nat {
    HEADER + (if tag.Blocked() then Times(tag.BlocksFor(n), tag.BlockBytes())
              else Times(n + 1, tag.layout) + if tag.fp then n else 0)
  }

  function Head(n: nat, tag: Tag): (s: seq<byte>)
    requires tag.layout < 0x20
    ensures |s| == HEADER
  {
    ToLe(n + 1, 8) + [tag.Byte()]
  }

  // ----- what a reader makes of it

  type Span = (nat, nat)
  type Entry = (Span, byte)

  function Word(s: seq<byte>, at: nat, w: nat): (v: nat)
    requires at + w <= |s|
  {
    Val(s[at..at + w])
  }

  /** A pair that runs backwards, or past what a `usize` holds, is none. */
  function SpanFrom(base: nat, lo: nat, hi: nat): Option<Span> {
    if hi < lo || base + hi >= USIZE then None else Some((base + lo, base + hi))
  }

  /** The span of the `k`-th slot of a block whose offsets are in the overflow table, `row` being the
      block's row past its first offset. */
  function OverflowSpan(overflow: seq<byte>, row: seq<byte>, tag: Tag, k: nat, base: nat): Option<Span>
    requires |row| >= tag.Base() && k < tag.Slots()
  {
    var start := Times(Word(row, 0, tag.Base()), tag.EntryBytes());
    if start + tag.EntryBytes() >= USIZE || start + tag.EntryBytes() > |overflow| then None
    else
      TimesMonotone(k + 2, tag.Slots() + 1, tag.Base());
      var entry := overflow[start..start + tag.EntryBytes()];
      SpanFrom(base, Word(entry, Times(k, tag.Base()), tag.Base()), Word(entry, Times(k + 1, tag.Base()), tag.Base()))
  }

  /** The span of the `k`-th slot of a block. */
  function BlockSpan(block: seq<byte>, overflow: seq<byte>, tag: Tag, k: nat): Option<Span>
    requires |block| == tag.BlockBytes() && k < tag.Slots()
  {
    RowRoom(tag);
    TimesMonotone(k + 2, tag.Slots() + 1, tag.Width());
    var w, row, base := tag.Width(), tag.Base(), Word(block, 0, tag.Base());
    if Word(block, row, w) == 0
    then SpanFrom(base, Word(block, row + Times(k, w), w), Word(block, row + Times(k + 1, w), w))
    else OverflowSpan(overflow, block[row + w..], tag, k, base)
  }

  function InBlock(block: seq<byte>, overflow: seq<byte>, tag: Tag, k: nat, want: Option<byte>): Option<Entry>
    requires |block| == tag.BlockBytes() && k < tag.Slots()
  {
    var fp := if tag.fp then block[tag.Base() + tag.RowBytes() + k] else 0;
    if tag.fp && want.Some? && want.value != fp then None
    else
      var span := BlockSpan(block, overflow, tag, k);
      if span.None? then None else Some((span.value, fp))
  }

  /** Slot `i`'s span and fingerprint, or none where the fingerprint is not the one wanted or the bytes do
      not hold it. */
  function EntryOf(bytes: seq<byte>, overflow: seq<byte>, tag: Tag, n: nat, i: nat, want: Option<byte>): Option<Entry> {
    if tag.Blocked() then
      var at := HEADER + Times(tag.BlockOf(i), tag.BlockBytes());
      if at + tag.BlockBytes() > |bytes| then None
      else InBlock(bytes[at..at + tag.BlockBytes()], overflow, tag, tag.PlaceOf(i), want)
    else
      var w := tag.layout;
      var row := HEADER + Times(n + 1, w) + i;
      if tag.fp && row >= |bytes| then None
      else
        var fp := if tag.fp then bytes[row] else 0;
        var at := HEADER + Times(i, w);
        if (tag.fp && want.Some? && want.value != fp) || at + w + w > |bytes| then None
        else
          var span := SpanFrom(0, Word(bytes, at, w), Word(bytes, at + w, w));
          if span.None? then None else Some((span.value, fp))
  }

  // ----- one undoes the other

  /** What slot `i` holds: where its key starts and ends among the keys laid end to end, and its
      fingerprint, which a different one wanted rules out. */
  function Stored(lens: seq<nat>, fps: Option<seq<byte>>, tag: Tag, i: nat, want: Option<byte>): Option<Entry> {
    if tag.fp && want.Some? && want.value != FpAt(fps, i) then None
    else Some(((Run(lens, 0, i), Run(lens, 0, i + 1)), if tag.fp then FpAt(fps, i) else 0))
  }

  /** The keys' bytes are within reach of the offsets. */
  ghost predicate Reached(lens: seq<nat>, tag: Tag) {
    RunAll(lens) < (if (tag.Blocked() && !tag.wide) || tag.layout == NARROW then 0x1_0000_0000 else USIZE)
  }

  lemma WordReadsBack(s: seq<byte>, at: nat, w: nat, v: nat)
    requires at + w <= |s| && s[at..at + w] == ToLe(v, w) && v < Pow2(8 * w)
    ensures Word(s, at, w) == v
  {
    ToLeReadsBack(v, w);
  }

  /** A word of a row. */
  lemma RowReads(lens: seq<nat>, at: nat, k: nat, w: nat, i: nat)
    requires i < k && Run(lens, at, i) < Pow2(8 * w)
    ensures Times(i, w) + w <= Times(k, w)
    ensures Word(Row(lens, at, k, w), Times(i, w), w) == Run(lens, at, i)
  {
    hide Val, ToLe;
    RowHolds(lens, at, k, w, i);
    ToLeReadsBack(Run(lens, at, i), w);
  }

  lemma {:induction false} BlocksHold(lens: seq<nat>, fps: Option<seq<byte>>, tag: Tag, j: nat, m: nat, size: nat)
    requires j < m && size == tag.BlockBytes()
    ensures Times(j, size) + size <= Times(m, size)
    ensures Blocks(lens, fps, tag, m)[Times(j, size)..Times(j, size) + size] == Block(lens, fps, tag, j)
  {
    hide Block;
    var before, last := Blocks(lens, fps, tag, m - 1), Block(lens, fps, tag, m - 1);
    assert Blocks(lens, fps, tag, m) == before + last;
    if j < m - 1 {
      BlocksHold(lens, fps, tag, j, m - 1, size);
      FrontSlice(before, last, Times(j, size), size);
    } else {
      BackSlice(before, last, Times(j, size), size);
    }
  }

  lemma FrontSlice(a: seq<byte>, b: seq<byte>, at: nat, n: nat)
    requires at + n <= |a|
    ensures (a + b)[at..at + n] == a[at..at + n]
  {
  }

  lemma SliceOfSlice(s: seq<byte>, from: nat, to: nat, at: nat, n: nat)
    requires from + at + n <= to <= |s|
    ensures s[from..to][at..at + n] == s[from + at..from + at + n]
  {
    var a, b := s[from..to][at..at + n], s[from + at..from + at + n];
    assert |a| == |b| && forall i :: 0 <= i < |a| ==> a[i] == b[i];
  }

  lemma BackSlice(a: seq<byte>, b: seq<byte>, at: nat, n: nat)
    requires at == |a| && n == |b|
    ensures (a + b)[at..at + n] == b
  {
  }

  lemma {:induction false} SpilledHolds(lens: seq<nat>, tag: Tag, j: nat, m: nat)
    requires j < m && Overflows(lens, tag, j)
    ensures var at := Times(Index(lens, tag, j), tag.EntryBytes());
      && at + tag.EntryBytes() <= |Spilled(lens, tag, m)|
      && Spilled(lens, tag, m)[at..at + tag.EntryBytes()]
           == Row(lens, Times(j, tag.Slots()), tag.Slots() + 1, tag.Base())
  {
    hide Row, Times, ToLe, Run, RunAll, Overflows;
    if j < m - 1 {
      SpilledHolds(lens, tag, j, m - 1);
    }
  }

  /** The overflow table is no longer than the keys it is for: an entry is shorter than the keys of a block
      that needs one. */
  lemma {:induction false} SpilledFits(lens: seq<nat>, tag: Tag, j: nat)
    ensures Index(lens, tag, j) <= Run(lens, 0, Times(j, tag.Slots()))
    ensures Times(Index(lens, tag, j), tag.EntryBytes()) <= Run(lens, 0, Times(j, tag.Slots()))
  {
    if j > 0 {
      SpilledFits(lens, tag, j - 1);
      RunSplit(lens, 0, Times(j - 1, tag.Slots()), tag.Slots());
      TimesBytes(tag.Slots() + 1, 1);
    }
  }

  lemma SlotParts(tag: Tag, i: nat)
    ensures tag.PlaceOf(i) < tag.Slots()
    ensures i == Times(tag.BlockOf(i), tag.Slots()) + tag.PlaceOf(i)
  {
    TimesIsProduct(tag.BlockOf(i), tag.Slots());
  }

  lemma BlockWithin(tag: Tag, i: nat, n: nat)
    requires i < n
    ensures tag.BlockOf(i) < tag.BlocksFor(n)
  {
  }

  /** The offsets of block `j`, in its row. */
  lemma RowOfBlock(lens: seq<nat>, tag: Tag, j: nat, k: nat)
    requires !Overflows(lens, tag, j) && k <= tag.Slots()
    ensures Times(k, tag.Width()) + tag.Width() <= tag.RowBytes()
    ensures Word(OffsetRow(lens, tag, j), Times(k, tag.Width()), tag.Width()) == Run(lens, Times(j, tag.Slots()), k)
  {
    var at := Times(j, tag.Slots());
    RunMonotone(lens, at, k, tag.Slots());
    WordPowers();
    RowReads(lens, at, tag.Slots() + 1, tag.Width(), k);
  }

  /** The mark of a block that overflows, and the index after it. */
  lemma MarkOfBlock(lens: seq<nat>, tag: Tag, j: nat)
    requires Overflows(lens, tag, j) && Index(lens, tag, j) < Pow2(8 * tag.Base())
    ensures tag.Width() + tag.Base() <= tag.RowBytes()
    ensures Word(OffsetRow(lens, tag, j), 0, tag.Width()) != 0
    ensures Word(OffsetRow(lens, tag, j), tag.Width(), tag.Base()) == Index(lens, tag, j)
  {
    RowRoom(tag);
    var row, w := OffsetRow(lens, tag, j), tag.Width();
    assert row[0..w][0] == 0xFF;
    assert row[w..w + tag.Base()] == ToLe(Index(lens, tag, j), tag.Base());
    ToLeReadsBack(Index(lens, tag, j), tag.Base());
  }

  lemma WordWithin(a: seq<byte>, s: seq<byte>, c: seq<byte>, n: nat, at: nat, w: nat)
    requires |a| == n && at + w <= |s|
    ensures Word(a + s + c, n + at, w) == Word(s, at, w)
  {
    assert (a + s + c)[n + at..n + at + w] == s[at..at + w];
  }

  /** The words of a block are its base and those of its row. */
  lemma BlockWords(lens: seq<nat>, fps: Option<seq<byte>>, tag: Tag, j: nat, at: nat, w: nat)
    requires at + w <= tag.RowBytes() && Run(lens, 0, Times(j, tag.Slots())) < Pow2(8 * tag.Base())
    ensures Word(Block(lens, fps, tag, j), 0, tag.Base()) == Run(lens, 0, Times(j, tag.Slots()))
    ensures Word(Block(lens, fps, tag, j), tag.Base() + at, w) == Word(OffsetRow(lens, tag, j), at, w)
  {
    var base := Run(lens, 0, Times(j, tag.Slots()));
    var rest := if tag.fp then FpRow(fps, Times(j, tag.Slots()), tag.Slots()) else [];
    assert Block(lens, fps, tag, j) == ToLe(base, tag.Base()) + OffsetRow(lens, tag, j) + rest;
    WordWithin(ToLe(base, tag.Base()), OffsetRow(lens, tag, j), rest, tag.Base(), at, w);
    WordReadsBack(Block(lens, fps, tag, j), 0, tag.Base(), base);
  }

  lemma SpanOfSlot(lens: seq<nat>, at: nat, k: nat)
    requires RunAll(lens) < USIZE
    ensures SpanFrom(Run(lens, 0, at), Run(lens, at, k), Run(lens, at, k + 1))
      == Some((Run(lens, 0, at + k), Run(lens, 0, at + k + 1)))
  {
    RunSplit(lens, 0, at, k);
    RunSplit(lens, 0, at, k + 1);
    RunBound(lens, at + k + 1);
  }

  /** An overflowing block's spans, from the table. */
  lemma OverflowReads(lens: seq<nat>, tag: Tag, j: nat, m: nat, row: seq<byte>, k: nat)
    requires j < m && Overflows(lens, tag, j) && k < tag.Slots() && RunAll(lens) < Pow2(8 * tag.Base()) <= USIZE
    requires |row| >= tag.Base() && Word(row, 0, tag.Base()) == Index(lens, tag, j)
    ensures var at := Times(j, tag.Slots());
      OverflowSpan(Spilled(lens, tag, m), row, tag, k, Run(lens, 0, at))
        == Some((Run(lens, 0, at + k), Run(lens, 0, at + k + 1)))
  {
    hide Val, ToLe, Row;
    var at := Times(j, tag.Slots());
    SpilledHolds(lens, tag, j, m);
    SpilledFits(lens, tag, m);
    RunBound(lens, Times(m, tag.Slots()));
    EntryWord(lens, tag, at, k);
    EntryWord(lens, tag, at, k + 1);
    SpanOfSlot(lens, at, k);
  }

  lemma EntryWord(lens: seq<nat>, tag: Tag, at: nat, k: nat)
    requires k <= tag.Slots() && RunAll(lens) < Pow2(8 * tag.Base())
    ensures Times(k, tag.Base()) + tag.Base() <= tag.EntryBytes()
    ensures Word(Row(lens, at, tag.Slots() + 1, tag.Base()), Times(k, tag.Base()), tag.Base()) == Run(lens, at, k)
  {
    hide Val, ToLe, Row;
    RunSplit(lens, 0, at, k);
    RunBound(lens, at + k);
    RowReads(lens, at, tag.Slots() + 1, tag.Base(), k);
  }

  /** Any block reads back, overflowing or not. */
  lemma BlockReads(lens: seq<nat>, fps: Option<seq<byte>>, tag: Tag, j: nat, m: nat, k: nat, want: Option<byte>)
    requires j < m && k < tag.Slots() && RunAll(lens) < Pow2(8 * tag.Base()) <= USIZE
    ensures InBlock(Block(lens, fps, tag, j), Spilled(lens, tag, m), tag, k, want)
      == Stored(lens, fps, tag, Times(j, tag.Slots()) + k, want)
  {
    hide BlockSpan, Spilled, Block, Run, Val;
    BlockFp(lens, fps, tag, j, k);
    if Overflows(lens, tag, j) {
      MarkedReads(lens, fps, tag, j, m, k);
    } else {
      PlainReads(lens, fps, tag, j, k, Spilled(lens, tag, m));
    }
  }

  lemma BlockFp(lens: seq<nat>, fps: Option<seq<byte>>, tag: Tag, j: nat, k: nat)
    requires k < tag.Slots()
    ensures tag.fp ==> Block(lens, fps, tag, j)[tag.Base() + tag.RowBytes() + k] == FpAt(fps, Times(j, tag.Slots()) + k)
  {
    hide ToLe, OffsetRow, Run;
  }

  lemma PlainWord(lens: seq<nat>, fps: Option<seq<byte>>, tag: Tag, j: nat, k: nat)
    requires !Overflows(lens, tag, j) && k <= tag.Slots() && RunAll(lens) < Pow2(8 * tag.Base())
    ensures Times(k, tag.Width()) + tag.Width() <= tag.RowBytes()
    ensures Word(Block(lens, fps, tag, j), tag.Base() + Times(k, tag.Width()), tag.Width())
      == Run(lens, Times(j, tag.Slots()), k)
    ensures Word(Block(lens, fps, tag, j), 0, tag.Base()) == Run(lens, 0, Times(j, tag.Slots()))
  {
    hide Val, Block;
    RunBound(lens, Times(j, tag.Slots()));
    RowOfBlock(lens, tag, j, k);
    BlockWords(lens, fps, tag, j, Times(k, tag.Width()), tag.Width());
  }

  lemma PlainReads(lens: seq<nat>, fps: Option<seq<byte>>, tag: Tag, j: nat, k: nat, overflow: seq<byte>)
    requires !Overflows(lens, tag, j) && k < tag.Slots() && RunAll(lens) < Pow2(8 * tag.Base()) <= USIZE
    ensures var at := Times(j, tag.Slots());
      BlockSpan(Block(lens, fps, tag, j), overflow, tag, k) == Some((Run(lens, 0, at + k), Run(lens, 0, at + k + 1)))
  {
    hide Block, Val;
    PlainWord(lens, fps, tag, j, 0);
    PlainWord(lens, fps, tag, j, k);
    PlainWord(lens, fps, tag, j, k + 1);
    SpanOfSlot(lens, Times(j, tag.Slots()), k);
  }

  lemma MarkedWords(lens: seq<nat>, fps: Option<seq<byte>>, tag: Tag, j: nat)
    requires Overflows(lens, tag, j) && RunAll(lens) < Pow2(8 * tag.Base())
    ensures tag.Width() + tag.Base() <= tag.RowBytes()
    ensures var block, w := Block(lens, fps, tag, j), tag.Width();
      && Word(block, 0, tag.Base()) == Run(lens, 0, Times(j, tag.Slots()))
      && Word(block, tag.Base(), w) != 0
      && Word(block, tag.Base() + w, tag.Base()) == Index(lens, tag, j)
  {
    RowRoom(tag);
    RunBound(lens, Times(j, tag.Slots()));
    SpilledFits(lens, tag, j);
    MarkOfBlock(lens, tag, j);
    BlockWords(lens, fps, tag, j, 0, tag.Width());
    BlockWords(lens, fps, tag, j, tag.Width(), tag.Base());
  }

  lemma WordAfter(s: seq<byte>, at: nat, w: nat)
    requires at + w <= |s|
    ensures Word(s[at..], 0, w) == Word(s, at, w)
  {
    assert s[at..][0..w] == s[at..at + w];
  }

  lemma MarkedReads(lens: seq<nat>, fps: Option<seq<byte>>, tag: Tag, j: nat, m: nat, k: nat)
    requires j < m && Overflows(lens, tag, j) && k < tag.Slots() && RunAll(lens) < Pow2(8 * tag.Base()) <= USIZE
    ensures var at := Times(j, tag.Slots());
      BlockSpan(Block(lens, fps, tag, j), Spilled(lens, tag, m), tag, k)
        == Some((Run(lens, 0, at + k), Run(lens, 0, at + k + 1)))
  {
    hide Block, Val, Spilled, OverflowSpan;
    var block := Block(lens, fps, tag, j);
    MarkedWords(lens, fps, tag, j);
    WordAfter(block, tag.Base() + tag.Width(), tag.Base());
    OverflowReads(lens, tag, j, m, block[tag.Base() + tag.Width()..], k);
  }

  /** A flat table reads back. */
  lemma FlatReads(bytes: seq<byte>, lens: seq<nat>, fps: Option<seq<byte>>, tag: Tag, i: nat, want: Option<byte>)
    requires !tag.Blocked() && i < |lens| && RunAll(lens) < Pow2(8 * tag.layout) <= USIZE
    requires |bytes| >= PrefixSize(tag, |lens|) && bytes[HEADER..PrefixSize(tag, |lens|)] == FlatTable(lens, fps, tag)
    ensures EntryOf(bytes, [], tag, |lens|, i, want) == Stored(lens, fps, tag, i, want)
  {
    hide RunAll, Val, Low;
    FlatWord(bytes, lens, fps, tag, i);
    FlatWord(bytes, lens, fps, tag, i + 1);
    if tag.fp {
      FlatFp(bytes, lens, fps, tag, i);
    }
    RunMonotone(lens, 0, i, i + 1);
    RunBound(lens, i + 1);
  }

  lemma FlatSlice(bytes: seq<byte>, row: seq<byte>, rest: seq<byte>, at: nat, w: nat)
    requires |bytes| >= HEADER + |row + rest| && bytes[HEADER..HEADER + |row + rest|] == row + rest && at + w <= |row|
    ensures bytes[HEADER + at..HEADER + at + w] == row[at..at + w]
  {
    SliceOfSlice(bytes, HEADER, HEADER + |row + rest|, at, w);
    FrontSlice(row, rest, at, w);
  }

  lemma FlatWord(bytes: seq<byte>, lens: seq<nat>, fps: Option<seq<byte>>, tag: Tag, i: nat)
    requires !tag.Blocked() && i <= |lens| && RunAll(lens) < Pow2(8 * tag.layout)
    requires |bytes| >= PrefixSize(tag, |lens|) && bytes[HEADER..PrefixSize(tag, |lens|)] == FlatTable(lens, fps, tag)
    ensures HEADER + Times(i, tag.layout) + tag.layout <= |bytes|
    ensures Word(bytes, HEADER + Times(i, tag.layout), tag.layout) == Run(lens, 0, i)
  {
    hide Val, ToLe, Row, FpRow, Run;
    var w, row := tag.layout, Row(lens, 0, |lens| + 1, tag.layout);
    RunBound(lens, i);
    RowReads(lens, 0, |lens| + 1, w, i);
    FlatSlice(bytes, row, if tag.fp then FpRow(fps, 0, |lens|) else [], Times(i, w), w);
  }

  lemma FlatFp(bytes: seq<byte>, lens: seq<nat>, fps: Option<seq<byte>>, tag: Tag, i: nat)
    requires !tag.Blocked() && i < |lens| && tag.fp
    requires |bytes| >= PrefixSize(tag, |lens|) && bytes[HEADER..PrefixSize(tag, |lens|)] == FlatTable(lens, fps, tag)
    ensures bytes[HEADER + Times(|lens| + 1, tag.layout) + i] == FpAt(fps, i)
  {
    hide Row;
    var at := Times(|lens| + 1, tag.layout) + i;
    assert bytes[HEADER + at] == bytes[HEADER..PrefixSize(tag, |lens|)][at];
  }

  /** Slot `i` of any table, under any tag whose offsets reach the data, reads back its own span and
      fingerprint, and nothing for a fingerprint that is not its own. */
  lemma TableReadsBack(bytes: seq<byte>, lens: seq<nat>, fps: Option<seq<byte>>, tag: Tag, i: nat, want: Option<byte>)
    requires (tag.Blocked() || tag.Flat()) && i < |lens| && Reached(lens, tag)
    requires |bytes| >= PrefixSize(tag, |lens|) && bytes[HEADER..PrefixSize(tag, |lens|)] == Table(lens, fps, tag)
    ensures var spilled := if tag.Blocked() then Spilled(lens, tag, tag.BlocksFor(|lens|)) else [];
      EntryOf(bytes, spilled, tag, |lens|, i, want) == Stored(lens, fps, tag, i, want)
  {
    hide Block, Blocks, InBlock, Stored, FlatTable, Spilled, Row, FpRow, Val, Word, SpanFrom, Run, Times, Pow2, Overflows;
    WordPowers();
    if tag.Blocked() {
      SlotParts(tag, i);
      BlockWithin(tag, i, |lens|);
      BlockFound(bytes, lens, fps, tag, tag.BlockOf(i));
      BlockReads(lens, fps, tag, tag.BlockOf(i), tag.BlocksFor(|lens|), tag.PlaceOf(i), want);
    } else {
      FlatReads(bytes, lens, fps, tag, i, want);
    }
  }

  lemma BlockFound(bytes: seq<byte>, lens: seq<nat>, fps: Option<seq<byte>>, tag: Tag, j: nat)
    requires tag.Blocked() && j < tag.BlocksFor(|lens|)
    requires |bytes| >= PrefixSize(tag, |lens|) && bytes[HEADER..PrefixSize(tag, |lens|)] == Table(lens, fps, tag)
    ensures var at := HEADER + Times(j, tag.BlockBytes());
      at + tag.BlockBytes() <= |bytes| && bytes[at..at + tag.BlockBytes()] == Block(lens, fps, tag, j)
  {
    hide Block;
    var m, size := tag.BlocksFor(|lens|), tag.BlockBytes();
    BlocksHold(lens, fps, tag, j, m, size);
    SliceOfSlice(bytes, HEADER, PrefixSize(tag, |lens|), Times(j, size), size);
  }
}
