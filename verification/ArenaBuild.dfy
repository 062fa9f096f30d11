/** The string arena's layout: what the lengths call for and what it will cost, and the whole arena as bytes,
    a function of the keys alone. */
module ArenaBuild {
  import opened Lex
  import opened Bits
  import opened Wrappers
  import opened ArenaTable

  const U32_MAX := 0xFFFF_FFFF
  /** More keys than any memory holds: with fewer, every prefix fits a `usize`. */
  const KEYS_END := 0x0800_0000_0000_0000

  // ----- the layout

  /** The three layouts a length list may take: blocks of 16, blocks of 256, each with the overflow table
      its lengths call for, and the flat table. */
  function BlockTag(lens: seq<nat>, layout: nat, wide: bool, fp: bool): Tag {
    var plain := Tag(layout, wide, false, fp);
    plain.(overflow := Index(lens, plain, plain.BlocksFor(|lens|)) > 0)
  }

  function FlatTag(wide: bool, fp: bool): Tag {
    Tag(if wide then WIDE else NARROW, false, false, fp)
  }

  /** What a layout's offsets are priced at. */
  function Priced(lens: seq<nat>, tag: Tag): nat {
    if tag.Blocked() then
      var overflowing := Index(lens, tag, tag.BlocksFor(|lens|));
      Times(tag.BlocksFor(|lens|), tag.BlockBytes()) + Times(overflowing, tag.EntryBytes())
        + if overflowing > 0 then TRAILER else 0
    else Times(|lens| + 1, tag.layout) + if tag.fp then |lens| else 0
  }

  function TagFor(lens: seq<nat>, dataLen: nat, fp: bool, limit: nat): Tag {
    var wide := dataLen > limit;
    var sixteens := BlockTag(lens, BLOCK_U8, wide, fp);
    if !sixteens.overflow then sixteens
    else
      var wider := BlockTag(lens, BLOCK_U16, wide, fp);
      var best := if Priced(lens, wider) < Priced(lens, sixteens) then wider else sixteens;
      if Priced(lens, FlatTag(wide, fp)) < Priced(lens, best) then FlatTag(wide, fp) else best
  }

  lemma {:induction false} IndexIgnoresFlags(lens: seq<nat>, a: Tag, b: Tag, j: nat)
    requires a.layout == b.layout
    ensures Index(lens, a, j) == Index(lens, b, j)
  {
    if j > 0 {
      IndexIgnoresFlags(lens, a, b, j - 1);
    }
  }

  /** A tag one of these layouts has for these lengths. */
  ghost predicate Suits(lens: seq<nat>, tag: Tag) {
    && (tag.Blocked() || tag.Flat())
    && (tag.Blocked() ==> (tag.overflow <==> Index(lens, tag, tag.BlocksFor(|lens|)) > 0))
  }

  lemma BlockTagSuits(lens: seq<nat>, layout: nat, wide: bool, fp: bool)
    requires layout == BLOCK_U8 || layout == BLOCK_U16
    ensures Suits(lens, BlockTag(lens, layout, wide, fp))
  {
    var plain := Tag(layout, wide, false, fp);
    IndexIgnoresFlags(lens, plain, BlockTag(lens, layout, wide, fp), plain.BlocksFor(|lens|));
  }

  /** The tag picked suits the lengths, and its offsets reach every byte of the data. */
  lemma TagForSuits(lens: seq<nat>, fp: bool, limit: nat)
    requires limit <= U32_MAX && RunAll(lens) < USIZE
    ensures var tag := TagFor(lens, RunAll(lens), fp, limit);
      Suits(lens, tag) && tag.fp == fp && Reached(lens, tag)
  {
    BlockTagSuits(lens, BLOCK_U8, RunAll(lens) > limit, fp);
    BlockTagSuits(lens, BLOCK_U16, RunAll(lens) > limit, fp);
  }

  /** A layout is priced at exactly the bytes written for it. */
  lemma PricedIsWritten(lens: seq<nat>, fps: Option<seq<byte>>, tag: Tag)
    requires Suits(lens, tag)
    ensures Priced(lens, tag) == |Table(lens, fps, tag)| + |Tail(lens, tag)|
  {
  }

  /** Whether no layout is cheaper than `tag`. */
  ghost predicate Cheapest(lens: seq<nat>, tag: Tag, wide: bool, fp: bool) {
    && Priced(lens, tag) <= Priced(lens, BlockTag(lens, BLOCK_U8, wide, fp))
    && Priced(lens, tag) <= Priced(lens, BlockTag(lens, BLOCK_U16, wide, fp))
    && Priced(lens, tag) <= Priced(lens, FlatTag(wide, fp))
  }

  /** The fewest keys whose blocks of 16 are no dearer than a flat table. */
  function Worthwhile(wide: bool, fp: bool): nat {
    if wide then if fp then 4 else 3 else if fp then 7 else 5
  }

  /** The layout picked is the cheapest exactly where some run of 16 keys outgrows one-byte offsets, or
      there are no keys, or enough that a block of 16 costs no more than the flat table; and blocks of 16
      are left only for what costs strictly less. */
  lemma CheapestIff(lens: seq<nat>, dataLen: nat, fp: bool, limit: nat)
    ensures var (wide, tag) := (dataLen > limit, TagFor(lens, dataLen, fp, limit));
      && (tag.layout != BLOCK_U8 ==> Priced(lens, tag) < Priced(lens, BlockTag(lens, BLOCK_U8, wide, fp)))
      && (tag.Flat() ==> Priced(lens, tag) < Priced(lens, BlockTag(lens, BLOCK_U16, wide, fp)))
    ensures var wide := dataLen > limit;
      Cheapest(lens, TagFor(lens, dataLen, fp, limit), wide, fp) <==>
      (BlockTag(lens, BLOCK_U8, wide, fp).overflow || |lens| == 0 || |lens| >= Worthwhile(wide, fp))
  {
    var wide := dataLen > limit;
    if !BlockTag(lens, BLOCK_U8, wide, fp).overflow {
      SixteensPriced(lens, wide, fp);
    }
  }

  /** With nothing to overflow, what each layout costs. */
  lemma SixteensPriced(lens: seq<nat>, wide: bool, fp: bool)
    requires !BlockTag(lens, BLOCK_U8, wide, fp).overflow
    ensures var sixteens := Priced(lens, BlockTag(lens, BLOCK_U8, wide, fp));
      && sixteens <= Priced(lens, BlockTag(lens, BLOCK_U16, wide, fp))
      && (sixteens <= Priced(lens, FlatTag(wide, fp)) <==> |lens| == 0 || |lens| >= Worthwhile(wide, fp))
  {
    hide Priced, Index, Times;
    var n, one, two := |lens|, BlockTag(lens, BLOCK_U8, wide, fp), BlockTag(lens, BLOCK_U16, wide, fp);
    BlockPrice(lens, BLOCK_U8, wide, fp);
    BlockPrice(lens, BLOCK_U16, wide, fp);
    FlatPrice(lens, wide, fp);
    if wide {
      if fp {
        PricesMeet(n, 41, 778, 9, 8, 4);
      } else {
        PricesMeet(n, 25, 522, 8, 8, 3);
      }
    } else if fp {
      PricesMeet(n, 37, 774, 5, 4, 7);
    } else {
      PricesMeet(n, 21, 518, 4, 4, 5);
    }
  }

  /** Bytes of a block under each layout. */
  function BlockCost(layout: nat, wide: bool, fp: bool): nat {
    (if wide then 8 else 4) + if layout == BLOCK_U16 then 514 + (if fp then 256 else 0) else 17 + if fp then 16 else 0
  }

  lemma BlockPrice(lens: seq<nat>, layout: nat, wide: bool, fp: bool)
    requires layout == BLOCK_U8 || layout == BLOCK_U16
    ensures var (tag, n) := (BlockTag(lens, layout, wide, fp), |lens|);
      && Priced(lens, tag) >= Times(tag.BlocksFor(n), BlockCost(layout, wide, fp))
      && (!tag.overflow ==> Priced(lens, tag) == Times(tag.BlocksFor(n), BlockCost(layout, wide, fp)))
  {
    var tag := BlockTag(lens, layout, wide, fp);
    BlockTagSuits(lens, layout, wide, fp);
    RowRoom(tag);
    assert tag.BlockBytes() == BlockCost(layout, wide, fp);
    assert Times(0, tag.EntryBytes()) == 0;
  }

  lemma FlatPrice(lens: seq<nat>, wide: bool, fp: bool)
    ensures Priced(lens, FlatTag(wide, fp))
      == (if wide then 8 * |lens| + 8 else 4 * |lens| + 4) + if fp then |lens| else 0
  {
    TimesBytes(|lens| + 1, 1);
  }

  lemma PricesMeet(n: nat, small: nat, large: nat, slot: nat, base: nat, least: nat)
    requires (small, large, slot, base, least) in
      {(41, 778, 9, 8, 4), (25, 522, 8, 8, 3), (37, 774, 5, 4, 7), (21, 518, 4, 4, 5)}
    ensures Times((n + 15) / 16, small) <= Times((n + 255) / 256, large)
    ensures Times((n + 15) / 16, small) <= slot * n + base <==> n == 0 || n >= least
  {
    TimesIsProduct((n + 15) / 16, small);
    TimesIsProduct((n + 255) / 256, large);
  }

  /** One short key: the blocks of 16 picked cost 21 bytes of offsets where a flat table costs 8. */
  lemma NotCheapestForOneKey()
    ensures TagFor([3], 3, false, U32_MAX) == Tag(BLOCK_U8, false, false, false)
    ensures Priced([3], TagFor([3], 3, false, U32_MAX)) == 21 && Priced([3], FlatTag(false, false)) == 8
  {
    var tag := Tag(BLOCK_U8, false, false, false);
    RunPast([3], 15);
    RunSplit([3], 0, 1, 15);
    assert Run([3], 0, 1) == 3;
    assert Times(0, 16) == 0;
    assert !Overflows([3], tag, 0);
    assert Index([3], tag, 1) == 0;
    RowRoom(tag);
    TimesBytes(2, 1);
  }

  /** A prefix's length, where it fits a `usize`. */
  function PrefixLen(tag: Tag, n: nat): Option<nat> {
    if PrefixSize(tag, n) < USIZE then Some(PrefixSize(tag, n)) else None
  }

  lemma PrefixFits(tag: Tag, n: nat)
    requires n < KEYS_END && (tag.Blocked() || tag.Flat())
    ensures PrefixSize(tag, n) < USIZE
  {
    hide Times;
    if tag.Blocked() {
      BlockBytesBound(tag);
      ProductBound(tag.BlocksFor(n), tag.BlockBytes(), tag.Slots(), n);
    } else {
      TimesBytes(n + 1, 1);
    }
  }

  lemma BlockBytesBound(tag: Tag)
    ensures tag.BlockBytes() <= 4 * tag.Slots()
  {
    RowRoom(tag);
  }

  lemma ProductBound(blocks: nat, size: nat, slots: nat, n: nat)
    requires slots == 16 || slots == 256
    requires size <= 4 * slots && blocks == (n + slots - 1) / slots
    ensures Times(blocks, size) <= 4 * n + 4 * slots
  {
    TimesUp(blocks, size, 4 * slots);
    TimesIsProduct(blocks, 4 * slots);
  }

  lemma {:induction false} TimesUp(n: nat, a: nat, b: nat)
    requires a <= b
    ensures Times(n, a) <= Times(n, b)
  {
    if n > 0 {
      TimesUp(n - 1, a, b);
    }
  }

  /** The whole arena's length, foretold from the lengths. */
  function BlockedLen(lens: seq<nat>, dataLen: nat, fp: bool, limit: nat): Option<nat> {
    var tag := TagFor(lens, dataLen, fp, limit);
    var tail := if tag.overflow then Times(Index(lens, tag, tag.BlocksFor(|lens|)), tag.EntryBytes()) + TRAILER else 0;
    if PrefixLen(tag, |lens|).None? || PrefixSize(tag, |lens|) + dataLen + tail >= USIZE then None
    else Some(PrefixSize(tag, |lens|) + dataLen + tail)
  }

  // ----- the arena as bytes

  function LensOf(items: seq<seq<byte>>): (lens: seq<nat>)
    ensures |lens| == |items| && forall i :: 0 <= i < |items| ==> lens[i] == |items[i]|
  {
    seq(|items|, i requires 0 <= i < |items| => |items[i]|)
  }

  /** The first `k` keys end to end. */
  function Joined(items: seq<seq<byte>>, k: nat): seq<byte>
    requires k <= |items|
  {
    if k == 0 then [] else Joined(items, k - 1) + items[k - 1]
  }

  lemma {:induction false} JoinedLen(items: seq<seq<byte>>, k: nat)
    requires k <= |items|
    ensures |Joined(items, k)| == Run(LensOf(items), 0, k)
  {
    if k > 0 {
      JoinedLen(items, k - 1);
    }
  }

  lemma {:induction false} JoinedHolds(items: seq<seq<byte>>, i: nat, k: nat)
    requires i < k <= |items|
    ensures |Joined(items, i)| + |items[i]| <= |Joined(items, k)|
    ensures Joined(items, k)[|Joined(items, i)|..|Joined(items, i)| + |items[i]|] == items[i]
  {
    if i < k - 1 {
      JoinedHolds(items, i, k - 1);
    }
  }

  predicate AllShort(items: seq<seq<byte>>) {
    forall i :: 0 <= i < |items| ==> |items[i]| <= 0xFFFF_FFFF
  }

  /** What a memory of 2^63 bytes can hold. */
  ghost predicate InMemory(items: seq<seq<byte>>) {
    |items| < KEYS_END && |Joined(items, |items|)| < USIZE
  }

  /** The arena of `items` under `tag`. */
  function ArenaUnder(items: seq<seq<byte>>, fps: Option<seq<byte>>, tag: Tag): seq<byte>
    requires tag.layout < 0x20
  {
    var lens := LensOf(items);
    Head(|items|, tag) + Table(lens, fps, tag) + Joined(items, |items|) + Tail(lens, tag)
  }

  /** The tag `items` take. */
  function TagOf(items: seq<seq<byte>>, fps: Option<seq<byte>>, limit: nat): (tag: Tag)
    ensures tag.layout < 0x20
  {
    TagFor(LensOf(items), |Joined(items, |items|)|, fps.Some?, limit)
  }

  function ArenaOf(items: seq<seq<byte>>, fps: Option<seq<byte>>, limit: nat): seq<byte> {
    ArenaUnder(items, fps, TagOf(items, fps, limit))
  }

  /** The length foretold is the length built, where a `usize` holds it. */
  lemma BlockedLenIsLength(items: seq<seq<byte>>, fps: Option<seq<byte>>, limit: nat)
    requires limit <= 0xFFFF_FFFF && InMemory(items)
    ensures BlockedLen(LensOf(items), |Joined(items, |items|)|, fps.Some?, limit)
      == if |ArenaOf(items, fps, limit)| < 0x1_0000_0000_0000_0000 then Some(|ArenaOf(items, fps, limit)|) else None
  {
    hide TagFor, ArenaUnder, Joined, Index;
    JoinedLen(items, |items|);
    TagForSuits(LensOf(items), fps.Some?, limit);
    ArenaLen(items, fps, TagOf(items, fps, limit));
  }

  lemma ArenaLen(items: seq<seq<byte>>, fps: Option<seq<byte>>, tag: Tag)
    requires tag.layout < 0x20 && Suits(LensOf(items), tag)
    ensures var lens := LensOf(items);
      |ArenaUnder(items, fps, tag)| == PrefixSize(tag, |items|) + |Joined(items, |items|)|
        + if tag.overflow then Times(Index(lens, tag, tag.BlocksFor(|lens|)), tag.EntryBytes()) + TRAILER else 0
  {
    hide Head, Joined, Index, Table, Tail, PrefixSize;
    TailLen(LensOf(items), tag);
  }

  lemma TailLen(lens: seq<nat>, tag: Tag)
    requires Suits(lens, tag)
    ensures |Tail(lens, tag)|
      == if tag.overflow then Times(Index(lens, tag, tag.BlocksFor(|lens|)), tag.EntryBytes()) + TRAILER else 0
  {
  }
}
