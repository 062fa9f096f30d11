/** What a blocked or flat arena's bytes hold and where, each place and number spelled out: the format that arenas
    already written keep to. */
module ArenaFormat {
  import opened Lex
  import opened Bits
  import opened Wrappers
  import opened ArenaTable
  import opened ArenaBuild
  import opened ArenaOpen

  // ----- the format

  /** The `w` bytes of `s` at `at` as a number, low byte first. */
  ghost function Number(s: seq<byte>, at: nat, w: nat): nat
    requires at + w <= |s|
    decreases w
  {
    if w == 0 then 0 else s[at] as int + 256 * Number(s, at + 1, w - 1)
  }

  ghost predicate NumberAt(s: seq<byte>, at: int, w: nat, v: int) {
    0 <= at && at + w <= |s| && Number(s, at, w) == v
  }

  ghost predicate BytesAt(s: seq<byte>, at: int, t: seq<byte>) {
    0 <= at && at + |t| <= |s| && s[at..at + |t|] == t
  }

  /** The bytes of the keys before slot `i`; a slot past the last holds none. */
  ghost function Before(items: seq<seq<byte>>, i: int): nat {
    if i <= 0 then 0 else Before(items, i - 1) + if i <= |items| then |items[i - 1]| else 0
  }

  /** The bytes of the keys of a block of `slots`. */
  ghost function BlockHolds(items: seq<seq<byte>>, slots: nat, j: nat): int {
    Before(items, j * slots + slots) - Before(items, j * slots)
  }

  /** How many of the first `j` blocks of `slots` hold more than `most` bytes of keys. */
  ghost function Outgrown(items: seq<seq<byte>>, slots: nat, most: nat, j: nat): nat {
    if j == 0 then 0
    else Outgrown(items, slots, most, j - 1) + if BlockHolds(items, slots, j - 1) > most then 1 else 0
  }

  /** `[n + 1 u64][tag u8]`: in the tag's low five bits the layout, then a bit for eight-byte bases, one for blocks
      that outgrow their offsets, and one for fingerprints. */
  ghost predicate HeadLaid(a: seq<byte>, items: seq<seq<byte>>, fps: Option<seq<byte>>, limit: nat) {
    && NumberAt(a, 0, 8, |items| + 1) && |a| > 8
    && a[8] % 0x20 in {0x11, 0x12, 4, 8}
    && (a[8] >= 0x80 <==> fps.Some?)
    && (a[8] % 0x20 in {4, 8} ==> a[8] % 0x80 < 0x20)
    && (a[8] % 0x20 == 8 || a[8] / 0x20 % 2 == 1 <==> Before(items, |items|) > limit)
    && (a[8] % 0x20 == 0x11 && a[8] / 0x40 % 2 == 0 <==> Outgrown(items, 16, 255, (|items| + 15) / 16) == 0)
  }

  /** A flat table: `n + 1` offsets of four bytes or eight, and a byte a slot of fingerprints behind them. */
  ghost predicate FlatLaid(a: seq<byte>, items: seq<seq<byte>>, fps: Option<seq<byte>>, w: nat, i: nat)
    requires i < |items|
  {
    var row := 9 + (|items| + 1) * w;
    && NumberAt(a, 9 + i * w, w, Before(items, i))
    && NumberAt(a, 9 + (i + 1) * w, w, Before(items, i + 1))
    && (fps.Some? ==> i < |fps.value| && BytesAt(a, row + i, [fps.value[i]]))
    && BytesAt(a, row + (if fps.Some? then |items| else 0) + Before(items, i), items[i])
  }

  /** The bytes of a block: its base, its offsets, and a byte a slot of fingerprints. */
  ghost function BlockSize(slots: nat, base: nat, fp: bool): nat {
    base + (if slots == 16 then 17 else 514) + if fp then slots else 0
  }

  /** Where the data starts, behind all the blocks. */
  ghost function DataAt(n: nat, slots: nat, size: nat): int
    requires slots > 0
  {
    9 + (n + slots - 1) / slots * size
  }

  /** A block that holds its offsets: each that of its slot from the block's first. */
  ghost predicate PlainLaid(a: seq<byte>, items: seq<seq<byte>>, row: int, slots: nat, j: nat, k: nat) {
    var w, first := if slots == 16 then 1 else 2, j * slots;
    && NumberAt(a, row + k * w, w, Before(items, first + k) - Before(items, first))
    && NumberAt(a, row + (k + 1) * w, w, Before(items, first + k + 1) - Before(items, first))
  }

  /** A block that does not: all ones, how many before it do not, and zeros; and its offsets, each as wide as a base,
      in that place behind the data. */
  ghost predicate MarkedLaid(a: seq<byte>, items: seq<seq<byte>>, row: int, slots: nat, base: nat, dataEnd: int,
                             j: nat, k: nat)
  {
    var w, most, first := if slots == 16 then 1 else 2, if slots == 16 then 255 else 65535, j * slots;
    var place := Outgrown(items, slots, most, j);
    var entry := dataEnd + place * ((slots + 1) * base);
    && NumberAt(a, row, w, most) && NumberAt(a, row + w, base, place)
    && (forall x :: row + w + base <= x < row + (slots + 1) * w ==> 0 <= x < |a| && a[x] == 0)
    && NumberAt(a, entry + k * base, base, Before(items, first + k) - Before(items, first))
    && NumberAt(a, entry + (k + 1) * base, base, Before(items, first + k + 1) - Before(items, first))
  }

  /** Slot `k` of block `j`. */
  ghost predicate BlockLaid(a: seq<byte>, items: seq<seq<byte>>, fps: Option<seq<byte>>, slots: nat, base: nat, j: nat,
                            k: nat)
    requires slots > 0 && j * slots + k < |items|
  {
    var size, i := BlockSize(slots, base, fps.Some?), j * slots + k;
    var at, data := 9 + j * size, DataAt(|items|, slots, size);
    var row := at + base;
    && NumberAt(a, at, base, Before(items, j * slots))
    && (if BlockHolds(items, slots, j) <= (if slots == 16 then 255 else 65535)
        then PlainLaid(a, items, row, slots, j, k)
        else MarkedLaid(a, items, row, slots, base, data + Before(items, |items|), j, k))
    && (fps.Some? ==> i < |fps.value| && BytesAt(a, at + size - slots + k, [fps.value[i]]))
    && BytesAt(a, data + Before(items, i), items[i])
  }

  /** What stands behind the data: nothing, or the offsets of the blocks that outgrow theirs and how many bytes those
      take. */
  ghost predicate EndLaid(a: seq<byte>, items: seq<seq<byte>>, fps: Option<seq<byte>>)
    requires |a| > 8
  {
    var n, layout, total := |items|, a[8] % 0x20, Before(items, |items|);
    if layout == 4 || layout == 8 then
      a[8] / 0x40 % 2 == 0 && |a| == 9 + (n + 1) * layout + (if fps.Some? then n else 0) + total
    else
      var base, slots := if a[8] / 0x20 % 2 == 1 then 8 else 4, if layout == 0x11 then 16 else 256;
      var outgrown := Outgrown(items, slots, if slots == 16 then 255 else 65535, (n + slots - 1) / slots);
      var end := DataAt(n, slots, BlockSize(slots, base, fps.Some?)) + total;
      && (a[8] / 0x40 % 2 == 1 <==> outgrown > 0)
      && (outgrown == 0 ==> |a| == end)
      && (outgrown > 0 ==>
            && |a| == end + outgrown * ((slots + 1) * base) + 8
            && NumberAt(a, |a| - 8, 8, outgrown * ((slots + 1) * base)))
  }

  /** What stands for slot `i`, by the tag. */
  ghost predicate SlotLaid(a: seq<byte>, items: seq<seq<byte>>, fps: Option<seq<byte>>, i: nat)
    requires |a| > 8 && i < |items|
  {
    var layout, base := a[8] % 0x20, if a[8] / 0x20 % 2 == 1 then 8 else 4;
    if layout == 0x11 then BlockLaid(a, items, fps, 16, base, i / 16, i % 16)
    else if layout == 0x12 then BlockLaid(a, items, fps, 256, base, i / 256, i % 256)
    else FlatLaid(a, items, fps, layout, i)
  }

  // ----- what is built keeps to it

  lemma {:induction false} NumberIsWord(s: seq<byte>, at: nat, w: nat)
    requires at + w <= |s|
    ensures Number(s, at, w) == Word(s, at, w)
    decreases w
  {
    if w > 0 {
      NumberIsWord(s, at + 1, w - 1);
      assert s[at..at + w][1..] == s[at + 1..at + w];
    }
  }

  lemma {:induction false} BeforeIsRun(items: seq<seq<byte>>, i: nat)
    ensures Before(items, i) == Run(LensOf(items), 0, i)
  {
    if i > 0 {
      BeforeIsRun(items, i - 1);
    }
  }

  lemma BetweenIsRun(items: seq<seq<byte>>, at: nat, k: nat)
    ensures Before(items, at + k) - Before(items, at) == Run(LensOf(items), at, k)
  {
    BeforeIsRun(items, at + k);
    BeforeIsRun(items, at);
    RunSplit(LensOf(items), 0, at, k);
  }

  /** A tag's sizes as numbers. */
  lemma TagSizes(tag: Tag)
    requires tag.Blocked()
    ensures tag.Slots() == (if tag.layout == 0x11 then 16 else 256) && tag.layout in {0x11, 0x12}
    ensures tag.Width() == (if tag.layout == 0x11 then 1 else 2)
    ensures tag.Most() == (if tag.layout == 0x11 then 255 else 65535)
    ensures tag.Base() == if tag.wide then 8 else 4
    ensures tag.BlockBytes() == BlockSize(tag.Slots(), tag.Base(), tag.fp)
    ensures tag.EntryBytes() == (tag.Slots() + 1) * tag.Base()
  {
    RowRoom(tag);
    TimesIsProduct(tag.Slots() + 1, tag.Base());
  }

  lemma OutgrowsIff(items: seq<seq<byte>>, tag: Tag, j: nat)
    ensures BlockHolds(items, tag.Slots(), j) > tag.Most() <==> Overflows(LensOf(items), tag, j)
  {
    hide Times, Run, Before;
    TimesIsProduct(j, tag.Slots());
    BetweenIsRun(items, Times(j, tag.Slots()), tag.Slots());
  }

  lemma {:induction false} OutgrownIsIndex(items: seq<seq<byte>>, tag: Tag, j: nat)
    ensures Outgrown(items, tag.Slots(), tag.Most(), j) == Index(LensOf(items), tag, j)
    ensures BlockHolds(items, tag.Slots(), j) > tag.Most() <==> Overflows(LensOf(items), tag, j)
  {
    hide BlockHolds, Overflows, Tag.Slots, Tag.Most;
    OutgrowsIff(items, tag, j);
    if j > 0 {
      OutgrownIsIndex(items, tag, j - 1);
    }
  }

  lemma ReachedIs(lens: seq<nat>, tag: Tag)
    requires Reached(lens, tag) && (tag.Blocked() || tag.Flat())
    ensures RunAll(lens) < Pow2(8 * if tag.Blocked() then tag.Base() else tag.layout) <= USIZE
  {
    WordPowers();
  }

  /** A word inside a piece of the bytes. */
  lemma WordOfPiece(a: seq<byte>, at: nat, piece: seq<byte>, x: nat, w: nat)
    requires at + |piece| <= |a| && a[at..at + |piece|] == piece && x + w <= |piece|
    ensures NumberAt(a, at + x, w, Word(piece, x, w))
  {
    SliceOfSlice(a, at, at + |piece|, x, w);
    NumberIsWord(a, at + x, w);
  }

  lemma TagForLayout(lens: seq<nat>, dataLen: nat, fp: bool, limit: nat)
    ensures var (tag, wide) := (TagFor(lens, dataLen, fp, limit), dataLen > limit);
      && (tag.layout == 8 || tag.wide <==> wide) && tag.fp == fp
      && (tag.layout == 0x11 && !tag.overflow <==> Index(lens, Tag(0x11, wide, false, fp), (|lens| + 15) / 16) == 0)
  {
    hide Priced, Index;
  }

  /** The layout the lengths are given: blocks of 16 as they are exactly where none outgrows its offsets. */
  lemma TagForSays(items: seq<seq<byte>>, fps: Option<seq<byte>>, limit: nat)
    ensures var tag := TagOf(items, fps, limit);
      && (tag.layout == 8 || tag.wide <==> Before(items, |items|) > limit) && tag.fp == fps.Some?
      && (tag.layout == 0x11 && !tag.overflow <==> Outgrown(items, 16, 255, (|items| + 15) / 16) == 0)
  {
    hide Before, Outgrown, Index, TagFor;
    var lens, dataLen := LensOf(items), |Joined(items, |items|)|;
    TagForLayout(lens, dataLen, fps.Some?, limit);
    BeforeIsRun(items, |items|);
    JoinedLen(items, |items|);
    OutgrownIsIndex(items, Tag(0x11, dataLen > limit, false, fps.Some?), (|items| + 15) / 16);
  }

  lemma HeadIsLaid(a: seq<byte>, items: seq<seq<byte>>, fps: Option<seq<byte>>, limit: nat, tag: Tag)
    requires (tag.Blocked() || tag.Flat()) && tag == TagOf(items, fps, limit) && |items| + 1 < USIZE
    requires |a| >= HEADER && a[..HEADER] == Head(|items|, tag)
    ensures HeadLaid(a, items, fps, limit) && Split(a[8]) == tag
  {
    hide Word, Number, ToLe, TagOf, Before, Outgrown;
    HeadReads(a, |items|, tag);
    NumberIsWord(a, 0, 8);
    TagForSays(items, fps, limit);
  }

  lemma DataIsLaid(a: Arena, items: seq<seq<byte>>, fps: Option<seq<byte>>, spilled: seq<byte>, rest: seq<byte>, i: nat)
    requires a.tag.layout < 0x20 && Pieces(a, items, fps, spilled, rest) && i < |items|
    ensures BytesAt(a.bytes, a.dataStart + Before(items, i), items[i])
    ensures a.dataEnd == a.dataStart + Before(items, |items|)
  {
    hide Head, Table, Joined, PrefixSize, Run, Before;
    BeforeIsRun(items, i);
    BeforeIsRun(items, |items|);
    JoinedLen(items, |items|);
    KeyInData(items, i);
    var lo, hi := Run(LensOf(items), 0, i), Run(LensOf(items), 0, i + 1);
    RunSplit(LensOf(items), 0, i, 1);
    assert hi == lo + |items[i]|;
    DataSlice(a.bytes, a.dataStart, a.dataEnd, lo, hi);
  }

  lemma FlatOffset(a: Arena, items: seq<seq<byte>>, fps: Option<seq<byte>>, rest: seq<byte>, i: nat)
    requires a.tag.Flat() && Reached(LensOf(items), a.tag) && i <= |items|
    requires Pieces(a, items, fps, [], rest)
    ensures NumberAt(a.bytes, 9 + i * a.tag.layout, a.tag.layout, Before(items, i))
  {
    hide Head, Joined, Run, Before, Row, Number, Word, Times, RunAll, Reached, Pow2;
    var w := a.tag.layout;
    ReachedIs(LensOf(items), a.tag);
    FlatWord(a.bytes, LensOf(items), fps, a.tag, i);
    NumberIsWord(a.bytes, HEADER + Times(i, w), w);
    BeforeIsRun(items, i);
    TimesIsProduct(i, w);
  }

  lemma FlatIsLaid(a: Arena, items: seq<seq<byte>>, fps: Option<seq<byte>>, rest: seq<byte>, i: nat)
    requires a.tag.Flat() && Reached(LensOf(items), a.tag) && i < |items| && a.tag.fp == fps.Some?
    requires Pieces(a, items, fps, [], rest) && (fps.Some? ==> |fps.value| == |items|)
    ensures FlatLaid(a.bytes, items, fps, a.tag.layout, i)
  {
    hide Head, Joined, Run, Before, Row, NumberAt, Word, Times, Reached, LensOf, FlatTable;
    FlatOffset(a, items, fps, rest, i);
    FlatOffset(a, items, fps, rest, i + 1);
    DataIsLaid(a, items, fps, [], rest, i);
    TimesIsProduct(|items| + 1, a.tag.layout);
    if a.tag.fp {
      FlatFp(a.bytes, LensOf(items), fps, a.tag, i);
    }
  }

  /** One offset of a block that holds its offsets. */
  lemma PlainOffset(a: seq<byte>, items: seq<seq<byte>>, fps: Option<seq<byte>>, tag: Tag, at: nat, j: nat, k: nat)
    requires Reached(LensOf(items), tag) && tag.Blocked() && k <= tag.Slots() && !Overflows(LensOf(items), tag, j)
    requires at + tag.BlockBytes() <= |a| && a[at..at + tag.BlockBytes()] == Block(LensOf(items), fps, tag, j)
    ensures var first := Times(j, tag.Slots());
      && NumberAt(a, at, tag.Base(), Before(items, first))
      && NumberAt(a, at + tag.Base() + Times(k, tag.Width()), tag.Width(),
                  Before(items, first + k) - Before(items, first))
  {
    hide Block, Run, RunAll, Before, NumberAt, Word, Overflows, Times, Reached, Pow2;
    ReachedIs(LensOf(items), tag);
    var first, block := Times(j, tag.Slots()), Block(LensOf(items), fps, tag, j);
    PlainWord(LensOf(items), fps, tag, j, k);
    BeforeIsRun(items, first);
    BetweenIsRun(items, first, k);
    WordOfPiece(a, at, block, 0, tag.Base());
    WordOfPiece(a, at, block, tag.Base() + Times(k, tag.Width()), tag.Width());
  }

  lemma PlainIsLaid(a: seq<byte>, items: seq<seq<byte>>, fps: Option<seq<byte>>, tag: Tag, at: nat, j: nat, k: nat)
    requires Reached(LensOf(items), tag) && tag.Blocked() && k < tag.Slots() && !Overflows(LensOf(items), tag, j)
    requires at + tag.BlockBytes() <= |a| && a[at..at + tag.BlockBytes()] == Block(LensOf(items), fps, tag, j)
    ensures NumberAt(a, at, tag.Base(), Before(items, j * tag.Slots()))
    ensures PlainLaid(a, items, at + tag.Base(), tag.Slots(), j, k)
  {
    hide Block, Before, NumberAt, Overflows, Times, Reached, Tag.BlockBytes;
    PlainOffset(a, items, fps, tag, at, j, k);
    PlainOffset(a, items, fps, tag, at, j, k + 1);
    TimesIsProduct(j, tag.Slots());
    TimesIsProduct(k, tag.Width());
    TimesIsProduct(k + 1, tag.Width());
  }

  /** The entry of a block that does not, behind the data. */
  lemma EntryPlace(a: Arena, items: seq<seq<byte>>, fps: Option<seq<byte>>, rest: seq<byte>, j: nat)
    requires a.tag.Blocked() && Overflows(LensOf(items), a.tag, j) && j < a.tag.BlocksFor(|items|)
    requires Pieces(a, items, fps, SpilledOf(items, a.tag), rest)
    ensures var at := a.dataEnd + Times(Index(LensOf(items), a.tag, j), a.tag.EntryBytes());
      && at + a.tag.EntryBytes() <= |a.bytes|
      && a.bytes[at..at + a.tag.EntryBytes()]
           == Row(LensOf(items), Times(j, a.tag.Slots()), a.tag.Slots() + 1, a.tag.Base())
  {
    hide Run, Overflows, Times, Row, Head, Table, Joined, PrefixSize, Spilled, Index, Tag.EntryBytes;
    var at := Times(Index(LensOf(items), a.tag, j), a.tag.EntryBytes());
    SpilledHolds(LensOf(items), a.tag, j, a.tag.BlocksFor(|items|));
    SliceOfSlice(a.bytes, a.dataEnd, a.overflowEnd, at, a.tag.EntryBytes());
  }

  /** One offset of it. */
  lemma MarkedOffset(a: Arena, items: seq<seq<byte>>, fps: Option<seq<byte>>, rest: seq<byte>, j: nat, k: nat)
    requires a.tag.Blocked() && Reached(LensOf(items), a.tag) && k <= a.tag.Slots()
    requires Overflows(LensOf(items), a.tag, j) && j < a.tag.BlocksFor(|items|)
    requires Pieces(a, items, fps, SpilledOf(items, a.tag), rest)
    ensures var (first, place) := (Times(j, a.tag.Slots()), Index(LensOf(items), a.tag, j));
      NumberAt(a.bytes, a.dataEnd + Times(place, a.tag.EntryBytes()) + Times(k, a.tag.Base()), a.tag.Base(),
               Before(items, first + k) - Before(items, first))
  {
    hide Run, Before, NumberAt, Word, Overflows, Times, Row, Pieces, SpilledOf, Index, Tag.EntryBytes, Tag.Slots,
      Tag.BlocksFor, RunAll, Reached, Pow2;
    ReachedIs(LensOf(items), a.tag);
    var tag, lens, first := a.tag, LensOf(items), Times(j, a.tag.Slots());
    EntryPlace(a, items, fps, rest, j);
    EntryWord(lens, tag, first, k);
    BetweenIsRun(items, first, k);
    WordOfPiece(a.bytes, a.dataEnd + Times(Index(lens, tag, j), tag.EntryBytes()),
                Row(lens, first, tag.Slots() + 1, tag.Base()), Times(k, tag.Base()), tag.Base());
  }

  /** Its mark, and the place of that entry. */
  lemma MarkIsLaid(a: seq<byte>, items: seq<seq<byte>>, fps: Option<seq<byte>>, tag: Tag, at: nat, j: nat)
    requires Reached(LensOf(items), tag) && tag.Blocked() && Overflows(LensOf(items), tag, j)
    requires at + tag.BlockBytes() <= |a| && a[at..at + tag.BlockBytes()] == Block(LensOf(items), fps, tag, j)
    ensures NumberAt(a, at, tag.Base(), Before(items, Times(j, tag.Slots())))
    ensures NumberAt(a, at + tag.Base(), tag.Width(), tag.Most())
    ensures NumberAt(a, at + tag.Base() + tag.Width(), tag.Base(), Index(LensOf(items), tag, j))
  {
    hide Block, Run, RunAll, Before, NumberAt, Word, Overflows, Times, Reached, Pow2;
    ReachedIs(LensOf(items), tag);
    var block := Block(LensOf(items), fps, tag, j);
    RunBound(LensOf(items), Times(j, tag.Slots()));
    MarkedWords(LensOf(items), fps, tag, j);
    AllOnes(LensOf(items), fps, tag, j);
    BeforeIsRun(items, Times(j, tag.Slots()));
    WordOfPiece(a, at, block, 0, tag.Base());
    WordOfPiece(a, at, block, tag.Base(), tag.Width());
    WordOfPiece(a, at, block, tag.Base() + tag.Width(), tag.Base());
  }

  lemma MarkZeros(a: seq<byte>, lens: seq<nat>, fps: Option<seq<byte>>, tag: Tag, at: nat, j: nat)
    requires tag.Blocked() && Overflows(lens, tag, j)
    requires at + tag.BlockBytes() <= |a| && a[at..at + tag.BlockBytes()] == Block(lens, fps, tag, j)
    ensures forall x ::
      at + tag.Base() + tag.Width() + tag.Base() <= x < at + tag.Base() + (tag.Slots() + 1) * tag.Width() ==>
        0 <= x < |a| && a[x] == 0
  {
    hide ToLe, Run, Times, Index, Overflows;
    RowRoom(tag);
    var block, row := Block(lens, fps, tag, j), OffsetRow(lens, tag, j);
    var from, end := at + tag.Base() + tag.Width() + tag.Base(), at + tag.Base() + tag.RowBytes();
    forall x: int | from <= x < end
      ensures 0 <= x < |a| && a[x] == 0
    {
      assert a[x] == a[at..at + tag.BlockBytes()][x - at] == block[x - at];
      assert block[x - at] == row[x - at - tag.Base()] == 0;
    }
  }

  lemma AllOnes(lens: seq<nat>, fps: Option<seq<byte>>, tag: Tag, j: nat)
    requires tag.Blocked() && Overflows(lens, tag, j) && Run(lens, 0, Times(j, tag.Slots())) < Pow2(8 * tag.Base())
    ensures tag.Base() + tag.Width() <= tag.BlockBytes()
    ensures Word(Block(lens, fps, tag, j), tag.Base(), tag.Width()) == tag.Most()
  {
    RowRoom(tag);
    BlockWords(lens, fps, tag, j, 0, tag.Width());
    var mark := OffsetRow(lens, tag, j)[0..tag.Width()];
    assert mark == if tag.Width() == 1 then [0xFF] else [0xFF, 0xFF];
    assert Val([0xFF]) == 0xFF && Val([0xFF, 0xFF]) == 0xFFFF by {
      assert [0xFF, 0xFF][1..] == [0xFF];
    }
  }

  lemma MarkedIsLaid(a: Arena, items: seq<seq<byte>>, fps: Option<seq<byte>>, rest: seq<byte>, at: nat, j: nat, k: nat)
    requires a.tag.Blocked() && Reached(LensOf(items), a.tag) && k < a.tag.Slots()
    requires Overflows(LensOf(items), a.tag, j) && j < a.tag.BlocksFor(|items|)
    requires Pieces(a, items, fps, SpilledOf(items, a.tag), rest)
    requires at + a.tag.BlockBytes() <= |a.bytes|
    requires a.bytes[at..at + a.tag.BlockBytes()] == Block(LensOf(items), fps, a.tag, j)
    ensures NumberAt(a.bytes, at, a.tag.Base(), Before(items, j * a.tag.Slots()))
    ensures MarkedLaid(a.bytes, items, at + a.tag.Base(), a.tag.Slots(), a.tag.Base(), a.dataEnd, j, k)
  {
    hide Block, Before, NumberAt, Overflows, Times, Reached, Pieces, SpilledOf, Tag.BlockBytes, Tag.EntryBytes,
      Outgrown, Index, Tag.BlocksFor;
    TagSizes(a.tag);
    OutgrownIsIndex(items, a.tag, j);
    MarkIsLaid(a.bytes, items, fps, a.tag, at, j);
    MarkZeros(a.bytes, LensOf(items), fps, a.tag, at, j);
    MarkedOffset(a, items, fps, rest, j, k);
    MarkedOffset(a, items, fps, rest, j, k + 1);
    TimesIsProduct(j, a.tag.Slots());
    TimesIsProduct(k, a.tag.Base());
    TimesIsProduct(k + 1, a.tag.Base());
    TimesIsProduct(Index(LensOf(items), a.tag, j), a.tag.EntryBytes());
  }

  /** Where a block is, and where the data starts behind the last. */
  lemma BlockPlace(a: Arena, items: seq<seq<byte>>, fps: Option<seq<byte>>, rest: seq<byte>, j: nat)
    requires a.tag.Blocked() && a.tag.fp == fps.Some? && j < a.tag.BlocksFor(|items|)
    requires Pieces(a, items, fps, SpilledOf(items, a.tag), rest)
    ensures var size, at := BlockSize(a.tag.Slots(), a.tag.Base(), fps.Some?), HEADER + Times(j, a.tag.BlockBytes());
      && size == a.tag.BlockBytes() && at == 9 + j * size && at + size <= |a.bytes|
      && a.bytes[at..at + size] == Block(LensOf(items), fps, a.tag, j)
      && a.dataStart == DataAt(|items|, a.tag.Slots(), size)
  {
    hide Block, Head, Joined, SpilledOf, Times, BlockSize, Tag.BlockBytes;
    TagSizes(a.tag);
    TimesIsProduct(j, a.tag.BlockBytes());
    TimesIsProduct(a.tag.BlocksFor(|items|), a.tag.BlockBytes());
    BlockFound(a.bytes, LensOf(items), fps, a.tag, j);
  }

  lemma FpIsLaid(bytes: seq<byte>, lens: seq<nat>, fps: Option<seq<byte>>, tag: Tag, at: nat, j: nat, k: nat)
    requires tag.Blocked() && tag.fp && k < tag.Slots() && at + tag.BlockBytes() <= |bytes|
    requires bytes[at..at + tag.BlockBytes()] == Block(lens, fps, tag, j)
    ensures BytesAt(bytes, at + tag.BlockBytes() - tag.Slots() + k, [FpAt(fps, Times(j, tag.Slots()) + k)])
  {
    hide Block, Times, FpAt;
    BlockFp(lens, fps, tag, j, k);
    assert bytes[at + (tag.BlockBytes() - tag.Slots() + k)]
      == bytes[at..at + tag.BlockBytes()][tag.BlockBytes() - tag.Slots() + k];
  }

  lemma OffsetsAreLaid(a: Arena, items: seq<seq<byte>>, fps: Option<seq<byte>>, rest: seq<byte>, j: nat, k: nat)
    requires a.tag.Blocked() && Reached(LensOf(items), a.tag) && a.tag.fp == fps.Some?
    requires j < a.tag.BlocksFor(|items|) && k < a.tag.Slots()
    requires Pieces(a, items, fps, SpilledOf(items, a.tag), rest)
    ensures var at: int := 9 + j * BlockSize(a.tag.Slots(), a.tag.Base(), fps.Some?);
      && NumberAt(a.bytes, at, a.tag.Base(), Before(items, j * a.tag.Slots()))
      && if BlockHolds(items, a.tag.Slots(), j) <= (if a.tag.Slots() == 16 then 255 else 65535)
         then PlainLaid(a.bytes, items, at + a.tag.Base(), a.tag.Slots(), j, k)
         else MarkedLaid(a.bytes, items, at + a.tag.Base(), a.tag.Slots(), a.tag.Base(), a.dataEnd, j, k)
  {
    hide Block, Before, NumberAt, Overflows, Times, Reached, PlainLaid, MarkedLaid, Outgrown, Index, SpilledOf,
      BlockHolds, Pieces, BlockSize, Tag.BlockBytes, Tag.Slots, Tag.Base, Tag.Most, Tag.BlocksFor;
    BlockPlace(a, items, fps, rest, j);
    TagSizes(a.tag);
    OutgrownIsIndex(items, a.tag, j);
    var at := HEADER + Times(j, a.tag.BlockBytes());
    if Overflows(LensOf(items), a.tag, j) {
      MarkedIsLaid(a, items, fps, rest, at, j, k);
    } else {
      PlainIsLaid(a.bytes, items, fps, a.tag, at, j, k);
    }
  }

  lemma BlockIsLaid(a: Arena, items: seq<seq<byte>>, fps: Option<seq<byte>>, rest: seq<byte>, j: nat, k: nat)
    requires a.tag.Blocked() && Reached(LensOf(items), a.tag) && k < a.tag.Slots() && a.tag.fp == fps.Some?
    requires j < a.tag.BlocksFor(|items|) && j * a.tag.Slots() + k < |items|
    requires Pieces(a, items, fps, SpilledOf(items, a.tag), rest) && (fps.Some? ==> |fps.value| == |items|)
    ensures BlockLaid(a.bytes, items, fps, a.tag.Slots(), a.tag.Base(), j, k)
  {
    hide Block, Before, NumberAt, Times, Reached, PlainLaid, MarkedLaid, SpilledOf, BlockHolds, Tag.BlockBytes, Pieces,
      BlockSize, DataAt, BytesAt;
    OffsetsAreLaid(a, items, fps, rest, j, k);
    BlockPlace(a, items, fps, rest, j);
    DataIsLaid(a, items, fps, SpilledOf(items, a.tag), rest, j * a.tag.Slots() + k);
    if a.tag.fp {
      TimesIsProduct(j, a.tag.Slots());
      FpIsLaid(a.bytes, LensOf(items), fps, a.tag, HEADER + Times(j, a.tag.BlockBytes()), j, k);
    }
  }

  /** The whole's length is that of its parts. */
  lemma WholeLength(a: Arena, items: seq<seq<byte>>, fps: Option<seq<byte>>, rest: seq<byte>)
    requires a.tag.layout < 0x20 && Pieces(a, items, fps, SpilledOf(items, a.tag), rest)
    ensures |a.bytes| == PrefixSize(a.tag, |items|) + Before(items, |items|) + |SpilledOf(items, a.tag)| + |rest|
    ensures a.bytes[|a.bytes| - |rest|..] == rest
  {
    hide Before, Head, Table, Joined, SpilledOf, PrefixSize;
    BeforeIsRun(items, |items|);
    JoinedLen(items, |items|);
  }

  lemma FlatEnds(a: Arena, items: seq<seq<byte>>, fps: Option<seq<byte>>)
    requires a.tag.Flat() && a.tag.fp == fps.Some? && |a.bytes| > 8 && Split(a.bytes[8]) == a.tag
    requires Pieces(a, items, fps, SpilledOf(items, a.tag), [])
    ensures EndLaid(a.bytes, items, fps)
  {
    hide Before, Pieces, Times;
    WholeLength(a, items, fps, []);
    NothingSpilledFlat(items, a.tag);
    TimesIsProduct(|items| + 1, a.tag.layout);
  }

  lemma BlocksEnd(a: Arena, items: seq<seq<byte>>, fps: Option<seq<byte>>, rest: seq<byte>)
    requires a.tag.Blocked() && Suits(LensOf(items), a.tag) && a.tag.fp == fps.Some? && InMemory(items)
    requires Pieces(a, items, fps, SpilledOf(items, a.tag), rest) && |a.bytes| > 8 && Split(a.bytes[8]) == a.tag
    requires rest == if a.tag.overflow then ToLe(|SpilledOf(items, a.tag)|, TRAILER) else []
    ensures EndLaid(a.bytes, items, fps)
  {
    hide Before, Pieces, Times, Outgrown, Index, ToLe, NumberAt, Tag.BlockBytes, Tag.EntryBytes, BlockSize, Spilled,
      LensOf, Joined;
    var tag, blocks := a.tag, a.tag.BlocksFor(|items|);
    WholeLength(a, items, fps, rest);
    TagSizes(tag);
    OutgrownIsIndex(items, tag, blocks);
    TimesIsProduct(blocks, tag.BlockBytes());
    TimesIsProduct(Index(LensOf(items), tag, blocks), tag.EntryBytes());
    if tag.overflow {
      TrailerReads(a.bytes, items, tag, rest);
    }
  }

  lemma TrailerReads(bytes: seq<byte>, items: seq<seq<byte>>, tag: Tag, rest: seq<byte>)
    requires InMemory(items) && rest == ToLe(|SpilledOf(items, tag)|, 8)
    requires |bytes| >= 8 && bytes[|bytes| - 8..] == rest
    ensures NumberAt(bytes, |bytes| - 8, 8, |SpilledOf(items, tag)|)
  {
    hide ToLe, SpilledOf, Word, Number;
    SpilledShape(items, tag);
    WordPowers();
    var at := |bytes| - 8;
    assert bytes[at..at + 8] == rest;
    WordReadsBack(bytes, at, 8, |SpilledOf(items, tag)|);
    NumberIsWord(bytes, at, 8);
  }

  /** Every arena built keeps to the format, whatever its keys call for. */
  lemma ArenaIsLaid(items: seq<seq<byte>>, fps: Option<seq<byte>>, limit: nat, i: nat)
    requires limit <= 0xFFFF_FFFF && InMemory(items) && (fps.Some? ==> |fps.value| == |items|)
    ensures var a := ArenaOf(items, fps, limit);
      && HeadLaid(a, items, fps, limit) && EndLaid(a, items, fps)
      && (i < |items| ==> SlotLaid(a, items, fps, i))
  {
    hide Head, Table, Joined, SpilledOf, PrefixSize, Reached, Suits, ArenaUnder, TagFor, Tail, HeadLaid, EndLaid,
      SlotLaid;
    var tag, lens := TagOf(items, fps, limit), LensOf(items);
    JoinedLen(items, |items|);
    TagForSuits(lens, fps.Some?, limit);
    SuitsTable(lens, tag);
    var a, spilled := Opened(items, fps, tag), SpilledOf(items, tag);
    var rest := if tag.overflow then ToLe(|spilled|, TRAILER) else [];
    OpenedPieces(items, fps, tag, spilled, rest);
    HeadIsLaid(a.bytes, items, fps, limit, tag);
    if tag.Blocked() {
      BlocksEnd(a, items, fps, rest);
    } else {
      FlatEnds(a, items, fps);
    }
    if i < |items| {
      SlotIsLaid(a, items, fps, rest, i);
    }
  }

  lemma SlotIsLaid(a: Arena, items: seq<seq<byte>>, fps: Option<seq<byte>>, rest: seq<byte>, i: nat)
    requires (a.tag.Blocked() || a.tag.Flat()) && Reached(LensOf(items), a.tag) && a.tag.fp == fps.Some?
    requires Pieces(a, items, fps, SpilledOf(items, a.tag), rest) && (fps.Some? ==> |fps.value| == |items|)
    requires |a.bytes| > 8 && Split(a.bytes[8]) == a.tag && i < |items|
    ensures SlotLaid(a.bytes, items, fps, i)
  {
    hide Pieces, Reached, BlockLaid, FlatLaid, SpilledOf, Times;
    var tag := a.tag;
    if tag.Blocked() {
      SlotParts(tag, i);
      TimesIsProduct(tag.BlockOf(i), tag.Slots());
      BlockWithin(tag, i, |items|);
      BlockIsLaid(a, items, fps, rest, tag.BlockOf(i), tag.PlaceOf(i));
      SlotOfBlock(a.bytes, items, fps, tag, i);
    } else {
      NothingSpilledFlat(items, tag);
      FlatIsLaid(a, items, fps, rest, i);
    }
  }

  lemma SlotOfBlock(a: seq<byte>, items: seq<seq<byte>>, fps: Option<seq<byte>>, tag: Tag, i: nat)
    requires tag.Blocked() && |a| > 8 && Split(a[8]) == tag && i < |items|
    requires tag.BlockOf(i) * tag.Slots() + tag.PlaceOf(i) < |items|
    requires BlockLaid(a, items, fps, tag.Slots(), tag.Base(), tag.BlockOf(i), tag.PlaceOf(i))
    ensures SlotLaid(a, items, fps, i)
  {
    hide BlockLaid, FlatLaid;
  }

  lemma NothingSpilledFlat(items: seq<seq<byte>>, tag: Tag)
    requires !tag.Blocked()
    ensures SpilledOf(items, tag) == []
  {
  }

  // ----- what a load lets through

  /** Where the data starts for `n` slots under a tag byte. */
  ghost function DataStart(n: nat, t: byte): int {
    var layout, slots, fp := t % 0x20, if t % 0x20 == 0x11 then 16 else 256, t >= 0x80;
    if layout == 4 || layout == 8 then 9 + (n + 1) * layout + if fp then n else 0
    else DataAt(n, slots, BlockSize(slots, if t / 0x20 % 2 == 1 then 8 else 4, fp))
  }

  /** Bytes of an entry of the overflow table. */
  ghost function EntrySize(t: byte): nat {
    (if t % 0x20 == 0x11 then 17 else 257) * if t / 0x20 % 2 == 1 then 8 else 4
  }

  /** A known layout, whole as far as its data; under the flag a trailer that counts whole entries between data and
      trailer; and the first key at the data's start, the last at its end. */
  ghost predicate Loads(a: seq<byte>) {
    && |a| >= 9 && Number(a, 0, 8) >= 1
    && a[8] % 0x20 in {0x11, 0x12, 4, 8} && (a[8] % 0x20 in {4, 8} ==> a[8] % 0x80 < 0x20)
    && LoadsFrom(a, Number(a, 0, 8) - 1, DataStart(Number(a, 0, 8) - 1, a[8]))
  }

  ghost predicate LoadsFrom(a: seq<byte>, n: nat, at: int)
    requires |a| >= 9
  {
    && 0 <= at <= |a| && at < 0x1_0000_0000_0000_0000
    && if a[8] / 0x40 % 2 == 0 then Spans(a, Split(a[8]), n, at, |a|, |a|)
       else
         && at + 8 <= |a| && Number(a, |a| - 8, 8) <= |a| - 8 - at && Number(a, |a| - 8, 8) % EntrySize(a[8]) == 0
         && Spans(a, Split(a[8]), n, at, |a| - 8 - Number(a, |a| - 8, 8), |a| - 8)
  }

  lemma StartIs(n: nat, t: byte)
    requires Split(t).Blocked() || Split(t).Flat()
    ensures DataStart(n, t) == PrefixSize(Split(t), n)
    ensures Split(t).Blocked() ==> EntrySize(t) == Split(t).EntryBytes()
  {
    hide Times;
    var tag := Split(t);
    if tag.Blocked() {
      TagSizes(tag);
      TimesIsProduct(tag.BlocksFor(n), tag.BlockBytes());
    } else {
      TimesIsProduct(n + 1, tag.layout);
    }
  }

  /** Bytes load as an arena exactly where they are all that. */
  lemma OpensIff(a: seq<byte>)
    ensures Open(a).Some? <==> Loads(a)
  {
    hide Number, Word, Spans, PrefixSize, DataStart, EntrySize, Tag.EntryBytes;
    if |a| >= 9 {
      NumberIsWord(a, 0, 8);
      NumberIsWord(a, |a| - 8, 8);
      if Number(a, 0, 8) >= 1 && (Split(a[8]).Blocked() || Split(a[8]).Flat()) {
        StartIs(Number(a, 0, 8) - 1, a[8]);
        IndexBytes(Split(a[8]));
      }
    }
  }
}
