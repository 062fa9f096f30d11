/** What a merged arena's bytes hold and where, each place and number spelled out. */
module MergedFormat {
  import opened Lex
  import opened Bits
  import opened Wrappers
  import opened FpTable
  import opened ArenaTable
  import opened MergedShapes
  import opened ArenaMerged
  import opened MergedRead
  import F = ArenaFormat

  // ----- the format

  /** Whether a length is past what its field holds, all ones standing for that. */
  ghost predicate TooLong(len: nat, minLen: nat, lenBits: nat) {
    lenBits > 0 && len - minLen >= Pow2(lenBits) - 1
  }

  ghost function LengthField(len: nat, minLen: nat, lenBits: nat): int {
    if TooLong(len, minLen, lenBits) then Pow2(lenBits) - 1 else len - minLen
  }

  /** How many of the first `k` lengths are too long. */
  ghost function HowManyTooLong(spans: seq<Placed>, minLen: nat, lenBits: nat, k: nat): nat
    requires k <= |spans|
  {
    if k == 0 then 0
    else HowManyTooLong(spans, minLen, lenBits, k - 1) + if TooLong(spans[k - 1].1, minLen, lenBits) then 1 else 0
  }

  /** `[n + 1 u64][tag u8][min_len u32][len_bits u8][start_bits u8][data_len u64]`, then a byte a slot of
      fingerprints. */
  ghost predicate FrontLaid(a: seq<byte>, n: nat, fps: Option<seq<byte>>, shape: MergedShape, dataLen: nat) {
    && F.NumberAt(a, 0, 8, n + 1)
    && F.NumberAt(a, 8, 1, 0x13 + (if shape.escaped > 0 then 0x40 else 0) + if fps.Some? then 0x80 else 0)
    && F.NumberAt(a, 9, 4, shape.minLen)
    && F.NumberAt(a, 13, 1, shape.lenBits)
    && F.NumberAt(a, 14, 1, shape.startBits)
    && F.NumberAt(a, 15, 8, dataLen)
    && (fps.Some? ==> F.BytesAt(a, 23, fps.value))
  }

  /** Bytes of `n` entries packed end to end. */
  ghost function EntriesSize(n: nat, shape: MergedShape): int {
    (n * (shape.startBits + shape.lenBits) + 7) / 8
  }

  /** Where the data starts: behind the entries and seven zeros. */
  ghost function DataAt(n: nat, fps: Option<seq<byte>>, shape: MergedShape): int {
    23 + (if fps.Some? then n else 0) + EntriesSize(n, shape) + 7
  }

  /** Slot `i`'s entry: in the number the entries' bytes spell, so many bits in, the length past the least, or all
      ones, and above it the start. */
  ghost predicate EntryLaid(a: seq<byte>, spans: seq<Placed>, fps: Option<seq<byte>>, shape: MergedShape, i: nat)
    requires i < |spans|
  {
    var (start, len) := spans[i];
    var at, size := if fps.Some? then 23 + |spans| else 23, EntriesSize(|spans|, shape);
    var width := shape.startBits + shape.lenBits;
    && 0 <= size && at + size <= |a|
    && F.Number(a, at, size) / Pow2(Times(i, width)) % Pow2(width)
         == start * Pow2(shape.lenBits) + LengthField(len, shape.minLen, shape.lenBits)
    && F.BytesAt(a, at + size, [0, 0, 0, 0, 0, 0, 0])
  }

  /** Behind the data, where any length is too long: `[slot u32][len u32]` of each that is, in order, and how many
      bytes that makes. */
  ghost predicate TailLaid(a: seq<byte>, spans: seq<Placed>, shape: MergedShape, dataEnd: int) {
    var all := HowManyTooLong(spans, shape.minLen, shape.lenBits, |spans|);
    && all == shape.escaped
    && (all == 0 ==> |a| == dataEnd)
    && (all > 0 ==> |a| == dataEnd + 8 * all + 8 && F.NumberAt(a, |a| - 8, 8, 8 * all))
  }

  ghost predicate ListedLaid(a: seq<byte>, spans: seq<Placed>, shape: MergedShape, dataEnd: int, i: nat)
    requires i < |spans|
  {
    TooLong(spans[i].1, shape.minLen, shape.lenBits) ==>
      var at := dataEnd + 8 * HowManyTooLong(spans, shape.minLen, shape.lenBits, i);
      F.NumberAt(a, at, 4, i) && F.NumberAt(a, at + 4, 4, spans[i].1)
  }

  // ----- what is built keeps to it

  lemma {:induction false} TooLongIsEscaping(spans: seq<Placed>, minLen: nat, lenBits: nat, k: nat)
    requires k <= |spans|
    ensures HowManyTooLong(spans, minLen, lenBits, k) == Escaping(LensOfSpans(spans), minLen, lenBits, k)
  {
    if k > 0 {
      TooLongIsEscaping(spans, minLen, lenBits, k - 1);
    }
  }

  lemma OneByte(a: seq<byte>, at: nat)
    requires at < |a|
    ensures F.NumberAt(a, at, 1, a[at])
  {
    assert F.Number(a, at + 1, 0) == 0;
  }

  lemma FrontIsLaid(a: seq<byte>, n: nat, fps: Option<seq<byte>>, shape: MergedShape, dataLen: nat, table: seq<byte>)
    requires shape.startBits + shape.lenBits <= MAX_WIDTH && shape.minLen < 0x1_0000_0000
    requires n + 1 < USIZE && dataLen < USIZE
    requires FrontAt(a, n, fps, shape, dataLen, table)
    ensures FrontLaid(a, n, fps, shape, dataLen)
  {
    hide Params, Zeros, Head, Word, F.Number;
    FrontHead(a, n, fps, shape, dataLen, table);
    ParamsRead(a, shape, dataLen);
    F.NumberIsWord(a, 0, 8);
    F.NumberIsWord(a, 9, 4);
    F.NumberIsWord(a, 15, 8);
    OneByte(a, 8);
    OneByte(a, 13);
    OneByte(a, 14);
  }

  /** An entry's value, in arithmetic. */
  lemma EntryIs(span: Placed, shape: MergedShape)
    requires Fit(span, shape)
    ensures EntryVal(span, shape)
      == span.0 * Pow2(shape.lenBits) + LengthField(span.1, shape.minLen, shape.lenBits)
  {
    EntrySplits(span, shape);
    LowAndRest(EntryVal(span, shape), shape.lenBits);
    ShlIsProduct(span.0, shape.lenBits);
  }

  lemma EntryIsLaid(a: seq<byte>, spans: seq<Placed>, fps: Option<seq<byte>>, shape: MergedShape, dataLen: nat, i: nat)
    requires Fits(shape, spans, dataLen, fps.Some?) && i < |spans|
    requires AllAtLeast(LensOfSpans(spans), shape.minLen) && (fps.Some? ==> |fps.value| == |spans|)
    requires FrontAt(a, |spans|, fps, shape, dataLen, PackedTable(spans, shape))
    ensures EntryLaid(a, spans, fps, shape, i)
  {
    hide Params, Head, F.Number, PackedTable, Entries, EntryVal, TableVal, Pow2, Times, Val, AllAtLeast;
    var table, width := PackedTable(spans, shape), shape.width;
    PackedTableHolds(spans, shape, dataLen, fps.Some?);
    FpsLen(spans, fps);
    TimesIsProduct(|spans|, width);
    var at := 23 + |FpBytes(fps)|;
    assert a[at..at + |table|] == table by {
      SliceOfSlice(a, at, at + |table| + 7, 0, |table|);
    }
    assert a[at + |table|..at + |table| + 7] == Zeros(7) by {
      SliceOfSlice(a, at, at + |table| + 7, |table|, 7);
    }
    F.NumberIsWord(a, at, |table|);
    var p := Entries(spans, shape, |spans|);
    TableField(p, width, i);
    FitsEach(shape, spans, dataLen, fps.Some?, i);
    EntryIs(spans[i], shape);
    ShrIsQuotient(TableVal(p, width), Times(i, width));
    LowIsRemainder(Shr(TableVal(p, width), Times(i, width)), width);
  }

  lemma TailIsLaid(a: seq<byte>, at: nat, data: seq<byte>, spans: seq<Placed>, shape: MergedShape, fp: bool)
    requires RestAt(a, at, data, Spill(spans, shape, |spans|))
    requires Fits(shape, spans, |data|, fp) && |spans| <= MAX_SLOTS
    ensures TailLaid(a, spans, shape, at + |data|)
    ensures F.BytesAt(a, at, data)
  {
    hide Spill, ToLe, Word, F.Number, Escaping, HowManyTooLong, AllAtLeast;
    var spilled := Spill(spans, shape, |spans|);
    TooLongIsEscaping(spans, shape.minLen, shape.lenBits, |spans|);
    FitsSpills(shape, spans, |data|, fp);
    if spilled != [] {
      WordPowers();
      assert a[|a| - 8..|a| - 8 + 8] == ToLe(|spilled|, 8);
      WordReadsBack(a, |a| - 8, 8, |spilled|);
      F.NumberIsWord(a, |a| - 8, 8);
    }
  }

  lemma {:induction false} SpillEntry(spans: seq<Placed>, shape: MergedShape, k: nat, i: nat)
    requires i < k <= |spans| && Escapes(spans[i].1, shape.minLen, shape.lenBits)
    ensures var (at, s) := (8 * Escaping(LensOfSpans(spans), shape.minLen, shape.lenBits, i), Spill(spans, shape, k));
      at + 8 <= |s| && s[at..at + 4] == ToLe(i, 4) && s[at + 4..at + 8] == ToLe(spans[i].1, 4)
  {
    hide ToLe, Escapes;
    var at, before := 8 * Escaping(LensOfSpans(spans), shape.minLen, shape.lenBits, i), Spill(spans, shape, k - 1);
    if i < k - 1 {
      SpillEntry(spans, shape, k - 1, i);
      assert Spill(spans, shape, k)[..|before|] == before;
      assert Spill(spans, shape, k)[at..at + 4] == before[at..at + 4];
      assert Spill(spans, shape, k)[at + 4..at + 8] == before[at + 4..at + 8];
    }
  }

  lemma ListedIsLaid(a: seq<byte>, at: nat, data: seq<byte>, spans: seq<Placed>, shape: MergedShape, fp: bool, i: nat)
    requires RestAt(a, at, data, Spill(spans, shape, |spans|)) && i < |spans| <= MAX_SLOTS
    requires Fits(shape, spans, |data|, fp)
    ensures ListedLaid(a, spans, shape, at + |data|, i)
  {
    hide Spill, ToLe, Word, F.Number, Escaping, HowManyTooLong, AllAtLeast;
    if TooLong(spans[i].1, shape.minLen, shape.lenBits) {
      var from, spilled := at + |data|, Spill(spans, shape, |spans|);
      var e := 8 * Escaping(LensOfSpans(spans), shape.minLen, shape.lenBits, i);
      TooLongIsEscaping(spans, shape.minLen, shape.lenBits, i);
      SpillEntry(spans, shape, |spans|, i);
      SliceOfSlice(a, from, from + |spilled|, e, 4);
      SliceOfSlice(a, from, from + |spilled|, e + 4, 4);
      FitsEach(shape, spans, |data|, fp, i);
      WordPowers();
      WordReadsBack(a, from + e, 4, i);
      WordReadsBack(a, from + e + 4, 4, spans[i].1);
      F.NumberIsWord(a, from + e, 4);
      F.NumberIsWord(a, from + e + 4, 4);
    }
  }

  /** Every merged arena built keeps to the format, under any shape that fits its spans. */
  lemma MergedIsLaid(data: seq<byte>, spans: seq<Placed>, fps: Option<seq<byte>>, shape: MergedShape, i: nat)
    requires AllAtLeast(LensOfSpans(spans), shape.minLen) && shape.startBits + shape.lenBits <= 57
    requires Fits(shape, spans, |data|, fps.Some?) && (fps.Some? ==> |fps.value| == |spans|)
    requires i < |spans| <= 0x1_0000_0000 && |data| < 0x1_0000_0000_0000_0000
    ensures var (a, at) := (MergedBytes(data, spans, fps, shape), DataAt(|spans|, fps, shape));
      && FrontLaid(a, |spans|, fps, shape, |data|)
      && EntryLaid(a, spans, fps, shape, i)
      && F.BytesAt(a, at, data)
      && TailLaid(a, spans, shape, at + |data|)
      && ListedLaid(a, spans, shape, at + |data|, i)
  {
    hide Front, Fits, Spill, MergedTail, FrontAt, RestAt, AllAtLeast, Entries, TableVal, ToLe, FrontLaid, EntryLaid,
      TailLaid, ListedLaid, F.BytesAt;
    var table := PackedTable(spans, shape);
    var m := MergedOpened(data, spans, fps, shape, table);
    FitsFields(shape, spans, |data|, fps.Some?);
    FitsSpills(shape, spans, |data|, fps.Some?);
    OpenedParts(data, spans, fps, shape, table);
    FpsLen(spans, fps);
    TimesIsProduct(|spans|, shape.width);
    FrontIsLaid(m.bytes, |spans|, fps, shape, |data|, table);
    EntryIsLaid(m.bytes, spans, fps, shape, |data|, i);
    TailIsLaid(m.bytes, m.dataStart, data, spans, shape, fps.Some?);
    ListedIsLaid(m.bytes, m.dataStart, data, spans, shape, fps.Some?, i);
  }

  // ----- what a load lets through

  /** Entries of 1 to 57 bits, the front whole as far as the data, the data as long as the header says, and under the
      flag a trailer that counts whole entries between data and trailer. */
  ghost predicate Loads(a: seq<byte>) {
    && |a| >= 23 && F.Number(a, 0, 8) >= 1 && a[8] % 0x40 == 0x13
    && LoadsFrom(a, F.Number(a, 0, 8) - 1, a[13] as nat + a[14] as nat)
  }

  /** Where a front of `n` entries this wide ends. */
  ghost function FrontEnd(n: nat, width: nat, fp: bool): int {
    30 + (if fp then n else 0) + (n * width + 7) / 8
  }

  ghost predicate LoadsFrom(a: seq<byte>, n: nat, width: nat)
    requires |a| >= 23
  {
    var at := FrontEnd(n, width, a[8] >= 0x80);
    && width <= 57 && (n > 0 ==> width > 0)
    && n * width < 0x1_0000_0000_0000_0000 && at < 0x1_0000_0000_0000_0000 && at <= |a|
    && EndsWith(a, at, F.Number(a, 15, 8))
  }

  /** `dataLen` bytes from `at` on are the last but for what the flag says follows. */
  ghost predicate EndsWith(a: seq<byte>, at: int, dataLen: nat)
    requires |a| >= 23 && at <= |a|
  {
    if a[8] / 0x40 % 2 == 0 then |a| == at + dataLen
    else
      && at + 8 <= |a| && F.Number(a, |a| - 8, 8) <= |a| - 8 - at && F.Number(a, |a| - 8, 8) % 8 == 0
      && |a| - 8 - F.Number(a, |a| - 8, 8) == at + dataLen
  }

  lemma PackedIff(a: seq<byte>, n: nat)
    requires |a| >= 23
    ensures var (r, width) := (ReadPacked(a, Split(a[8]), n), a[13] as nat + a[14] as nat);
      && (r.Some? <==>
            && width <= 57 && (n > 0 ==> width > 0) && n * width < 0x1_0000_0000_0000_0000
            && FrontEnd(n, width, a[8] >= 0x80) < 0x1_0000_0000_0000_0000)
      && (r.Some? ==> r.value.0 == FrontEnd(n, width, a[8] >= 0x80) && r.value.1 == F.Number(a, 15, 8))
  {
    hide F.Number, Word, Times;
    F.NumberIsWord(a, 15, 8);
    var width := a[13] as nat + a[14] as nat;
    TimesIsProduct(n, width);
    assert a[14] as nat + a[13] as nat == width;
  }

  lemma EndsIff(a: seq<byte>, at: nat, dataLen: nat)
    requires |a| >= 23 && at <= |a|
    ensures var ends := MergedEnds(a, Split(a[8]), at);
      EndsWith(a, at, dataLen) <==> ends.Some? && ends.value.0 - at == dataLen
  {
    hide F.Number, Word;
    F.NumberIsWord(a, |a| - 8, 8);
  }

  /** Bytes load as a merged arena exactly where they are all that. */
  lemma OpensIff(a: seq<byte>)
    ensures OpenMerged(a).Some? <==> Loads(a)
  {
    hide F.Number, Word, ReadPacked, MergedEnds, EndsWith, FrontEnd, Split;
    if |a| >= 23 {
      MergedTagIff(a[8]);
      F.NumberIsWord(a, 0, 8);
      if F.Number(a, 0, 8) >= 1 {
        PackedIff(a, F.Number(a, 0, 8) - 1);
        var packed := ReadPacked(a, Split(a[8]), F.Number(a, 0, 8) - 1);
        if packed.Some? && packed.value.0 <= |a| {
          EndsIff(a, packed.value.0, packed.value.1);
        }
      }
    } else {
      ShortFront(a);
    }
  }

  lemma MergedTagIff(t: byte)
    ensures Split(t).layout == MERGED && !Split(t).wide <==> t % 0x40 == 0x13
  {
  }

  lemma ShortFront(a: seq<byte>)
    requires |a| < 23
    ensures OpenMerged(a).None?
  {
    hide F.Number, Word;
  }
}
