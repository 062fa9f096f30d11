/** Opening a merged arena's bytes and reading its slots: one eight-byte read an entry, a binary search for
    a length that escaped. */
module MergedRead {
  import opened Lex
  import opened Bits
  import opened Wrappers
  import opened FpTable
  import opened ArenaTable
  import opened ArenaBuild
  import opened ArenaOpen
  import opened MergedShapes
  import opened ArenaMerged

  // ----- the overflow table

  function SlotAt(table: seq<byte>, j: nat): nat
    requires SLOT_LEN * (j + 1) <= |table|
  {
    Word(table, SLOT_LEN * j, 4)
  }

  function LenOf(table: seq<byte>, j: nat): nat
    requires SLOT_LEN * (j + 1) <= |table|
  {
    Word(table, SLOT_LEN * j + 4, 4)
  }

  ghost predicate SlotsAscend(table: seq<byte>) {
    forall i, j :: 0 <= i < j < |table| / SLOT_LEN ==> SlotAt(table, i) < SlotAt(table, j)
  }

  /** The length the first entry for `slot`, from the `j`-th on, gives. */
  function Lookup(table: seq<byte>, j: nat, slot: nat): Option<nat>
    decreases |table| - j
  {
    if j >= |table| / SLOT_LEN then None
    else if SlotAt(table, j) == slot then Some(LenOf(table, j))
    else Lookup(table, j + 1, slot)
  }

  lemma {:induction false} LookupFinds(table: seq<byte>, from: nat, j: nat, slot: nat)
    requires SlotsAscend(table) && from <= j < |table| / SLOT_LEN && SlotAt(table, j) == slot
    ensures Lookup(table, from, slot) == Some(LenOf(table, j))
    decreases j - from
  {
    if from < j {
      assert SlotAt(table, from) < SlotAt(table, j);
      LookupFinds(table, from + 1, j, slot);
    }
  }

  lemma {:induction false} LookupMisses(table: seq<byte>, from: nat, slot: nat)
    requires forall j :: from <= j < |table| / SLOT_LEN ==> SlotAt(table, j) != slot
    ensures Lookup(table, from, slot) == None
    decreases |table| - from
  {
    if from < |table| / SLOT_LEN {
      LookupMisses(table, from + 1, slot);
    }
  }

  /** The binary search for an escaped length. In a table whose slots ascend it finds what is there; in any
      other an entry for the slot or none. */
  method EscapedLen(table: seq<byte>, slot: nat) returns (r: Option<nat>)
    ensures SlotsAscend(table) ==> r == Lookup(table, 0, slot)
    ensures r.Some? ==> exists j :: 0 <= j < |table| / SLOT_LEN && SlotAt(table, j) == slot && LenOf(table, j) == r.value
  {
    if slot > U32_MAX {
      SlotsBelow(table);
      LookupMisses(table, 0, slot);
      return None;
    }
    var lo, hi := 0, |table| / SLOT_LEN;
    while lo < hi
      invariant 0 <= lo <= hi <= |table| / SLOT_LEN
      invariant SlotsAscend(table) ==> forall j :: 0 <= j < lo ==> SlotAt(table, j) < slot
      invariant SlotsAscend(table) ==> forall j :: hi <= j < |table| / SLOT_LEN ==> SlotAt(table, j) >= slot
    {
      var mid := lo + (hi - lo) / 2;
      if SlotAt(table, mid) < slot {
        lo := mid + 1;
      } else {
        hi := mid;
      }
    }
    if lo < |table| / SLOT_LEN && SlotAt(table, lo) == slot {
      r := Some(LenOf(table, lo));
      if SlotsAscend(table) {
        LookupFinds(table, 0, lo, slot);
      }
    } else {
      r := None;
      if SlotsAscend(table) {
        forall j | 0 <= j < |table| / SLOT_LEN
          ensures SlotAt(table, j) != slot
        {
          assert j > lo ==> SlotAt(table, lo) < SlotAt(table, j);
        }
        LookupMisses(table, 0, slot);
      }
    }
  }

  lemma SlotsBelow(table: seq<byte>)
    ensures forall j :: 0 <= j < |table| / SLOT_LEN ==> SlotAt(table, j) <= U32_MAX
  {
    WordPowers();
    forall j | 0 <= j < |table| / SLOT_LEN
      ensures SlotAt(table, j) <= U32_MAX
    {
      ValBound(table[SLOT_LEN * j..SLOT_LEN * j + 4]);
    }
  }

  // ----- the table a build writes

  lemma EntryWords(a: seq<byte>, slot: nat, len: nat, j: nat)
    requires |a| == SLOT_LEN * j && slot <= U32_MAX && len <= U32_MAX
    ensures var s := a + (ToLe(slot, 4) + ToLe(len, 4));
      |s| == SLOT_LEN * (j + 1) && SlotAt(s, j) == slot && LenOf(s, j) == len
  {
    hide Val, ToLe, Pow2;
    WordPowers();
    var s := a + (ToLe(slot, 4) + ToLe(len, 4));
    assert s[SLOT_LEN * j..SLOT_LEN * j + 4] == ToLe(slot, 4);
    assert s[SLOT_LEN * j + 4..SLOT_LEN * j + 4 + 4] == ToLe(len, 4);
    WordReadsBack(s, SLOT_LEN * j, 4, slot);
    WordReadsBack(s, SLOT_LEN * j + 4, 4, len);
  }

  lemma EarlierWords(a: seq<byte>, b: seq<byte>, j: nat)
    requires SLOT_LEN * (j + 1) <= |a|
    ensures SlotAt(a + b, j) == SlotAt(a, j) && LenOf(a + b, j) == LenOf(a, j)
  {
    FrontSlice(a, b, SLOT_LEN * j, 4);
    FrontSlice(a, b, SLOT_LEN * j + 4, 4);
  }

  /** The slots written ascend, each below the next to come. */
  lemma {:induction false} SpillAscends(spans: seq<Placed>, shape: MergedShape, k: nat)
    requires k <= |spans| <= MAX_SLOTS && AllAtLeast(LensOfSpans(spans), shape.minLen)
    ensures var s := Spill(spans, shape, k);
      && SlotsAscend(s) && (forall j :: 0 <= j < |s| / SLOT_LEN ==> SlotAt(s, j) < k)
  {
    if k > 0 {
      SpillAscends(spans, shape, k - 1);
      SpillStep(spans, shape, k);
    }
  }

  lemma SpillStep(spans: seq<Placed>, shape: MergedShape, k: nat)
    requires 0 < k <= |spans| <= MAX_SLOTS && AllAtLeast(LensOfSpans(spans), shape.minLen)
    requires var s := Spill(spans, shape, k - 1);
      && SlotsAscend(s) && (forall j :: 0 <= j < |s| / SLOT_LEN ==> SlotAt(s, j) < k - 1)
    ensures var s := Spill(spans, shape, k);
      && SlotsAscend(s) && (forall j :: 0 <= j < |s| / SLOT_LEN ==> SlotAt(s, j) < k)
  {
    hide SlotAt, LenOf, Escaping, ToLe;
    var before, s := Spill(spans, shape, k - 1), Spill(spans, shape, k);
    if Escapes(spans[k - 1].1, shape.minLen, shape.lenBits) {
      assert LensOfSpans(spans)[k - 1] == spans[k - 1].1;
      var last := ToLe(k - 1, 4) + ToLe(spans[k - 1].1, 4);
      EntryWords(before, k - 1, spans[k - 1].1, |before| / SLOT_LEN);
      forall j | 0 <= j < |before| / SLOT_LEN
        ensures SlotAt(s, j) == SlotAt(before, j)
      {
        EarlierWords(before, last, j);
      }
    } else {
      assert s == before;
    }
  }

  /** An escaped length is in the table under its slot. */
  lemma {:induction false} SpillHolds(spans: seq<Placed>, shape: MergedShape, k: nat, i: nat) returns (j: nat)
    requires i < k <= |spans| <= MAX_SLOTS && AllAtLeast(LensOfSpans(spans), shape.minLen)
    requires Escapes(spans[i].1, shape.minLen, shape.lenBits)
    ensures var s := Spill(spans, shape, k);
      SLOT_LEN * (j + 1) <= |s| && SlotAt(s, j) == i && LenOf(s, j) == spans[i].1
  {
    hide SlotAt, LenOf, Escaping, ToLe;
    var before := Spill(spans, shape, k - 1);
    if i == k - 1 {
      assert LensOfSpans(spans)[k - 1] == spans[k - 1].1;
      j := |before| / SLOT_LEN;
      EntryWords(before, k - 1, spans[k - 1].1, j);
    } else {
      j := SpillHolds(spans, shape, k - 1, i);
      var last := if Escapes(spans[k - 1].1, shape.minLen, shape.lenBits) then ToLe(k - 1, 4) + ToLe(spans[k - 1].1, 4) else [];
      EarlierWords(before, last, j);
    }
  }

  lemma SpillLookup(spans: seq<Placed>, shape: MergedShape, i: nat)
    requires i < |spans| <= MAX_SLOTS && AllAtLeast(LensOfSpans(spans), shape.minLen)
    requires Escapes(spans[i].1, shape.minLen, shape.lenBits)
    ensures Lookup(Spill(spans, shape, |spans|), 0, i) == Some(spans[i].1)
  {
    SpillAscends(spans, shape, |spans|);
    var j := SpillHolds(spans, shape, |spans|, i);
    LookupFinds(Spill(spans, shape, |spans|), 0, j, i);
  }

  // ----- opening

  datatype Packed = Packed(width: nat, lenBits: nat, minLen: nat)

  /** An opened merged arena. */
  datatype Merged = Merged(bytes: seq<byte>, n: nat, tag: Tag, packed: Packed, dataStart: nat, dataEnd: nat, overflowEnd: nat) {

    /** Where the entries start. */
    function TableAt(): nat {
      HEADER + PARAMS + if tag.fp then n else 0
    }

    /** The entries, of a bit at least and at most what an eight-byte read holds, end with their padding
        where the data starts. */
    ghost predicate Valid() {
      && dataStart <= dataEnd <= overflowEnd <= |bytes|
      && packed.lenBits <= packed.width <= MAX_WIDTH && (packed.width == 0 ==> n == 0)
      && dataStart == TableAt() + TableLen(n, packed.width) + PAD
    }

    /** Slot `i`'s entry: eight bytes from where it starts, shifted and masked. */
    function RawAt(i: nat): nat
      requires Valid() && i < n
    {
      var bit := Times(i, packed.width);
      ReadInTable(this, i);
      Low(Shr(Word(bytes, TableAt() + bit / 8, 8), bit % 8), packed.width)
    }

    /** The length a field stands for: the least and the field, or what the overflow table says. */
    function LenFrom(i: nat, field: nat): Option<nat>
      requires Valid()
    {
      if packed.lenBits > 0 && field == Escape(packed.lenBits) then Lookup(bytes[dataEnd..overflowEnd], 0, i)
      else Some(packed.minLen + field)
    }

    /** Slot `i`'s span in the bytes and its fingerprint, which is compared before the entry is read. */
    function EntryAt(i: nat, want: Option<byte>): Option<Entry>
      requires Valid()
    {
      if i >= n then None
      else
        var fp := if tag.fp then bytes[HEADER + PARAMS + i] else 0;
        if tag.fp && want.Some? && want.value != fp then None
        else
          var start, len := Shr(RawAt(i), packed.lenBits), LenFrom(i, Low(RawAt(i), packed.lenBits));
          if len.None? || start + len.value > dataEnd - dataStart then None
          else Some(((dataStart + start, dataStart + start + len.value), fp))
    }
  }

  /** The eight bytes read for an entry all lie in front of the data. */
  lemma ReadInTable(m: Merged, i: nat)
    requires m.Valid() && i < m.n
    ensures m.TableAt() + Times(i, m.packed.width) / 8 + 8 <= m.dataStart
  {
    TimesMonotone(i + 1, m.n, m.packed.width);
  }

  /** The same entry, an escaped length found by binary search: on the tables a build writes, whose slots
      ascend. */
  method ReadEntry(m: Merged, i: nat, want: Option<byte>) returns (r: Option<Entry>)
    requires m.Valid()
    ensures SlotsAscend(m.bytes[m.dataEnd..m.overflowEnd]) ==> r == m.EntryAt(i, want)
    ensures r.Some? ==> m.dataStart <= r.value.0.0 <= r.value.0.1 <= m.dataEnd
  {
    hide Times, Val, Low, Shr, Word, Lookup, TableLen, SlotsAscend;
    if i >= m.n {
      return None;
    }
    var fp := if m.tag.fp then m.bytes[HEADER + PARAMS + i] else 0;
    if m.tag.fp && want.Some? && want.value != fp {
      return None;
    }
    var bit := Times(i, m.packed.width);
    ReadInTable(m, i);
    var raw := Word(m.bytes, m.TableAt() + bit / 8, 8);
    var word := Low(Shr(raw, bit % 8), m.packed.width);
    var start, field := Shr(word, m.packed.lenBits), Low(word, m.packed.lenBits);
    var len := Some(m.packed.minLen + field);
    if m.packed.lenBits > 0 && field == Escape(m.packed.lenBits) {
      len := EscapedLen(m.bytes[m.dataEnd..m.overflowEnd], i);
    }
    if len.None? || start + len.value > m.dataEnd - m.dataStart {
      return None;
    }
    r := Some(((m.dataStart + start, m.dataStart + start + len.value), fp));
  }

  /** Read a merged arena's header: the widths, the start of the data and the length claimed for it. Refused
      are entries of no bits, entries one read cannot hold, and a table past what a `usize` counts. */
  function ReadPacked(bytes: seq<byte>, tag: Tag, n: nat): Option<(nat, nat, Packed)> {
    if |bytes| < HEADER + PARAMS then None
    else
      var minLen := Word(bytes, HEADER, 4);
      var lenBits, startBits := bytes[HEADER + 4] as nat, bytes[HEADER + 5] as nat;
      var dataLen := Word(bytes, HEADER + 6, 8);
      var width := startBits + lenBits;
      if width > MAX_WIDTH || (width == 0 && n > 0) || Times(n, width) >= USIZE then None
      else
        var entries := HEADER + PARAMS + (if tag.fp then n else 0) + TableLen(n, width) + PAD;
        if entries >= USIZE then None else Some((entries, dataLen, Packed(width, lenBits, minLen)))
  }

  /** Where the data ends and where the escapes behind it do. */
  function MergedEnds(bytes: seq<byte>, tag: Tag, dataStart: nat): Option<Span>
    requires dataStart <= |bytes|
  {
    if !tag.overflow then Some((|bytes|, |bytes|))
    else if |bytes| < TRAILER || |bytes| - TRAILER < dataStart then None
    else
      var trailer := |bytes| - TRAILER;
      var len := Word(bytes, trailer, TRAILER);
      if len > trailer - dataStart || len % SLOT_LEN != 0 then None else Some((trailer - len, trailer))
  }

  /** Whatever the bytes, what opens reads inside itself. */
  function OpenMerged(bytes: seq<byte>): (r: Option<Merged>)
    ensures r.Some? ==> r.value.Valid()
  {
    if |bytes| < HEADER || Word(bytes, 0, 8) == 0 then None
    else
      var n, tag := Word(bytes, 0, 8) - 1, Split(bytes[8]);
      var packed := ReadPacked(bytes, tag, n);
      if tag.layout != MERGED || tag.wide || packed.None? || |bytes| < packed.value.0 then None
      else
        var dataStart := packed.value.0;
        var ends := MergedEnds(bytes, tag, dataStart);
        if ends.None? || ends.value.0 - dataStart != packed.value.1 then None
        else Some(Merged(bytes, n, tag, packed.value.2, dataStart, ends.value.0, ends.value.1))
  }

  // ----- what a build leaves opens, and every slot is its span

  /** The parts of a merged arena's bytes. */
  ghost predicate MergedLaid(m: Merged, spans: seq<Placed>, data: seq<byte>, fps: Option<seq<byte>>, shape: MergedShape,
                        table: seq<byte>)
  {
    && m.Valid() && m.n == |spans| && m.tag == MergedTag(fps, shape)
    && m.packed == Packed(shape.width, shape.lenBits, shape.minLen)
    && m.bytes[m.TableAt()..m.dataStart] == table + Zeros(PAD)
    && (fps.Some? ==> m.bytes[HEADER + PARAMS..m.TableAt()] == fps.value)
    && m.bytes[m.dataStart..m.dataEnd] == data
    && m.bytes[m.dataEnd..m.overflowEnd] == Spill(spans, shape, |spans|)
  }

  lemma {:induction false} ZerosSpellNothing(k: nat)
    ensures Val(Zeros(k)) == 0
  {
    if k > 0 {
      assert Zeros(k)[1..] == Zeros(k - 1);
      ZerosSpellNothing(k - 1);
    }
  }

  /** Eight bytes from where an entry starts, shifted and masked, are the entry, padding or no. */
  lemma EightBytesHold(table: seq<byte>, p: seq<nat>, width: nat, i: nat)
    requires TableOf(table, p, width) && i < |p| && 1 <= width <= MAX_WIDTH
    ensures var (s, bit) := (table + Zeros(PAD), Times(i, width));
      && bit / 8 + 8 <= |s|
      && Low(Shr(Word(s, bit / 8, 8), bit % 8), width) == p[i]
  {
    hide Val, TableVal, Low, Shr;
    var s, bit := table + Zeros(PAD), Times(i, width);
    TimesMonotone(i + 1, |p|, width);
    ValConcat(table, Zeros(PAD));
    ZerosSpellNothing(PAD);
    FieldInSlice(s, bit / 8, 8, bit % 8, width);
    TableField(p, width, i);
  }

  /** The entry an opened arena reads. */
  lemma RawEntry(m: Merged, spans: seq<Placed>, data: seq<byte>, fps: Option<seq<byte>>, shape: MergedShape,
                 table: seq<byte>, i: nat)
    requires MergedLaid(m, spans, data, fps, shape, table) && i < |spans| && 1 <= shape.width <= MAX_WIDTH
    requires AllAtLeast(LensOfSpans(spans), shape.minLen) && TableOf(table, Entries(spans, shape, |spans|), shape.width)
    ensures spans[i].1 >= shape.minLen && m.RawAt(i) == EntryVal(spans[i], shape)
  {
    hide MergedLaid, TableOf, Times, Shr, Low, Zeros, EntryVal, Entries, Word;
    LaidValid(m, spans, data, fps, shape, table);
    assert LensOfSpans(spans)[i] == spans[i].1;
    EightBytesHold(table, Entries(spans, shape, |spans|), shape.width, i);
    WordOfSlice(m.bytes, m.TableAt(), m.dataStart, Times(i, shape.width) / 8);
  }

  lemma WordOfSlice(s: seq<byte>, from: nat, to: nat, at: nat)
    requires from + at + 8 <= to <= |s|
    ensures Word(s, from + at, 8) == Word(s[from..to], at, 8)
  {
    SliceOfSlice(s, from, to, at, 8);
  }

  /** A slot's span as the arena reads it, or nothing for a fingerprint that is not its own. */
  function StoredSpan(spans: seq<Placed>, fps: Option<seq<byte>>, dataStart: nat, i: nat,
                      want: Option<byte>): Option<Entry>
    requires i < |spans|
  {
    if fps.Some? && want.Some? && want.value != FpAt(fps, i) then None
    else Some(((dataStart + spans[i].0, dataStart + spans[i].0 + spans[i].1), FpAt(fps, i)))
  }

  lemma RowFp(m: Merged, spans: seq<Placed>, data: seq<byte>, fps: Option<seq<byte>>, shape: MergedShape,
              table: seq<byte>, i: nat)
    requires MergedLaid(m, spans, data, fps, shape, table) && i < |spans| && fps.Some? && |fps.value| == |spans|
    ensures m.bytes[HEADER + PARAMS + i] == FpAt(fps, i)
  {
    assert m.bytes[HEADER + PARAMS + i] == m.bytes[HEADER + PARAMS..m.TableAt()][i];
  }

  lemma SlotReads(m: Merged, spans: seq<Placed>, data: seq<byte>, fps: Option<seq<byte>>, shape: MergedShape,
                  table: seq<byte>, i: nat, want: Option<byte>)
    requires MergedLaid(m, spans, data, fps, shape, table) && i < |spans| <= MAX_SLOTS
    requires Fits(shape, spans, |data|, fps.Some?) && (fps.Some? ==> |fps.value| == |spans|)
    requires AllAtLeast(LensOfSpans(spans), shape.minLen) && TableOf(table, Entries(spans, shape, |spans|), shape.width)
    requires spans[i].0 + spans[i].1 <= |data|
    ensures m.EntryAt(i, want) == StoredSpan(spans, fps, m.dataStart, i, want)
  {
    hide MergedLaid, TableOf, Shr, Low, EntryVal, Fits, Entries, Merged.RawAt, Merged.LenFrom, AllAtLeast;
    LaidValid(m, spans, data, fps, shape, table);
    FitsFields(shape, spans, |data|, fps.Some?);
    FitsEach(shape, spans, |data|, fps.Some?, i);
    RawEntry(m, spans, data, fps, shape, table, i);
    EntrySplits(spans[i], shape);
    if fps.Some? {
      RowFp(m, spans, data, fps, shape, table, i);
    }
    LenReads(m, spans, data, fps, shape, table, i);
  }

  lemma LaidValid(m: Merged, spans: seq<Placed>, data: seq<byte>, fps: Option<seq<byte>>, shape: MergedShape,
                  table: seq<byte>)
    requires MergedLaid(m, spans, data, fps, shape, table)
    ensures m.Valid() && m.n == |spans| && (m.tag.fp <==> fps.Some?) && m.dataEnd - m.dataStart == |data|
    ensures m.packed == Packed(shape.width, shape.lenBits, shape.minLen)
    ensures m.bytes[m.TableAt()..m.dataStart] == table + Zeros(PAD)
  {
  }

  /** A length comes back from its field, or from the overflow table its field sends the reader to. */
  lemma LenReads(m: Merged, spans: seq<Placed>, data: seq<byte>, fps: Option<seq<byte>>, shape: MergedShape,
                 table: seq<byte>, i: nat)
    requires MergedLaid(m, spans, data, fps, shape, table) && i < |spans| <= MAX_SLOTS && Fit(spans[i], shape)
    requires AllAtLeast(LensOfSpans(spans), shape.minLen)
    ensures m.LenFrom(i, LenField(spans[i].1, shape)) == Some(spans[i].1)
  {
    hide Spill, Lookup;
    if Escapes(spans[i].1, shape.minLen, shape.lenBits) {
      SpillLookup(spans, shape, i);
    }
  }

  /** The arena a merged build leaves, as opened. */
  function MergedOpened(data: seq<byte>, spans: seq<Placed>, fps: Option<seq<byte>>, shape: MergedShape,
                        table: seq<byte>): Merged
    requires shape.startBits + shape.lenBits <= MAX_WIDTH
  {
    var front, spilled := Front(|spans|, fps, shape, |data|, table), Spill(spans, shape, |spans|);
    Merged(front + data + MergedTail(spilled), |spans|, MergedTag(fps, shape),
           Packed(shape.width, shape.lenBits, shape.minLen), |front|, |front| + |data|, |front| + |data| + |spilled|)
  }

  /** Where the pieces of the front lie. */
  ghost predicate FrontAt(s: seq<byte>, n: nat, fps: Option<seq<byte>>, shape: MergedShape, dataLen: nat,
                          table: seq<byte>)
    requires shape.startBits + shape.lenBits <= MAX_WIDTH
  {
    var fpEnd := HEADER + PARAMS + |FpBytes(fps)|;
    && fpEnd + |table| + PAD <= |s|
    && s[..HEADER] == Head(n, MergedTag(fps, shape))
    && s[HEADER..HEADER + PARAMS] == Params(shape, dataLen)
    && s[HEADER + PARAMS..fpEnd] == FpBytes(fps)
    && s[fpEnd..fpEnd + |table| + PAD] == table + Zeros(PAD)
  }

  /** Where the data and what follows it lie. */
  ghost predicate RestAt(s: seq<byte>, at: nat, data: seq<byte>, spilled: seq<byte>) {
    && at + |data| + |spilled| <= |s|
    && s[at..at + |data|] == data
    && s[at + |data|..at + |data| + |spilled|] == spilled
    && s[at + |data| + |spilled|..] == if spilled == [] then [] else ToLe(|spilled|, TRAILER)
  }

  lemma FrontParts(s: seq<byte>, n: nat, fps: Option<seq<byte>>, shape: MergedShape, dataLen: nat, table: seq<byte>,
                   rest: seq<byte>)
    requires shape.startBits + shape.lenBits <= MAX_WIDTH && s == Front(n, fps, shape, dataLen, table) + rest
    ensures |Front(n, fps, shape, dataLen, table)| == HEADER + PARAMS + |FpBytes(fps)| + |table| + PAD
    ensures FrontAt(s, n, fps, shape, dataLen, table)
  {
    hide Head, Params, Zeros;
  }

  lemma FourParts(a: seq<byte>, b: seq<byte>, c: seq<byte>, d: seq<byte>)
    ensures var s := a + b + (c + d);
      s[|a|..|a| + |b|] == b && s[|a| + |b|..|a| + |b| + |c|] == c && s[|a| + |b| + |c|..] == d
  {
  }

  lemma TailIs(spilled: seq<byte>, rest: seq<byte>)
    requires rest == if spilled == [] then [] else ToLe(|spilled|, TRAILER)
    ensures MergedTail(spilled) == spilled + rest
  {
    hide ToLe;
  }

  lemma RestParts(s: seq<byte>, front: seq<byte>, data: seq<byte>, spilled: seq<byte>)
    requires s == front + data + MergedTail(spilled)
    ensures RestAt(s, |front|, data, spilled)
  {
    hide ToLe, MergedTail;
    var rest := if spilled == [] then [] else ToLe(|spilled|, TRAILER);
    TailIs(spilled, rest);
    FourParts(front, data, spilled, rest);
  }

  lemma Regroup(a: seq<byte>, b: seq<byte>, c: seq<byte>)
    ensures a + b + c == a + (b + c)
  {
  }

  lemma OpenedParts(data: seq<byte>, spans: seq<Placed>, fps: Option<seq<byte>>, shape: MergedShape, table: seq<byte>)
    requires shape.startBits + shape.lenBits <= MAX_WIDTH
    ensures var m := MergedOpened(data, spans, fps, shape, table);
      && FrontAt(m.bytes, |spans|, fps, shape, |data|, table)
      && m.dataStart == HEADER + PARAMS + |FpBytes(fps)| + |table| + PAD
      && RestAt(m.bytes, m.dataStart, data, Spill(spans, shape, |spans|))
  {
    hide Front, MergedTail, FrontAt, RestAt, Spill;
    var front, tail := Front(|spans|, fps, shape, |data|, table), MergedTail(Spill(spans, shape, |spans|));
    Regroup(front, data, tail);
    FrontParts(front + data + tail, |spans|, fps, shape, |data|, table, data + tail);
    RestParts(front + data + tail, front, data, Spill(spans, shape, |spans|));
  }

  lemma OpenedLaid(m: Merged, data: seq<byte>, spans: seq<Placed>, fps: Option<seq<byte>>, shape: MergedShape,
                   table: seq<byte>)
    requires shape.startBits + shape.lenBits == shape.width <= MAX_WIDTH && shape.startBits >= 1
    requires FrontAt(m.bytes, |spans|, fps, shape, |data|, table)
    requires RestAt(m.bytes, m.dataStart, data, Spill(spans, shape, |spans|))
    requires m.dataStart == HEADER + PARAMS + |FpBytes(fps)| + |table| + PAD && m.dataEnd == m.dataStart + |data|
    requires m.overflowEnd == m.dataEnd + |Spill(spans, shape, |spans|)|
    requires m.packed == Packed(shape.width, shape.lenBits, shape.minLen) && m.tag == MergedTag(fps, shape)
    requires m.n == |spans| && |table| == TableLen(|spans|, shape.width) && (fps.Some? ==> |fps.value| == |spans|)
    ensures MergedLaid(m, spans, data, fps, shape, table)
  {
    hide Head, Params, Zeros, Spill, ToLe, RestAt, FpBytes;
    OpenedRest(m, data, Spill(spans, shape, |spans|));
    FpsLen(spans, fps);
    assert m.TableAt() == HEADER + PARAMS + |FpBytes(fps)|;
  }

  lemma FpsLen(spans: seq<Placed>, fps: Option<seq<byte>>)
    requires fps.Some? ==> |fps.value| == |spans|
    ensures |FpBytes(fps)| == if fps.Some? then |spans| else 0
    ensures fps.Some? ==> FpBytes(fps) == fps.value
  {
  }

  lemma OpenedRest(m: Merged, data: seq<byte>, spilled: seq<byte>)
    requires RestAt(m.bytes, m.dataStart, data, spilled)
    requires m.dataEnd == m.dataStart + |data| && m.overflowEnd == m.dataEnd + |spilled|
    ensures m.dataStart <= m.dataEnd <= m.overflowEnd <= |m.bytes|
    ensures m.bytes[m.dataStart..m.dataEnd] == data && m.bytes[m.dataEnd..m.overflowEnd] == spilled
  {
    hide ToLe;
  }

  lemma ParamsRead(s: seq<byte>, shape: MergedShape, dataLen: nat)
    requires shape.startBits + shape.lenBits <= MAX_WIDTH && shape.minLen <= U32_MAX && dataLen < USIZE
    requires |s| >= HEADER + PARAMS && s[HEADER..HEADER + PARAMS] == Params(shape, dataLen)
    ensures Word(s, HEADER, 4) == shape.minLen && Word(s, HEADER + 6, 8) == dataLen
    ensures s[HEADER + 4] == shape.lenBits && s[HEADER + 5] == shape.startBits
  {
    hide Val, ToLe, Params;
    WordPowers();
    ParamPieces(shape, dataLen);
    SliceOfSlice(s, HEADER, HEADER + PARAMS, 0, 4);
    SliceOfSlice(s, HEADER, HEADER + PARAMS, 6, 8);
    WordReadsBack(s, HEADER, 4, shape.minLen);
    WordReadsBack(s, HEADER + 6, 8, dataLen);
    ByteOfSlice(s, 4);
    ByteOfSlice(s, 5);
  }

  lemma ByteOfSlice(s: seq<byte>, i: nat)
    requires |s| >= HEADER + PARAMS && i < PARAMS
    ensures s[HEADER + i] == s[HEADER..HEADER + PARAMS][i]
  {
  }

  lemma ParamPieces(shape: MergedShape, dataLen: nat)
    requires shape.startBits + shape.lenBits <= MAX_WIDTH
    ensures var p := Params(shape, dataLen);
      && p[0..4] == ToLe(shape.minLen, 4) && p[4] == shape.lenBits && p[5] == shape.startBits
      && p[6..14] == ToLe(dataLen, 8)
  {
    hide ToLe;
  }

  lemma TimesSmall(n: nat, width: nat)
    requires n <= MAX_SLOTS && width <= MAX_WIDTH
    ensures Times(n, width) <= 64 * MAX_SLOTS
  {
    TimesUp(n, width, 64);
    TimesBytes(n, 8);
  }

  lemma PackedReads(s: seq<byte>, n: nat, fps: Option<seq<byte>>, shape: MergedShape, dataLen: nat, table: seq<byte>)
    requires shape.startBits + shape.lenBits == shape.width <= MAX_WIDTH && shape.startBits >= 1
    requires FrontAt(s, n, fps, shape, dataLen, table) && n <= MAX_SLOTS && (fps.Some? ==> |fps.value| == n)
    requires shape.minLen <= U32_MAX && dataLen < USIZE && |table| == TableLen(n, shape.width)
    ensures ReadPacked(s, MergedTag(fps, shape), n)
      == Some((HEADER + PARAMS + |FpBytes(fps)| + |table| + PAD, dataLen, Packed(shape.width, shape.lenBits, shape.minLen)))
  {
    hide Params, Head, Times, Word, Zeros;
    ParamsRead(s, shape, dataLen);
    TimesSmall(n, shape.width);
  }

  lemma MergedEndsFound(s: seq<byte>, dataStart: nat, data: seq<byte>, spilled: seq<byte>, tag: Tag)
    requires RestAt(s, dataStart, data, spilled) && |spilled| < USIZE && |spilled| % SLOT_LEN == 0
    requires tag.overflow <==> spilled != []
    ensures MergedEnds(s, tag, dataStart) == Some((dataStart + |data|, dataStart + |data| + |spilled|))
  {
    hide Val, ToLe;
    if tag.overflow {
      WordPowers();
      var at := |s| - TRAILER;
      assert s[at..at + TRAILER] == s[at..];
      WordReadsBack(s, at, TRAILER, |spilled|);
    }
  }

  lemma {:induction false} EscapingAtMost(lens: seq<nat>, minLen: nat, lenBits: nat, k: nat)
    requires k <= |lens|
    ensures Escaping(lens, minLen, lenBits, k) <= k
  {
    if k > 0 {
      EscapingAtMost(lens, minLen, lenBits, k - 1);
    }
  }

  lemma FitsSpills(shape: MergedShape, spans: seq<Placed>, dataLen: nat, fp: bool)
    requires Fits(shape, spans, dataLen, fp) && |spans| <= MAX_SLOTS
    ensures var spilled := Spill(spans, shape, |spans|);
      |spilled| < USIZE && |spilled| % SLOT_LEN == 0 && (shape.escaped > 0 <==> spilled != [])
    ensures spans != [] ==> shape.minLen <= U32_MAX
  {
    hide Spill, Escaping, SpansBytes;
    EscapingAtMost(LensOfSpans(spans), shape.minLen, shape.lenBits, |spans|);
    if spans != [] {
      assert LensOfSpans(spans)[0] <= U32_MAX;
    }
  }

  /** A merged build opens. */
  lemma MergedOpens(data: seq<byte>, spans: seq<Placed>, fps: Option<seq<byte>>, shape: MergedShape, table: seq<byte>)
    requires Fits(shape, spans, |data|, fps.Some?) && (fps.Some? ==> |fps.value| == |spans|)
    requires 0 < |spans| <= MAX_SLOTS && |data| < USIZE
    requires |table| == TableLen(|spans|, shape.width) && shape.startBits + shape.lenBits <= MAX_WIDTH
    ensures OpenMerged(MergedOpened(data, spans, fps, shape, table).bytes)
      == Some(MergedOpened(data, spans, fps, shape, table))
  {
    hide FrontAt, RestAt, Front, Fits, Spill, MergedTail, ReadPacked, MergedEnds, Word, Split, TableLen;
    var m, spilled := MergedOpened(data, spans, fps, shape, table), Spill(spans, shape, |spans|);
    FitsFields(shape, spans, |data|, fps.Some?);
    FitsSpills(shape, spans, |data|, fps.Some?);
    OpenedParts(data, spans, fps, shape, table);
    FrontHead(m.bytes, |spans|, fps, shape, |data|, table);
    PackedReads(m.bytes, |spans|, fps, shape, |data|, table);
    MergedEndsFound(m.bytes, m.dataStart, data, spilled, m.tag);
  }

  lemma FrontHead(s: seq<byte>, n: nat, fps: Option<seq<byte>>, shape: MergedShape, dataLen: nat, table: seq<byte>)
    requires shape.startBits + shape.lenBits <= MAX_WIDTH && n + 1 < USIZE
    requires FrontAt(s, n, fps, shape, dataLen, table)
    ensures |s| >= HEADER + PARAMS + |FpBytes(fps)| + |table| + PAD
    ensures Word(s, 0, 8) == n + 1 && Split(s[8]) == MergedTag(fps, shape)
  {
    hide Params, Zeros, Head, Word, Split;
    HeadReads(s, n, MergedTag(fps, shape));
  }

  /** A merged arena built, opened and read: for every list of spans and the shape chosen for them, slot `i`
      is its span of the data, its length from its field or from the overflow table, and nothing for a
      fingerprint that is not its own; the binary search may be used, the table's slots ascending. */
  lemma MergedReadsBack(data: seq<byte>, spans: seq<Placed>, fps: Option<seq<byte>>, shape: MergedShape, i: nat,
                        want: Option<byte>)
    requires AllAtLeast(LensOfSpans(spans), shape.minLen) && shape.startBits + shape.lenBits <= MAX_WIDTH
    requires Fits(shape, spans, |data|, fps.Some?) && (fps.Some? ==> |fps.value| == |spans|)
    requires i < |spans| <= MAX_SLOTS && |data| < USIZE && spans[i].0 + spans[i].1 <= |data|
    ensures var (blob, found) := (MergedBytes(data, spans, fps, shape), OpenMerged(MergedBytes(data, spans, fps, shape)));
      && found.Some? && found.value.n == |spans|
      && SlotsAscend(blob[found.value.dataEnd..found.value.overflowEnd])
      && found.value.EntryAt(i, want) == StoredSpan(spans, fps, found.value.dataStart, i, want)
      && KeyAt(blob, found.value.dataStart, data, spans[i])
  {
    hide Front, Fits, Spill, MergedTail, TableOf, Entries, OpenMerged, StoredSpan, Merged.EntryAt, SlotsAscend, FrontAt,
      RestAt, AllAtLeast, LensOfSpans, TableLen, PackedTable;
    var table := PackedTable(spans, shape);
    var m := MergedOpened(data, spans, fps, shape, table);
    PackedTableHolds(spans, shape, |data|, fps.Some?);
    PackedLen(table, spans, shape);
    MergedOpens(data, spans, fps, shape, table);
    FitsFields(shape, spans, |data|, fps.Some?);
    OpenedParts(data, spans, fps, shape, table);
    OpenedLaid(m, data, spans, fps, shape, table);
    SlotReads(m, spans, data, fps, shape, table, i, want);
    SpillAscends(spans, shape, |spans|);
    SliceOfSlice(m.bytes, m.dataStart, m.dataEnd, spans[i].0, spans[i].1);
  }

  /** The bytes of a span, where the data starts at `at`. */
  ghost predicate KeyAt(blob: seq<byte>, at: nat, data: seq<byte>, span: Placed)
    requires span.0 + span.1 <= |data|
  {
    && at + span.0 + span.1 <= |blob|
    && blob[at + span.0..at + span.0 + span.1] == data[span.0..span.0 + span.1]
  }
}
