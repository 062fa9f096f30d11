/** The merged arena: each slot a bit-packed start and length into data where keys overlap, lengths that do
    not fit their field in an overflow table searched by slot. */
module ArenaMerged {
  import opened Lex
  import opened Bits
  import opened Wrappers
  import opened FpTable
  import opened ArenaTable
  import opened ArenaBuild
  import opened ArenaWrite
  import opened MergedShapes

  // ----- entries

  /** A length's field: its excess over the least, or all ones. */
  function LenField(len: nat, shape: MergedShape): nat
    requires len >= shape.minLen
  {
    if Escapes(len, shape.minLen, shape.lenBits) then Escape(shape.lenBits) else len - shape.minLen
  }

  /** `field | start << len_bits`. */
  function EntryVal(span: Placed, shape: MergedShape): nat
    requires span.1 >= shape.minLen
  {
    Or(LenField(span.1, shape), Shl(span.0, shape.lenBits))
  }

  ghost predicate Fit(span: Placed, shape: MergedShape) {
    && shape.minLen <= span.1 <= U32_MAX && span.0 < Pow2(shape.startBits)
    && shape.width == shape.startBits + shape.lenBits <= MAX_WIDTH
    && (shape.lenBits == 0 ==> span.1 == shape.minLen)
  }

  /** An entry fits its width and splits into its two fields. */
  lemma EntrySplits(span: Placed, shape: MergedShape)
    requires Fit(span, shape)
    ensures var e := EntryVal(span, shape);
      && e < Pow2(shape.width)
      && Shr(e, shape.lenBits) == span.0 && Low(e, shape.lenBits) == LenField(span.1, shape)
  {
    var field := LenField(span.1, shape);
    OrAbove(field, span.0, shape.lenBits);
    LowAndRestUnique(field, span.0, shape.lenBits);
    BoundAbove(field, span.0, shape.lenBits, shape.startBits);
  }

  function Entries(spans: seq<Placed>, shape: MergedShape, k: nat): (p: seq<nat>)
    requires k <= |spans| && AllAtLeast(LensOfSpans(spans), shape.minLen)
    ensures |p| == k && forall i :: 0 <= i < k ==> p[i] == EntryVal(spans[i], shape)
  {
    if k == 0 then []
    else
      assert LensOfSpans(spans)[k - 1] == spans[k - 1].1;
      Entries(spans, shape, k - 1) + [EntryVal(spans[k - 1], shape)]
  }

  /** The overflow table: the slot and length of each of the first `k` that escapes. */
  function Spill(spans: seq<Placed>, shape: MergedShape, k: nat): (s: seq<byte>)
    requires k <= |spans|
    ensures |s| == SLOT_LEN * Escaping(LensOfSpans(spans), shape.minLen, shape.lenBits, k)
  {
    if k == 0 then []
    else
      Spill(spans, shape, k - 1)
        + if Escapes(spans[k - 1].1, shape.minLen, shape.lenBits) then ToLe(k - 1, 4) + ToLe(spans[k - 1].1, 4) else []
  }

  // ----- packing

  /** Bits packed so far: the bytes pushed, and `filled` more still in `acc`. */
  ghost predicate Packing(bytes: seq<byte>, acc: nat, filled: nat, p: seq<nat>, width: nat) {
    && acc < Pow2(filled)
    && 8 * |bytes| + filled == Times(|p|, width)
    && Val(bytes) + Shl(acc, 8 * |bytes|) == TableVal(p, width)
  }

  lemma PackingStart(width: nat)
    ensures Packing([], 0, 0, [], width)
  {
  }

  /** An entry or-ed in above what is there; the accumulator never holds more than 64 bits. */
  lemma PackingEntry(bytes: seq<byte>, acc: nat, filled: nat, p: seq<nat>, width: nat, e: nat)
    requires Packing(bytes, acc, filled, p, width) && e < Pow2(width)
    ensures filled + width <= 64 ==> Or(acc, Shl(e, filled)) < Pow2(64)
    ensures Packing(bytes, Or(acc, Shl(e, filled)), filled + width, p + [e], width)
  {
    hide TableVal, Val, Shl, Or, Pow2, Times;
    OrAbove(acc, e, filled);
    BoundAbove(acc, e, filled, width);
    EntryAppended(bytes, acc, filled, p, width, e);
    TimesAdd(|p|, 1, width);
    TimesOnce(width);
    if filled + width <= 64 {
      Pow2Monotone(filled + width, 64);
    }
  }

  lemma EntryAppended(bytes: seq<byte>, acc: nat, filled: nat, p: seq<nat>, width: nat, e: nat)
    requires Packing(bytes, acc, filled, p, width)
    ensures Val(bytes) + Shl(acc + Shl(e, filled), 8 * |bytes|) == TableVal(p + [e], width)
  {
    hide Val, Shl, Pow2, Times;
    TableConcat(p, [e], width);
    assert TableVal([e], width) == e by { TableOfOne(e, width); }
    ShlAdd(acc, Shl(e, filled), 8 * |bytes|);
    ShlShl(e, filled, 8 * |bytes|);
  }

  lemma TimesOnce(k: nat)
    ensures Times(1, k) == k
  {
  }

  lemma TableOfOne(e: nat, width: nat)
    ensures TableVal([e], width) == e
  {
    assert TableVal([], width) == 0;
    ShlAdd(0, 0, width);
  }

  /** A whole byte pushed. */
  lemma PackingByte(bytes: seq<byte>, acc: nat, filled: nat, p: seq<nat>, width: nat)
    requires Packing(bytes, acc, filled, p, width) && filled >= 8
    ensures Packing(bytes + [acc % 256], acc / 256, filled - 8, p, width)
  {
    ByteShifts(0, 0, filled - 8);
    BytePushed(bytes, acc);
  }

  lemma ShlByte(acc: nat, n: nat)
    ensures Shl(acc, n) == Shl(acc % 256, n) + Shl(acc / 256, 8 + n)
  {
    hide Shl;
    var high := acc / 256;
    ByteShifts(high, 0, 0);
    assert Shl(high, 0) == high by {
      ShlNone(high);
    }
    ShlShl(high, 8, n);
    ShlAdd(acc % 256, 256 * high, n);
  }

  lemma ValOne(b: byte)
    ensures Val([b]) == b
  {
  }

  lemma BytePushed(bytes: seq<byte>, acc: nat)
    ensures Val(bytes + [acc % 256]) + Shl(acc / 256, 8 * (|bytes| + 1)) == Val(bytes) + Shl(acc, 8 * |bytes|)
  {
    hide Shl, Val, Pow2;
    ValConcat(bytes, [acc % 256]);
    ValOne(acc % 256);
    ShlByte(acc, 8 * |bytes|);
  }

  /** The last byte, part filled. */
  lemma PackingEnds(bytes: seq<byte>, acc: nat, filled: nat, p: seq<nat>, width: nat)
    requires Packing(bytes, acc, filled, p, width) && filled < 8 && AllFit(p, width)
    ensures TableOf(if filled > 0 then bytes + [acc % 256] else bytes, p, width)
  {
    if filled > 0 {
      Pow2Monotone(filled, 8);
      ByteShifts(0, 0, 0);
      BytePushed(bytes, acc);
      assert acc / 256 == 0;
    }
  }

  /** Every whole byte of the accumulator pushed. */
  method PushBytes(bytes: seq<byte>, acc: nat, filled: nat, ghost p: seq<nat>, ghost width: nat)
    returns (out: seq<byte>, left: nat, over: nat)
    requires Packing(bytes, acc, filled, p, width)
    ensures Packing(out, left, over, p, width) && over < 8
  {
    out, left, over := bytes, acc, filled;
    while over >= 8
      invariant Packing(out, left, over, p, width)
    {
      PackingByte(out, left, over, p, width);
      out, left, over := out + [left % 256], left / 256, over - 8;
    }
  }

  lemma FitsEach(shape: MergedShape, spans: seq<Placed>, dataLen: nat, fp: bool, i: nat)
    requires Fits(shape, spans, dataLen, fp) && i < |spans|
    ensures Fit(spans[i], shape)
  {
    assert LensOfSpans(spans)[i] == spans[i].1;
  }

  /** One slot's entry, and its place in the overflow table where its length escapes. */
  method EntryFor(spans: seq<Placed>, slot: nat, shape: MergedShape, overflow: seq<byte>)
    returns (entry: nat, spilled: seq<byte>)
    requires slot < |spans| && Fit(spans[slot], shape) && overflow == Spill(spans, shape, slot)
    ensures entry == EntryVal(spans[slot], shape) && entry < Pow2(shape.width)
    ensures spilled == Spill(spans, shape, slot + 1)
  {
    var (start, len) := spans[slot];
    EntrySplits(spans[slot], shape);
    var excess, field := len - shape.minLen, 0;
    if shape.lenBits > 0 && excess >= Escape(shape.lenBits) {
      spilled := overflow + (ToLe(slot, 4) + ToLe(len, 4));
      field := Escape(shape.lenBits);
    } else {
      spilled := overflow;
      field := excess;
    }
    entry := Or(field, Shl(start, shape.lenBits));
  }

  /** One slot's entry pushed, and its length spilled where it escapes. */
  method PackSlot(spans: seq<Placed>, slot: nat, shape: MergedShape, table0: seq<byte>, acc0: nat, filled0: nat,
                  overflow0: seq<byte>, ghost p: seq<nat>)
    returns (table: seq<byte>, acc: nat, filled: nat, overflow: seq<byte>)
    requires slot < |spans| && Fit(spans[slot], shape) && AllAtLeast(LensOfSpans(spans), shape.minLen)
    requires p == Entries(spans, shape, slot) && AllFit(p, shape.width)
    requires Packing(table0, acc0, filled0, p, shape.width) && overflow0 == Spill(spans, shape, slot)
    ensures Packing(table, acc, filled, Entries(spans, shape, slot + 1), shape.width) && filled < 8
    ensures overflow == Spill(spans, shape, slot + 1) && AllFit(Entries(spans, shape, slot + 1), shape.width)
  {
    hide Packing, Fit, EntryVal, Spill, Escapes, Or, Shl, Pow2;
    var entry;
    entry, overflow := EntryFor(spans, slot, shape, overflow0);
    PackingEntry(table0, acc0, filled0, p, shape.width, entry);
    assert Entries(spans, shape, slot + 1) == p + [entry];
    table, acc, filled :=
      PushBytes(table0, Or(acc0, Shl(entry, filled0)), filled0 + shape.width, p + [entry], shape.width);
  }

  /** The entries packed end to end, and the lengths that escaped. */
  method Pack(spans: seq<Placed>, shape: MergedShape, ghost dataLen: nat, ghost fp: bool)
    returns (table: seq<byte>, overflow: seq<byte>)
    requires Fits(shape, spans, dataLen, fp)
    ensures AllAtLeast(LensOfSpans(spans), shape.minLen)
    ensures TableOf(table, Entries(spans, shape, |spans|), shape.width)
    ensures overflow == Spill(spans, shape, |spans|)
  {
    hide Packing, Fits, Fit, TableOf;
    var acc: nat, filled: nat := 0, 0;
    table, overflow := [], [];
    PackingStart(shape.width);
    FitsAtLeast(shape, spans, dataLen, fp);
    for slot := 0 to |spans|
      invariant AllFit(Entries(spans, shape, slot), shape.width)
      invariant Packing(table, acc, filled, Entries(spans, shape, slot), shape.width) && filled < 8
      invariant overflow == Spill(spans, shape, slot)
    {
      FitsEach(shape, spans, dataLen, fp, slot);
      table, acc, filled, overflow :=
        PackSlot(spans, slot, shape, table, acc, filled, overflow, Entries(spans, shape, slot));
    }
    PackingEnds(table, acc, filled, Entries(spans, shape, |spans|), shape.width);
    if filled > 0 {
      table := table + [acc % 256];
    }
  }

  lemma FitsAtLeast(shape: MergedShape, spans: seq<Placed>, dataLen: nat, fp: bool)
    requires Fits(shape, spans, dataLen, fp)
    ensures AllAtLeast(LensOfSpans(spans), shape.minLen)
  {
  }

  // ----- the whole arena

  function MergedTag(fps: Option<seq<byte>>, shape: MergedShape): Tag {
    Tag(MERGED, false, shape.escaped > 0, fps.Some?)
  }

  /** `[min_len u32][len_bits u8][start_bits u8][data_len u64]`. */
  function Params(shape: MergedShape, dataLen: nat): (s: seq<byte>)
    requires shape.startBits + shape.lenBits <= MAX_WIDTH
    ensures |s| == PARAMS
  {
    ToLe(shape.minLen, 4) + [shape.lenBits as byte, shape.startBits as byte] + ToLe(dataLen, 8)
  }

  function FpBytes(fps: Option<seq<byte>>): seq<byte> {
    if fps.Some? then fps.value else []
  }

  function Zeros(k: nat): (s: seq<byte>)
    ensures |s| == k
  {
    seq(k, _ => 0)
  }

  /** All that lies before the data. */
  function Front(n: nat, fps: Option<seq<byte>>, shape: MergedShape, dataLen: nat, table: seq<byte>): seq<byte>
    requires shape.startBits + shape.lenBits <= MAX_WIDTH
  {
    Head(n, MergedTag(fps, shape)) + Params(shape, dataLen) + FpBytes(fps) + table + Zeros(PAD)
  }

  function MergedTail(spilled: seq<byte>): seq<byte> {
    if spilled == [] then [] else spilled + ToLe(|spilled|, TRAILER)
  }

  /** The packed entries: one number, its low entry first, in as many bytes as its bits take. */
  function PackedTable(spans: seq<Placed>, shape: MergedShape): seq<byte>
    requires AllAtLeast(LensOfSpans(spans), shape.minLen)
  {
    ToLe(TableVal(Entries(spans, shape, |spans|), shape.width), TableLen(|spans|, shape.width))
  }

  /** The merged arena as bytes, a function of the superstring, the spans and the shape. */
  function MergedBytes(data: seq<byte>, spans: seq<Placed>, fps: Option<seq<byte>>, shape: MergedShape): seq<byte>
    requires AllAtLeast(LensOfSpans(spans), shape.minLen) && shape.startBits + shape.lenBits <= MAX_WIDTH
  {
    Front(|spans|, fps, shape, |data|, PackedTable(spans, shape)) + data + MergedTail(Spill(spans, shape, |spans|))
  }

  lemma PackedTableIs(table: seq<byte>, spans: seq<Placed>, shape: MergedShape)
    requires AllAtLeast(LensOfSpans(spans), shape.minLen) && TableOf(table, Entries(spans, shape, |spans|), shape.width)
    ensures table == PackedTable(spans, shape)
  {
    ToLeVal(table);
  }

  /** Every entry fitting its width, they are a table of that width. */
  lemma PackedTableHolds(spans: seq<Placed>, shape: MergedShape, dataLen: nat, fp: bool)
    requires Fits(shape, spans, dataLen, fp)
    ensures AllAtLeast(LensOfSpans(spans), shape.minLen)
    ensures TableOf(PackedTable(spans, shape), Entries(spans, shape, |spans|), shape.width)
  {
    hide Fits, EntryVal, Fit;
    FitsAtLeast(shape, spans, dataLen, fp);
    var p := Entries(spans, shape, |spans|);
    forall i | 0 <= i < |p|
      ensures p[i] < Pow2(shape.width)
    {
      FitsEach(shape, spans, dataLen, fp, i);
      EntrySplits(spans[i], shape);
    }
    TableBound(p, shape.width);
    Pow2Monotone(Times(|p|, shape.width), 8 * TableLen(|p|, shape.width));
    ToLeReadsBack(TableVal(p, shape.width), TableLen(|p|, shape.width));
  }

  /** The superstring's arena: header, entries and padding put before it, in its own buffer, and the
      overflow table after it; exactly as long as the shape foretold. */
  method LayOutMerged(data: seq<byte>, spans: seq<Placed>, fps: Option<seq<byte>>, shape: MergedShape)
    returns (blob: seq<byte>)
    requires Fits(shape, spans, |data|, fps.Some?) && (fps.Some? ==> |fps.value| == |spans|)
    ensures AllAtLeast(LensOfSpans(spans), shape.minLen) && shape.startBits + shape.lenBits <= MAX_WIDTH
    ensures blob == MergedBytes(data, spans, fps, shape)
    ensures |blob| == shape.bytes
  {
    hide Head, Spill, Entries, TableOf, Front, Fits;
    FitsFields(shape, spans, |data|, fps.Some?);
    var packed, overflow := Pack(spans, shape, |data|, fps.Some?);
    PackedTableIs(packed, spans, shape);
    var front := WriteFront(|spans|, fps, shape, |data|, packed);
    blob := BehindFront(data, front);
    if shape.escaped > 0 {
      overflow := overflow + ToLe(|overflow|, 8);
      blob := blob + overflow;
    }
    PackedLen(packed, spans, shape);
    LengthForetold(spans, fps, shape, |data|, packed, blob);
  }

  /** The merged arena, made exactly where its least shape takes less than `beat`; and the shape itself, where
      the spans have one. */
  method BuildMerged(data: seq<byte>, spans: seq<Placed>, fps: Option<seq<byte>>, beat: Option<nat>)
    returns (r: Option<seq<byte>>, shape: Option<MergedShape>)
    requires AllAtLeast(LensOfSpans(spans), 0) && |spans| <= MAX_SLOTS && |data| < HALF_USIZE
    ensures shape.Some? ==> spans != [] && Fits(shape.value, spans, |data|, fps.Some?)
    ensures shape.Some? ==> Least(shape.value, spans, |data|, fps.Some?)
    ensures shape.None? ==> spans == [] || NoneFits(spans, |data|, fps.Some?)
    ensures r.Some? <==> (
      && (fps.Some? ==> |fps.value| == |spans|)
      && shape.Some? && (beat.Some? ==> shape.value.bytes < beat.value))
    ensures r.Some? ==>
      && |r.value| == shape.value.bytes
      && AllAtLeast(LensOfSpans(spans), shape.value.minLen)
      && shape.value.startBits + shape.value.lenBits <= MAX_WIDTH
      && r.value == MergedBytes(data, spans, fps, shape.value)
  {
    hide MergedBytes, Fits, Least, AllAtLeast, NoneFits;
    shape := ShapeOf(spans, |data|, fps.Some?);
    if fps.Some? && |fps.value| != |spans| {
      return None, shape;
    }
    if shape.None? || (beat.Some? && shape.value.bytes >= beat.value) {
      return None, shape;
    }
    var blob := LayOutMerged(data, spans, fps, shape.value);
    r := Some(blob);
  }

  lemma FitsFields(shape: MergedShape, spans: seq<Placed>, dataLen: nat, fp: bool)
    requires Fits(shape, spans, dataLen, fp)
    ensures AllAtLeast(LensOfSpans(spans), shape.minLen) && shape.startBits + shape.lenBits == shape.width <= MAX_WIDTH
    ensures shape.startBits >= 1
  {
  }

  method WriteFront(n: nat, fps: Option<seq<byte>>, shape: MergedShape, dataLen: nat, table: seq<byte>)
    returns (front: seq<byte>)
    requires shape.startBits + shape.lenBits <= MAX_WIDTH
    ensures front == Front(n, fps, shape, dataLen, table)
  {
    hide Head;
    var tag := MergedTag(fps, shape);
    front := ToLe(n + 1, 8) + [tag.Byte()];
    HeadIs(n, tag);
    ghost var head := front;
    front := front + (ToLe(shape.minLen, 4) + [shape.lenBits as byte, shape.startBits as byte] + ToLe(dataLen, 8));
    assert front == Head(n, tag) + Params(shape, dataLen);
    if fps.Some? {
      front := front + fps.value;
    }
    front := front + table;
    front := front + Zeros(PAD);
  }

  lemma HeadIs(n: nat, tag: Tag)
    requires tag.layout < 0x20
    ensures Head(n, tag) == ToLe(n + 1, 8) + [tag.Byte()]
  {
  }

  /** The data moved back inside its own buffer to make room for the front. */
  method BehindFront(data: seq<byte>, front: seq<byte>) returns (blob: seq<byte>)
    ensures blob == front + data
  {
    var buffer := new Buffer();
    buffer.Extend(data);
    MoveData(buffer, 0, |data|, |front|);
    ghost var moved := buffer.bytes;
    buffer.Put(0, front);
    blob := buffer.bytes;
    assert moved[|front|..] == data;
  }

  lemma PackedLen(table: seq<byte>, spans: seq<Placed>, shape: MergedShape)
    requires AllAtLeast(LensOfSpans(spans), shape.minLen) && TableOf(table, Entries(spans, shape, |spans|), shape.width)
    ensures |table| == TableLen(|spans|, shape.width)
  {
  }

  lemma FrontLen(n: nat, fps: Option<seq<byte>>, shape: MergedShape, dataLen: nat, table: seq<byte>)
    requires shape.startBits + shape.lenBits <= MAX_WIDTH
    ensures |Front(n, fps, shape, dataLen, table)| == HEADER + PARAMS + |FpBytes(fps)| + |table| + PAD
  {
    hide Head, Params;
  }

  lemma LengthForetold(spans: seq<Placed>, fps: Option<seq<byte>>, shape: MergedShape, dataLen: nat, table: seq<byte>,
                       blob: seq<byte>)
    requires Fits(shape, spans, dataLen, fps.Some?) && (fps.Some? ==> |fps.value| == |spans|)
    requires |table| == TableLen(|spans|, shape.width)
    requires |blob| == |Front(|spans|, fps, shape, dataLen, table)| + dataLen
      + (if shape.escaped > 0 then |Spill(spans, shape, |spans|)| + TRAILER else 0)
    ensures |blob| == shape.bytes
    ensures shape.escaped > 0 <==> Spill(spans, shape, |spans|) != []
  {
    hide Front, Spill, Escaping, Times;
    FrontLen(|spans|, fps, shape, dataLen, table);
    TimesIsProduct(|spans|, shape.width);
  }
}
