/** Writing the string arena in place: the offsets over an already-sized prefix, and the keys streamed
    behind a header that is only a guess until the last one is in. */
module ArenaWrite {
  import opened Lex
  import opened Bits
  import opened Wrappers
  import opened ArenaTable
  import opened ArenaBuild

  /** A growing byte buffer: what the source writes through `Vec<u8>`. */
  class Buffer {
    var bytes: seq<byte>

    constructor ()
      ensures bytes == []
    {
      bytes := [];
    }

    /** `self[at..at + piece.len()].copy_from_slice(piece)`. */
    method Put(at: nat, piece: seq<byte>)
      requires at + |piece| <= |bytes|
      modifies this
      ensures bytes == old(bytes)[..at] + piece + old(bytes)[at + |piece|..]
    {
      bytes := bytes[..at] + piece + bytes[at + |piece|..];
    }

    method Extend(piece: seq<byte>)
      modifies this
      ensures bytes == old(bytes) + piece
    {
      bytes := bytes + piece;
    }

    method Resize(len: nat)
      modifies this
      ensures |bytes| == len
      ensures len >= |old(bytes)| ==> bytes == old(bytes) + seq(len - |old(bytes)|, _ => 0)
      ensures len < |old(bytes)| ==> bytes == old(bytes)[..len]
    {
      bytes := if len < |bytes| then bytes[..len] else bytes + seq(len - |bytes|, _ => 0);
    }

    /** `copy_within`, which overlapping ranges do not disturb. */
    method CopyWithin(from: nat, len: nat, to: nat)
      requires from + len <= |bytes| && to + len <= |bytes|
      modifies this
      ensures bytes == old(bytes)[..to] + old(bytes)[from..from + len] + old(bytes)[to + len..]
    {
      bytes := bytes[..to] + bytes[from..from + len] + bytes[to + len..];
    }
  }

  /** `was` with `done` laid over it from `at` on. */
  ghost predicate Laid(now: seq<byte>, was: seq<byte>, at: nat, done: seq<byte>) {
    at + |done| <= |was| && now == was[..at] + done + was[at + |done|..]
  }

  /** Two stretches laid one after the other are one. */
  lemma LaidTwice(now: seq<byte>, mid: seq<byte>, was: seq<byte>, at: nat, a: seq<byte>, b: seq<byte>)
    requires Laid(mid, was, at, a) && Laid(now, mid, at + |a|, b)
    ensures Laid(now, was, at, a + b)
  {
    assert mid[..at + |a|] == was[..at] + a;
    assert mid[at + |a| + |b|..] == was[at + |a| + |b|..];
    assert now == was[..at] + (a + b) + was[at + |a + b|..];
  }

  lemma LaidNothing(was: seq<byte>, at: nat)
    requires at <= |was|
    ensures Laid(was, was, at, [])
  {
  }

  /** A row of cumulative offsets, cut to `w` bytes each. */
  method PutRow(blob: Buffer, at: nat, lens: seq<nat>, start: nat, count: nat, w: nat)
    requires at + Times(count, w) <= |blob.bytes|
    modifies blob
    ensures Laid(blob.bytes, old(blob.bytes), at, Row(lens, start, count, w))
  {
    ghost var was := blob.bytes;
    LaidNothing(was, at);
    var off, p := 0, at;
    for k := 0 to count
      invariant p == at + Times(k, w) && off == Run(lens, start, k)
      invariant Laid(blob.bytes, was, at, Row(lens, start, k, w))
    {
      TimesMonotone(k + 1, count, w);
      ghost var mid := blob.bytes;
      blob.Put(p, ToLe(off, w));
      LaidTwice(blob.bytes, mid, was, at, Row(lens, start, k, w), ToLe(off, w));
      off := off + LenAt(lens, start + k);
      p := p + w;
    }
  }

  /** The mark of a block whose offsets are in the overflow table: all ones for its first offset, the
      entry's index, and zeros to the end of the row. */
  method PutMark(blob: Buffer, at: nat, tag: Tag, index: nat)
    requires at + tag.RowBytes() <= |blob.bytes|
    modifies blob
    ensures tag.Width() + tag.Base() <= tag.RowBytes()
    ensures Laid(blob.bytes, old(blob.bytes), at,
                 seq(tag.Width(), _ => 0xFF) + ToLe(index, tag.Base()) + seq(tag.RowBytes() - tag.Width() - tag.Base(), _ => 0))
  {
    RowRoom(tag);
    ghost var was := blob.bytes;
    var ones: seq<byte> := seq(tag.Width(), _ => 0xFF);
    blob.Put(at, ones);
    ghost var mid := blob.bytes;
    blob.Put(at + tag.Width(), ToLe(index, tag.Base()));
    LaidTwice(blob.bytes, mid, was, at, ones, ToLe(index, tag.Base()));
    mid := blob.bytes;
    var zeros: seq<byte> := seq(tag.RowBytes() - tag.Width() - tag.Base(), _ => 0);
    blob.Put(at + tag.Width() + tag.Base(), zeros);
    LaidTwice(blob.bytes, mid, was, at, ones + ToLe(index, tag.Base()), zeros);
  }

  method PutFps(blob: Buffer, at: nat, fps: Option<seq<byte>>, start: nat, count: nat)
    requires at + count <= |blob.bytes|
    modifies blob
    ensures Laid(blob.bytes, old(blob.bytes), at, FpRow(fps, start, count))
  {
    hide FpAt;
    ghost var was := blob.bytes;
    LaidNothing(was, at);
    for k := 0 to count
      invariant Laid(blob.bytes, was, at, FpRow(fps, start, k))
    {
      ghost var mid := blob.bytes;
      blob.Put(at + k, [FpAt(fps, start + k)]);
      LaidTwice(blob.bytes, mid, was, at, FpRow(fps, start, k), [FpAt(fps, start + k)]);
    }
  }

  method Total(lens: seq<nat>, start: nat, count: nat) returns (total: nat)
    ensures total == Run(lens, start, count)
  {
    total := 0;
    for k := 0 to count
      invariant total == Run(lens, start, k)
    {
      total := total + LenAt(lens, start + k);
    }
  }

  /** An overflow entry. */
  method EntryRow(lens: seq<nat>, start: nat, count: nat, w: nat) returns (row: seq<byte>)
    ensures row == Row(lens, start, count, w)
  {
    row := [];
    var off := 0;
    for k := 0 to count
      invariant row == Row(lens, start, k, w) && off == Run(lens, start, k)
    {
      row := row + ToLe(off, w);
      off := off + LenAt(lens, start + k);
    }
  }

  lemma IndexFromLength(tag: Tag, index: nat)
    ensures tag.EntryBytes() > 0
    ensures Times(index, tag.EntryBytes()) / tag.EntryBytes() == index
  {
    TimesBytes(tag.Slots() + 1, 1);
    TimesIsProduct(index, tag.EntryBytes());
  }

  /** Block `j`'s row of offsets, or its mark and an overflow entry. */
  method PutOffsets(blob: Buffer, at: nat, tag: Tag, lens: seq<nat>, ghost j: nat, start: nat, total: nat,
                    overflow: seq<byte>)
    returns (spilled: seq<byte>)
    requires at + tag.RowBytes() <= |blob.bytes|
    requires start == Times(j, tag.Slots()) && total == Run(lens, start, tag.Slots()) && overflow == Spilled(lens, tag, j)
    modifies blob
    ensures Laid(blob.bytes, old(blob.bytes), at, OffsetRow(lens, tag, j))
    ensures spilled == Spilled(lens, tag, j + 1)
  {
    hide Row, ToLe, Laid, Run, Times;
    if total > tag.Most() {
      IndexFromLength(tag, Index(lens, tag, j));
      PutMark(blob, at, tag, |overflow| / tag.EntryBytes());
      var entry := EntryRow(lens, start, tag.Slots() + 1, tag.Base());
      spilled := overflow + entry;
    } else {
      PutRow(blob, at, lens, start, tag.Slots() + 1, tag.Width());
      spilled := overflow;
    }
  }

  /** Block `j`. */
  method PutBlock(blob: Buffer, at: nat, tag: Tag, lens: seq<nat>, fps: Option<seq<byte>>, ghost j: nat, start: nat,
                  base: nat, overflow: seq<byte>)
    returns (total: nat, spilled: seq<byte>)
    requires at + tag.BlockBytes() <= |blob.bytes|
    requires start == Times(j, tag.Slots()) && base == Run(lens, 0, start) && overflow == Spilled(lens, tag, j)
    modifies blob
    ensures Laid(blob.bytes, old(blob.bytes), at, Block(lens, fps, tag, j))
    ensures total == Run(lens, start, tag.Slots()) && spilled == Spilled(lens, tag, j + 1)
  {
    hide Row, FpRow, ToLe, Spilled, Laid, OffsetRow, Run, Times, Index;
    ghost var was := blob.bytes;
    PutBase(blob, at, base, tag.Base());
    ghost var mid := blob.bytes;
    LaidLen(mid, was, at, ToLe(base, tag.Base()));
    total := Total(lens, start, tag.Slots());
    spilled := PutOffsets(blob, at + tag.Base(), tag, lens, j, start, total, overflow);
    LaidTwice(blob.bytes, mid, was, at, ToLe(base, tag.Base()), OffsetRow(lens, tag, j));
    LaidLen(blob.bytes, was, at, ToLe(base, tag.Base()) + OffsetRow(lens, tag, j));
    ghost var front := ToLe(base, tag.Base()) + OffsetRow(lens, tag, j);
    if tag.fp {
      mid := blob.bytes;
      PutFps(blob, at + tag.Base() + tag.RowBytes(), fps, start, tag.Slots());
      LaidTwice(blob.bytes, mid, was, at, front, FpRow(fps, start, tag.Slots()));
    } else {
      assert front + [] == front;
    }
  }

  lemma LaidLen(now: seq<byte>, was: seq<byte>, at: nat, done: seq<byte>)
    requires Laid(now, was, at, done)
    ensures |now| == |was|
  {
  }

  method PutBase(blob: Buffer, at: nat, base: nat, w: nat)
    requires at + w <= |blob.bytes|
    modifies blob
    ensures Laid(blob.bytes, old(blob.bytes), at, ToLe(base, w))
  {
    blob.Put(at, ToLe(base, w));
  }

  lemma BlocksForIs(tag: Tag, j: nat, n: nat)
    ensures Times(j, tag.Slots()) < n <==> j < tag.BlocksFor(n)
  {
    TimesIsProduct(j, tag.Slots());
  }

  /** One block more. */
  method PutNext(blob: Buffer, at: nat, tag: Tag, lens: seq<nat>, fps: Option<seq<byte>>, ghost j: nat, start: nat,
                 base: nat, overflow: seq<byte>, ghost was: seq<byte>)
    returns (next: nat, spilled: seq<byte>)
    requires at == HEADER + Times(j, tag.BlockBytes()) && HEADER + Times(j + 1, tag.BlockBytes()) <= |blob.bytes| == |was|
    requires start == Times(j, tag.Slots()) && base == Run(lens, 0, start) && overflow == Spilled(lens, tag, j)
    requires Laid(blob.bytes, was, HEADER, Blocks(lens, fps, tag, j))
    modifies blob
    ensures |blob.bytes| == |was| && Laid(blob.bytes, was, HEADER, Blocks(lens, fps, tag, j + 1))
    ensures next == Run(lens, 0, start + tag.Slots()) && spilled == Spilled(lens, tag, j + 1)
  {
    hide Block, Laid, Spilled;
    ghost var mid := blob.bytes;
    var total;
    total, spilled := PutBlock(blob, at, tag, lens, fps, j, start, base, overflow);
    LaidLen(blob.bytes, mid, at, Block(lens, fps, tag, j));
    LaidTwice(blob.bytes, mid, was, HEADER, Blocks(lens, fps, tag, j), Block(lens, fps, tag, j));
    RunSplit(lens, 0, start, tag.Slots());
    next := base + total;
  }

  /** Every block, over whatever the prefix held. */
  method PutBlocks(blob: Buffer, tag: Tag, lens: seq<nat>, fps: Option<seq<byte>>) returns (overflow: seq<byte>)
    requires tag.Blocked() && PrefixSize(tag, |lens|) <= |blob.bytes|
    modifies blob
    ensures Laid(blob.bytes, old(blob.bytes), HEADER, Blocks(lens, fps, tag, tag.BlocksFor(|lens|)))
    ensures overflow == Spilled(lens, tag, tag.BlocksFor(|lens|))
  {
    hide Block, Laid, Spilled, Tag.Blocked;
    ghost var was, m, size := blob.bytes, tag.BlocksFor(|lens|), tag.BlockBytes();
    LaidNothing(was, HEADER);
    overflow := [];
    var start, at, base := 0, HEADER, 0;
    ghost var j := 0;
    BlocksForIs(tag, j, |lens|);
    while start < |lens|
      invariant start == Times(j, tag.Slots()) && at == HEADER + Times(j, size) && base == Run(lens, 0, start)
      invariant j <= m && (start < |lens| <==> j < m)
      invariant |blob.bytes| == |was| && Laid(blob.bytes, was, HEADER, Blocks(lens, fps, tag, j))
      invariant overflow == Spilled(lens, tag, j)
      decreases m - j
    {
      TimesMonotone(j + 1, m, size);
      base, overflow := PutNext(blob, at, tag, lens, fps, j, start, base, overflow, was);
      start := start + tag.Slots();
      at := at + tag.BlockBytes();
      j := j + 1;
      BlocksForIs(tag, j, |lens|);
    }
  }

  /** The flat table. */
  method PutFlat(blob: Buffer, tag: Tag, lens: seq<nat>, fps: Option<seq<byte>>)
    requires !tag.Blocked() && PrefixSize(tag, |lens|) <= |blob.bytes|
    modifies blob
    ensures Laid(blob.bytes, old(blob.bytes), HEADER, FlatTable(lens, fps, tag))
  {
    hide Row, FpRow;
    ghost var was := blob.bytes;
    ghost var row := Row(lens, 0, |lens| + 1, tag.layout);
    PutRow(blob, HEADER, lens, 0, |lens| + 1, tag.layout);
    if tag.fp {
      ghost var mid := blob.bytes;
      PutFps(blob, HEADER + Times(|lens| + 1, tag.layout), fps, 0, |lens|);
      LaidTwice(blob.bytes, mid, was, HEADER, row, FpRow(fps, 0, |lens|));
    } else {
      assert row + [] == row;
    }
  }

  /** Write the offsets of these lengths over whatever the prefix held, and hand back what belongs behind the
      data. */
  method WriteOffsets(blob: Buffer, tag: Tag, lens: seq<nat>, fps: Option<seq<byte>>) returns (tail: seq<byte>)
    requires PrefixSize(tag, |lens|) <= |blob.bytes|
    modifies blob
    ensures Laid(blob.bytes, old(blob.bytes), HEADER, Table(lens, fps, tag))
    ensures tail == Tail(lens, tag)
  {
    hide Blocks, FlatTable, Laid, Spilled;
    if !tag.Blocked() {
      PutFlat(blob, tag, lens, fps);
      tail := [];
    } else {
      tail := PutBlocks(blob, tag, lens, fps);
    }
    if tag.overflow {
      tail := tail + ToLe(|tail|, TRAILER);
    }
  }

  method WriteHead(blob: Buffer, n: nat, tag: Tag)
    requires tag.layout < 0x20 && |blob.bytes| >= HEADER
    modifies blob
    ensures Laid(blob.bytes, old(blob.bytes), 0, Head(n, tag))
  {
    ghost var was := blob.bytes;
    blob.Put(0, ToLe(n + 1, 8));
    ghost var mid := blob.bytes;
    blob.Put(8, [tag.Byte()]);
    LaidTwice(blob.bytes, mid, was, 0, ToLe(n + 1, 8), [tag.Byte()]);
  }

  /** The data moved from `from` to `to`, the buffer growing or shrinking to match. */
  method MoveData(blob: Buffer, from: nat, dataLen: nat, to: nat)
    requires |blob.bytes| == from + dataLen
    modifies blob
    ensures |blob.bytes| == to + dataLen && blob.bytes[to..] == old(blob.bytes)[from..]
  {
    ghost var data := blob.bytes[from..];
    if to > from {
      blob.Resize(to + dataLen);
      assert blob.bytes[from..from + dataLen] == data;
    }
    blob.CopyWithin(from, dataLen, to);
    blob.Resize(to + dataLen);
    assert blob.bytes[to..] == data;
  }

  /** The keys streamed behind a prefix of `optimistic` bytes, until the count is overrun or a key is too
      long for any layout. */
  method StreamKeys(blob: Buffer, items: seq<seq<byte>>, n: nat, optimistic: nat) returns (lens: Option<seq<nat>>)
    requires |blob.bytes| == optimistic
    modifies blob
    ensures lens.Some? <==> n == |items| && AllShort(items)
    ensures lens.Some? ==> lens.value == LensOf(items)
    ensures lens.Some? ==>
      |blob.bytes| == optimistic + |Joined(items, |items|)| && blob.bytes[optimistic..] == Joined(items, |items|)
  {
    var got: seq<nat> := [];
    for i := 0 to |items|
      invariant |got| == i <= n && forall k :: 0 <= k < i ==> got[k] == |items[k]| <= U32_MAX
      invariant |blob.bytes| == optimistic + |Joined(items, i)| && blob.bytes[optimistic..] == Joined(items, i)
    {
      if |got| == n {
        return None;
      }
      blob.Extend(items[i]);
      if |items[i]| > U32_MAX {
        return None;
      }
      got := got + [|items[i]|];
    }
    if |got| != n {
      return None;
    }
    assert got == LensOf(items);
    lens := Some(got);
  }

  /** The header filled in over what lies before the data, and the tail put behind it: every byte before
      the data is written, so nothing stale is left. */
  method Finish(blob: Buffer, items: seq<seq<byte>>, lens: seq<nat>, fps: Option<seq<byte>>, tag: Tag)
    requires lens == LensOf(items) && tag.layout < 0x20
    requires |blob.bytes| == PrefixSize(tag, |lens|) + |Joined(items, |items|)|
    requires blob.bytes[PrefixSize(tag, |lens|)..] == Joined(items, |items|)
    modifies blob
    ensures blob.bytes == ArenaUnder(items, fps, tag)
  {
    hide Head, Table, Tail, Joined;
    ghost var needed := PrefixSize(tag, |lens|);
    ghost var was := blob.bytes;
    WriteHead(blob, |lens|, tag);
    ghost var mid := blob.bytes;
    var tail := WriteOffsets(blob, tag, lens, fps);
    LaidTwice(blob.bytes, mid, was, 0, Head(|lens|, tag), Table(lens, fps, tag));
    assert was[0..0] == [];
    assert blob.bytes == Head(|lens|, tag) + Table(lens, fps, tag) + was[needed..];
    blob.Extend(tail);
  }

  /** The whole arena, each key read once; none where there are not `n` keys or one is too long. The length is a
      hint only: a wrong one changes no byte. */
  method LayOutBlocked(items: seq<seq<byte>>, n: nat, dataLen: nat, fps: Option<seq<byte>>, limit: nat)
    returns (r: Option<seq<byte>>)
    requires limit <= U32_MAX && InMemory(items)
    ensures r.Some? <==> n == |items| && AllShort(items)
    ensures r.Some? ==> r.value == ArenaOf(items, fps, limit)
  {
    hide PrefixSize, ArenaUnder;
    var optimistic := PrefixLen(Tag(BLOCK_U8, dataLen > limit, false, fps.Some?), n);
    if optimistic.None? {
      OnlyTooMany(Tag(BLOCK_U8, dataLen > limit, false, fps.Some?), n);
      return None;
    }
    var blob := new Buffer();
    blob.Resize(optimistic.value);
    var lens := StreamKeys(blob, items, n, optimistic.value);
    if lens.None? {
      return None;
    }
    var written := |blob.bytes| - optimistic.value;
    JoinedLen(items, |items|);
    TagForSuits(lens.value, fps.Some?, limit);
    var tag := TagFor(lens.value, written, fps.Some?, limit);
    var needed := PrefixLen(tag, n);
    PrefixFits(tag, n);
    if needed.value != optimistic.value {
      MoveData(blob, optimistic.value, written, needed.value);
    }
    Finish(blob, items, lens.value, fps, tag);
    r := Some(blob.bytes);
  }

  lemma OnlyTooMany(tag: Tag, n: nat)
    requires tag.Blocked() && PrefixSize(tag, n) >= USIZE
    ensures n >= KEYS_END
  {
    if n < KEYS_END {
      PrefixFits(tag, n);
    }
  }

  method Assemble(items: seq<seq<byte>>, n: nat, dataLen: nat, fps: Option<seq<byte>>, limit: nat)
    returns (r: Option<seq<byte>>)
    requires limit <= U32_MAX && InMemory(items)
    ensures r.Some? <==> n == |items| && AllShort(items) && (fps.Some? ==> |fps.value| == n)
    ensures r.Some? ==> r.value == ArenaOf(items, fps, limit)
  {
    if fps.Some? && |fps.value| != n {
      return None;
    }
    r := LayOutBlocked(items, n, dataLen, fps, limit);
  }

  method Totals(items: seq<seq<byte>>) returns (n: nat, len: nat)
    ensures n == |items| && len == |Joined(items, |items|)|
  {
    n, len := 0, 0;
    for i := 0 to |items|
      invariant n == i && len == |Joined(items, i)|
    {
      n, len := n + 1, len + |items[i]|;
    }
  }

  /** The same bytes for every hint of count and length. */
  method BuildExactLimited(items: seq<seq<byte>>, n: nat, dataLen: nat, fps: Option<seq<byte>>, limit: nat)
    returns (blob: seq<byte>)
    requires limit <= U32_MAX && InMemory(items)
    requires AllShort(items) && (fps.Some? ==> |fps.value| == |items|)
    ensures blob == ArenaOf(items, fps, limit)
  {
    var arena := Assemble(items, n, dataLen, fps, limit);
    if arena.None? {
      var count, len := Totals(items);
      arena := Assemble(items, count, len, fps, limit);
    }
    blob := arena.value;
  }

  /** The prefix, and what goes behind the data, from the lengths alone: with the keys put between them
      afterwards, the arena the build in memory makes. */
  method PrefixForLengths(lens: seq<nat>, fps: Option<seq<byte>>, limit: nat)
    returns (prefix: seq<byte>, dataLen: nat, tag: Tag, tail: seq<byte>)
    requires limit <= U32_MAX && RunAll(lens) < USIZE && |lens| < KEYS_END
    requires fps.Some? ==> |fps.value| == |lens|
    ensures dataLen == RunAll(lens) && tag == TagFor(lens, RunAll(lens), fps.Some?, limit)
    ensures forall items {:trigger LensOf(items)} ::
      LensOf(items) == lens ==> prefix + Joined(items, |items|) + tail == ArenaOf(items, fps, limit)
  {
    hide Table, Tail, Head, Joined, ArenaOf, TagFor;
    dataLen := Total(lens, 0, |lens|);
    tag := TagFor(lens, dataLen, fps.Some?, limit);
    TagForSuits(lens, fps.Some?, limit);
    PrefixFits(tag, |lens|);
    var blob := new Buffer();
    blob.Resize(PrefixSize(tag, |lens|));
    ghost var was := blob.bytes;
    WriteHead(blob, |lens|, tag);
    ghost var mid := blob.bytes;
    tail := WriteOffsets(blob, tag, lens, fps);
    LaidTwice(blob.bytes, mid, was, 0, Head(|lens|, tag), Table(lens, fps, tag));
    prefix := blob.bytes;
    assert prefix == Head(|lens|, tag) + Table(lens, fps, tag);
    forall items {:trigger LensOf(items)} | LensOf(items) == lens
      ensures prefix + Joined(items, |items|) + tail == ArenaOf(items, fps, limit)
    {
      KeysComplete(items, fps, tag, limit);
    }
  }

  lemma KeysComplete(items: seq<seq<byte>>, fps: Option<seq<byte>>, tag: Tag, limit: nat)
    requires tag == TagFor(LensOf(items), RunAll(LensOf(items)), fps.Some?, limit)
    ensures tag.layout < 0x20
    ensures Head(|items|, tag) + Table(LensOf(items), fps, tag) + Joined(items, |items|) + Tail(LensOf(items), tag)
      == ArenaOf(items, fps, limit)
  {
    hide Head, Table, Tail, TagFor, Joined;
    JoinedLen(items, |items|);
    assert tag == TagOf(items, fps, limit);
  }
}
