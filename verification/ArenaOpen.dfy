/** Opening a blocked or flat arena's bytes and reading keys out of it. */
module ArenaOpen {
  import opened Lex
  import opened Bits
  import opened Wrappers
  import opened ArenaTable
  import opened ArenaBuild
  import opened Utf8
  import opened Utf8Check

  /** An opened arena: where its data starts and ends, and its overflow table ends. */
  datatype Arena = Arena(bytes: seq<byte>, n: nat, tag: Tag, dataStart: nat, dataEnd: nat, overflowEnd: nat) {

    ghost predicate Valid() {
      dataStart == PrefixSize(tag, n) && dataStart <= dataEnd <= overflowEnd <= |bytes|
    }

    /** Slot `i`'s span in the bytes and its fingerprint. */
    function EntryAt(i: nat, want: Option<byte>): Option<Entry>
      requires Valid()
    {
      if i >= n then None
      else
        var entry := EntryOf(bytes, bytes[dataEnd..overflowEnd], tag, n, i, want);
        if entry.None? || entry.value.0.1 > dataEnd - dataStart then None
        else Some(((dataStart + entry.value.0.0, dataStart + entry.value.0.1), entry.value.1))
    }

    /** The key at `i`: none where there is no span or its bytes are no string. */
    function Get(i: nat): Option<seq<byte>>
      requires Valid()
    {
      var entry := EntryAt(i, None);
      if entry.None? || !(entry.value.0.0 <= entry.value.0.1 <= |bytes|) then None
      else Checked(bytes[entry.value.0.0..entry.value.0.1])
    }

    /** Whether slot `i` holds `key`, and `want` where the arena has fingerprints, every read checked. */
    function Holds(i: nat, key: seq<byte>, want: Option<byte>): bool
      requires Valid()
    {
      var entry := EntryAt(i, want);
      && entry.Some?
      && entry.value.0.0 <= entry.value.0.1 <= |bytes|
      && bytes[entry.value.0.0..entry.value.0.1] == key
    }

    /** The same, by a read of the block and of the data that checks no bounds where the layout is narrow
        blocks with fingerprints just where one is asked for. */
    function HoldsIn(i: nat, key: seq<byte>, want: Option<byte>): bool
      requires Valid()
    {
      if i >= n then false
      else if tag.Blocked() && !tag.wide && (tag.fp <==> want.Some?) then
        BlockInTable(this, i);
        var at := HEADER + Times(tag.BlockOf(i), tag.BlockBytes());
        var block, overflow := bytes[at..at + tag.BlockBytes()], bytes[dataEnd..overflowEnd];
        var entry := InBlock(block, overflow, tag, tag.PlaceOf(i), want);
        BlockForward(block, overflow, tag, tag.PlaceOf(i), want);
        && entry.Some?
        && entry.value.0.1 <= dataEnd - dataStart && entry.value.0.1 - entry.value.0.0 == |key|
        && bytes[dataStart + entry.value.0.0..dataStart + entry.value.0.1] == key
      else Holds(i, key, want)
    }
  }

  /** Whatever the bytes an arena opened from, the block of every slot ends before the data: what lets a
      lookup read it without a bounds check. */
  lemma BlockInTable(a: Arena, i: nat)
    requires a.Valid() && a.tag.Blocked() && i < a.n
    ensures HEADER + Times(a.tag.BlockOf(i), a.tag.BlockBytes()) + a.tag.BlockBytes() <= a.dataStart
  {
    BlockWithin(a.tag, i, a.n);
    TimesMonotone(a.tag.BlockOf(i) + 1, a.tag.BlocksFor(a.n), a.tag.BlockBytes());
  }

  /** No entry of a block runs backwards. */
  lemma BlockForward(block: seq<byte>, overflow: seq<byte>, tag: Tag, k: nat, want: Option<byte>)
    requires |block| == tag.BlockBytes() && k < tag.Slots()
    ensures var entry := InBlock(block, overflow, tag, k, want);
      entry.Some? ==> entry.value.0.0 <= entry.value.0.1
  {
    hide Word, Times;
  }

  /** The unchecked read answers as the checked one. */
  lemma HoldsInIsHolds(a: Arena, i: nat, key: seq<byte>, want: Option<byte>)
    requires a.Valid()
    ensures a.HoldsIn(i, key, want) == a.Holds(i, key, want)
  {
    hide InBlock, Times, PrefixSize;
    if i < a.n && a.tag.Blocked() {
      BlockInTable(a, i);
    }
  }

  /** Where the data and the overflow table behind it end: for an overflow flag, by the length in the last
      eight bytes, which must fit and be whole entries. */
  function Ends(bytes: seq<byte>, tag: Tag, dataStart: nat): Option<Span>
    requires dataStart <= |bytes|
  {
    if !tag.overflow then Some((|bytes|, |bytes|))
    else if |bytes| < TRAILER || |bytes| - TRAILER < dataStart then None
    else
      IndexBytes(tag);
      var trailer := |bytes| - TRAILER;
      var len := Word(bytes, trailer, TRAILER);
      if len > trailer - dataStart || len % tag.EntryBytes() != 0 then None else Some((trailer - len, trailer))
  }

  lemma IndexBytes(tag: Tag)
    ensures tag.EntryBytes() in {68, 136, 1028, 2056}
  {
    TimesBytes(tag.Slots() + 1, 1);
  }

  /** The first key starts the data and the last ends it. */
  predicate Spans(bytes: seq<byte>, tag: Tag, n: nat, dataStart: nat, dataEnd: nat, overflowEnd: nat)
    requires dataStart <= dataEnd <= overflowEnd <= |bytes|
  {
    if n == 0 then dataStart == dataEnd
    else
      var overflow := bytes[dataEnd..overflowEnd];
      var first, last := EntryOf(bytes, overflow, tag, n, 0, None), EntryOf(bytes, overflow, tag, n, n - 1, None);
      first.Some? && last.Some? && first.value.0.0 == 0 && last.value.0.1 == dataEnd - dataStart
  }

  function Open(bytes: seq<byte>): (r: Option<Arena>)
    ensures r.Some? ==> r.value.Valid()
  {
    if |bytes| < HEADER || Word(bytes, 0, 8) == 0 then None
    else
      var n, tag := Word(bytes, 0, 8) - 1, Split(bytes[8]);
      if !(tag.Blocked() || tag.Flat()) || PrefixLen(tag, n).None? || |bytes| < PrefixSize(tag, n) then None
      else
        var dataStart := PrefixSize(tag, n);
        var ends := Ends(bytes, tag, dataStart);
        if ends.None? || !Spans(bytes, tag, n, dataStart, ends.value.0, ends.value.1) then None
        else Some(Arena(bytes, n, tag, dataStart, ends.value.0, ends.value.1))
  }

  /** The bytes of a span, where they are there. */
  function Spanned(bytes: seq<byte>, span: Span): seq<byte> {
    if span.0 <= span.1 <= |bytes| then bytes[span.0..span.1] else []
  }

  /** Whatever the bytes, an arena that opens hands out no span outside its data, a key exactly where a
      span's bytes are UTF-8, a first key only from the data's start, and a last span that ends it. */
  lemma OpenedReadsInside(bytes: seq<byte>, i: nat, want: Option<byte>)
    requires Open(bytes).Some?
    ensures var a := Open(bytes).value;
      && (a.EntryAt(i, want).Some? ==>
            a.dataStart <= a.EntryAt(i, want).value.0.0 <= a.EntryAt(i, want).value.0.1 <= a.dataEnd <= |bytes|)
      && (a.Get(i).Some? <==> a.EntryAt(i, None).Some? && IsText(Spanned(bytes, a.EntryAt(i, None).value.0)))
      && (a.Get(i).Some? ==>
            a.Get(i).value == Spanned(bytes, a.EntryAt(i, None).value.0) && exists k :: Text(k) == a.Get(i).value)
      && (a.n == 0 ==> a.dataStart == a.dataEnd)
      && (a.n > 0 ==>
            && (a.EntryAt(0, None).Some? ==> a.EntryAt(0, None).value.0.0 == a.dataStart)
            && a.EntryAt(a.n - 1, None).Some? && a.EntryAt(a.n - 1, None).value.0.1 == a.dataEnd)
  {
    hide Word, Split, PrefixLen, PrefixSize, Ends, EntryOf, Checked, IsText, Text;
    var a := Open(bytes).value;
    if a.EntryAt(i, None).Some? {
      CheckedIff(Spanned(bytes, a.EntryAt(i, None).value.0));
    }
    EntryForward(bytes, bytes[a.dataEnd..a.overflowEnd], a.tag, a.n, i, want);
    EntryForward(bytes, bytes[a.dataEnd..a.overflowEnd], a.tag, a.n, i, None);
    if a.n > 0 {
      EntryForward(bytes, bytes[a.dataEnd..a.overflowEnd], a.tag, a.n, 0, None);
      EntryForward(bytes, bytes[a.dataEnd..a.overflowEnd], a.tag, a.n, a.n - 1, None);
    }
  }

  /** No entry runs backwards. */
  lemma EntryForward(bytes: seq<byte>, overflow: seq<byte>, tag: Tag, n: nat, i: nat, want: Option<byte>)
    ensures var entry := EntryOf(bytes, overflow, tag, n, i, want);
      entry.Some? ==> entry.value.0.0 <= entry.value.0.1
  {
    hide Word, Times;
  }

  // ----- what a build leaves opens, and every key is in its slot

  /** The arena a build leaves, as opened. */
  function Opened(items: seq<seq<byte>>, fps: Option<seq<byte>>, tag: Tag): Arena
    requires tag.layout < 0x20
  {
    var dataStart := PrefixSize(tag, |items|);
    var dataEnd := dataStart + |Joined(items, |items|)|;
    Arena(ArenaUnder(items, fps, tag), |items|, tag, dataStart, dataEnd, dataEnd + |SpilledOf(items, tag)|)
  }

  function SpilledOf(items: seq<seq<byte>>, tag: Tag): seq<byte> {
    if tag.Blocked() then Spilled(LensOf(items), tag, tag.BlocksFor(|items|)) else []
  }

  /** The parts of an arena's bytes. */
  lemma Parts(head: seq<byte>, table: seq<byte>, data: seq<byte>, spilled: seq<byte>, rest: seq<byte>)
    requires |head| == HEADER
    ensures var s := head + table + data + (spilled + rest);
      && s[..HEADER] == head
      && s[HEADER..HEADER + |table|] == table
      && s[HEADER + |table|..HEADER + |table| + |data|] == data
      && s[HEADER + |table| + |data|..HEADER + |table| + |data| + |spilled|] == spilled
      && s[HEADER + |table| + |data| + |spilled|..] == rest
  {
  }

  /** What a tail holds. */
  lemma TailParts(lens: seq<nat>, tag: Tag, spilled: seq<byte>)
    requires spilled == if tag.Blocked() then Spilled(lens, tag, tag.BlocksFor(|lens|)) else []
    ensures Tail(lens, tag) == spilled + if tag.overflow then ToLe(|spilled|, TRAILER) else []
  {
  }

  /** The pieces of an arena's bytes, named. */
  ghost predicate Pieces(a: Arena, items: seq<seq<byte>>, fps: Option<seq<byte>>, spilled: seq<byte>, rest: seq<byte>)
    requires a.tag.layout < 0x20
  {
    && a.Valid() && HEADER <= a.dataStart && a.n == |items|
    && a.dataStart == PrefixSize(a.tag, |items|)
    && a.bytes[..HEADER] == Head(|items|, a.tag)
    && a.bytes[HEADER..a.dataStart] == Table(LensOf(items), fps, a.tag)
    && a.bytes[a.dataStart..a.dataEnd] == Joined(items, |items|)
    && a.bytes[a.dataEnd..a.overflowEnd] == spilled
    && a.bytes[a.overflowEnd..] == rest
  }

  lemma OpenedPieces(items: seq<seq<byte>>, fps: Option<seq<byte>>, tag: Tag, spilled: seq<byte>, rest: seq<byte>)
    requires tag.layout < 0x20
    requires spilled == SpilledOf(items, tag)
    requires rest == if tag.overflow then ToLe(|spilled|, TRAILER) else []
    ensures Pieces(Opened(items, fps, tag), items, fps, spilled, rest)
  {
    hide Head, Table, Joined, Spilled, PrefixSize, Tail;
    TailParts(LensOf(items), tag, spilled);
    Parts(Head(|items|, tag), Table(LensOf(items), fps, tag), Joined(items, |items|), spilled, rest);
  }

  /** Every slot's span is its key's and its fingerprint its own. */
  lemma OpenedEntry(a: Arena, items: seq<seq<byte>>, fps: Option<seq<byte>>, i: nat, want: Option<byte>)
    requires a.tag.layout < 0x20 && (a.tag.Blocked() || a.tag.Flat()) && Reached(LensOf(items), a.tag) && i < |items|
    requires a.Valid() && Pieces(a, items, fps, SpilledOf(items, a.tag), a.bytes[a.overflowEnd..])
    ensures EntryOf(a.bytes, a.bytes[a.dataEnd..a.overflowEnd], a.tag, a.n, i, want)
      == Stored(LensOf(items), fps, a.tag, i, want)
  {
    hide Head, Table, Joined, Spilled, PrefixSize, EntryOf, Stored, Reached;
    TableReadsBack(a.bytes, LensOf(items), fps, a.tag, i, want);
  }

  /** An arena read through its pieces: slot `i` is `items[i]`. */
  lemma PiecesRead(a: Arena, items: seq<seq<byte>>, fps: Option<seq<byte>>, i: nat, want: Option<byte>)
    requires a.tag.layout < 0x20 && (a.tag.Blocked() || a.tag.Flat()) && Reached(LensOf(items), a.tag) && i < |items|
    requires a.Valid() && Pieces(a, items, fps, SpilledOf(items, a.tag), a.bytes[a.overflowEnd..])
    ensures var (lens, at) := (LensOf(items), a.dataStart);
      && (want.Some? && a.tag.fp && want.value != FpAt(fps, i) ==> a.EntryAt(i, want).None?)
      && (!(want.Some? && a.tag.fp && want.value != FpAt(fps, i)) ==>
            && a.EntryAt(i, want).Some?
            && a.EntryAt(i, want).value.0 == (at + Run(lens, 0, i), at + Run(lens, 0, i + 1))
            && at + Run(lens, 0, i) <= at + Run(lens, 0, i + 1) <= |a.bytes|
            && a.bytes[at + Run(lens, 0, i)..at + Run(lens, 0, i + 1)] == items[i])
  {
    hide Head, Table, Spilled, PrefixSize, EntryOf, Reached, Run, Joined;
    var lens, at := LensOf(items), a.dataStart;
    OpenedEntry(a, items, fps, i, want);
    KeyInData(items, i);
    DataSlice(a.bytes, at, a.dataEnd, Run(lens, 0, i), Run(lens, 0, i + 1));
  }

  lemma DataSlice(s: seq<byte>, from: nat, to: nat, lo: nat, hi: nat)
    requires from <= to <= |s| && lo <= hi <= to - from
    ensures s[from..to][lo..hi] == s[from + lo..from + hi]
  {
    SliceOfSlice(s, from, to, lo, hi - lo);
  }

  lemma KeyInData(items: seq<seq<byte>>, i: nat)
    requires i < |items|
    ensures var lens := LensOf(items);
      && Run(lens, 0, i) <= Run(lens, 0, i + 1) <= |Joined(items, |items|)| == RunAll(lens)
      && Joined(items, |items|)[Run(lens, 0, i)..Run(lens, 0, i + 1)] == items[i]
  {
    JoinedLen(items, i);
    JoinedLen(items, i + 1);
    JoinedLen(items, |items|);
    RunBound(LensOf(items), i + 1);
    JoinedHolds(items, i, |items|);
  }

  lemma HeadReads(s: seq<byte>, n: nat, tag: Tag)
    requires tag.layout < 0x20 && |s| >= HEADER && s[..HEADER] == Head(n, tag) && n + 1 < USIZE
    ensures Word(s, 0, 8) == n + 1 && Split(s[8]) == tag
  {
    hide Val, ToLe, Split;
    WordPowers();
    assert s[0..8] == s[..HEADER][0..8] == ToLe(n + 1, 8);
    WordReadsBack(s, 0, 8, n + 1);
    SplitReadsBack(tag);
    assert s[8] == s[..HEADER][8];
  }

  lemma SpilledShape(items: seq<seq<byte>>, tag: Tag)
    requires InMemory(items)
    ensures |SpilledOf(items, tag)| < USIZE
    ensures tag.EntryBytes() > 0 && |SpilledOf(items, tag)| % tag.EntryBytes() == 0
  {
    var lens, m := LensOf(items), tag.BlocksFor(|items|);
    IndexBytes(tag);
    SpilledFits(lens, tag, m);
    RunBound(lens, Times(m, tag.Slots()));
    JoinedLen(items, |items|);
    WholeEntries(Index(lens, tag, m), tag.EntryBytes());
  }

  lemma WholeEntries(index: nat, size: nat)
    requires size in {68, 136, 1028, 2056}
    ensures Times(index, size) % size == 0
  {
    TimesIsProduct(index, size);
  }

  lemma EndsFound(a: Arena, items: seq<seq<byte>>, fps: Option<seq<byte>>)
    requires a.tag.layout < 0x20 && InMemory(items)
    requires var spilled := SpilledOf(items, a.tag);
      Pieces(a, items, fps, spilled, if a.tag.overflow then ToLe(|spilled|, TRAILER) else [])
    requires !a.tag.overflow ==> SpilledOf(items, a.tag) == []
    ensures Ends(a.bytes, a.tag, a.dataStart) == Some((a.dataEnd, a.overflowEnd))
  {
    hide Head, Table, Joined, SpilledOf, PrefixSize, Val, ToLe, Times, Spilled;
    if a.tag.overflow {
      SpilledShape(items, a.tag);
      WordPowers();
      var at := |a.bytes| - TRAILER;
      assert a.overflowEnd == at;
      assert a.bytes[at..at + TRAILER] == a.bytes[a.overflowEnd..];
      WordReadsBack(a.bytes, at, TRAILER, |SpilledOf(items, a.tag)|);
    }
  }

  lemma SpansHeld(a: Arena, items: seq<seq<byte>>, fps: Option<seq<byte>>)
    requires a.tag.layout < 0x20 && (a.tag.Blocked() || a.tag.Flat()) && Reached(LensOf(items), a.tag)
    requires a.Valid() && Pieces(a, items, fps, SpilledOf(items, a.tag), a.bytes[a.overflowEnd..])
    ensures Spans(a.bytes, a.tag, a.n, a.dataStart, a.dataEnd, a.overflowEnd)
  {
    hide Head, Table, Spilled, PrefixSize, EntryOf, Reached;
    JoinedLen(items, |items|);
    if |items| > 0 {
      OpenedEntry(a, items, fps, 0, None);
      OpenedEntry(a, items, fps, |items| - 1, None);
    }
  }

  lemma NothingSpilled(items: seq<seq<byte>>, tag: Tag)
    requires Suits(LensOf(items), tag) && !tag.overflow
    ensures SpilledOf(items, tag) == []
  {
  }

  /** What a build leaves opens. */
  lemma ArenaOpens(items: seq<seq<byte>>, fps: Option<seq<byte>>, tag: Tag)
    requires Suits(LensOf(items), tag) && Reached(LensOf(items), tag) && InMemory(items)
    ensures Open(ArenaUnder(items, fps, tag)) == Some(Opened(items, fps, tag))
  {
    hide Head, Table, Joined, SpilledOf, PrefixSize, Reached, Suits, Spans, Ends, ArenaUnder, Val, ToLe, Times, Word,
      Split, Spilled;
    SuitsTable(LensOf(items), tag);
    var a, spilled := Opened(items, fps, tag), SpilledOf(items, tag);
    OpenedPieces(items, fps, tag, spilled, if tag.overflow then ToLe(|spilled|, TRAILER) else []);
    HeadReads(a.bytes, |items|, tag);
    PrefixFits(tag, |items|);
    if !tag.overflow {
      NothingSpilled(items, tag);
    }
    EndsFound(a, items, fps);
    SpansHeld(a, items, fps);
  }

  lemma SuitsTable(lens: seq<nat>, tag: Tag)
    requires Suits(lens, tag)
    ensures (tag.Blocked() || tag.Flat()) && tag.layout < 0x20
  {
  }

  /** An arena built, opened and asked: every string is in its slot under every layout the lengths can call
      for, and a fingerprint rules out a slot exactly where it is not the slot's own. */
  lemma ArenaReadsBack(items: seq<seq<byte>>, fps: Option<seq<byte>>, limit: nat, i: nat, key: seq<byte>,
                       want: Option<byte>)
    requires limit <= U32_MAX && InMemory(items) && i < |items|
    requires fps.Some? ==> |fps.value| == |items|
    ensures var arena := Open(ArenaOf(items, fps, limit));
      && arena.Some? && arena.value.n == |items|
      && arena.value.Get(i) == (if IsText(items[i]) then Some(items[i]) else None)
      && (arena.value.HoldsIn(i, key, want) <==>
            key == items[i] && (fps.Some? && want.Some? ==> want.value == fps.value[i]))
      && arena.value.Get(|items|).None?
  {
    hide Head, Table, Joined, SpilledOf, PrefixSize, Reached, Suits, Spans, Ends, ArenaUnder, TagFor, EntryOf, Run,
      Val, ToLe, Times, Word, Split, Spilled, Open, Checked, IsText, Arena.HoldsIn;
    var tag := TagOf(items, fps, limit);
    JoinedLen(items, |items|);
    TagForSuits(LensOf(items), fps.Some?, limit);
    SuitsTable(LensOf(items), tag);
    ArenaOpens(items, fps, tag);
    var a, spilled := Opened(items, fps, tag), SpilledOf(items, tag);
    OpenedPieces(items, fps, tag, spilled, if tag.overflow then ToLe(|spilled|, TRAILER) else []);
    PiecesRead(a, items, fps, i, None);
    PiecesRead(a, items, fps, i, want);
    CheckedIff(items[i]);
    HoldsInIsHolds(a, i, key, want);
  }
}
