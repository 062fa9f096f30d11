/** The arena kept where both are priced: merged where that is the smaller, blocked otherwise. */
module ArenaCheapest {
  import opened Lex
  import opened Wrappers
  import opened Utf8Check
  import opened ArenaTable
  import opened ArenaBuild
  import opened ArenaWrite
  import opened ArenaOpen
  import opened MergedShapes
  import opened ArenaMerged
  import opened MergedRead

  /** An arena loaded under whichever layout its tag names. */
  datatype Loaded = Blocked(arena: Arena) | Merging(merged: Merged) {

    ghost predicate Valid() {
      match this
      case Blocked(a) => a.Valid()
      case Merging(m) => m.Valid()
    }

    /** Whether slot `i` holds `key`, and `want` where the arena has fingerprints. */
    function HoldsKey(i: nat, key: seq<byte>, want: Option<byte>): bool
      requires Valid()
    {
      match this
      case Blocked(a) => a.HoldsIn(i, key, want)
      case Merging(m) =>
        var entry := m.EntryAt(i, want);
        entry.Some? && entry.value.0.0 <= entry.value.0.1 && Spanned(m.bytes, entry.value.0) == key
    }

    /** The string at `i`. */
    function KeyAt(i: nat): Option<seq<byte>>
      requires Valid()
    {
      match this
      case Blocked(a) => a.Get(i)
      case Merging(m) =>
        var entry := m.EntryAt(i, None);
        if entry.None? then None else Checked(Spanned(m.bytes, entry.value.0))
    }
  }

  function Load(bytes: seq<byte>): (r: Option<Loaded>)
    ensures r.Some? ==> r.value.Valid()
  {
    if |bytes| >= HEADER && Split(bytes[8]).layout == MERGED then
      match OpenMerged(bytes)
      case None => None
      case Some(m) => Some(Merging(m))
    else
      match Open(bytes)
      case None => None
      case Some(a) => Some(Blocked(a))
  }

  /** A superstring: every key lies in it where it is said to start. */
  ghost predicate Superstring(data: seq<byte>, starts: seq<nat>, items: seq<seq<byte>>) {
    && |starts| == |items|
    && forall i :: 0 <= i < |items| ==>
         starts[i] + |items[i]| <= |data| && data[starts[i]..starts[i] + |items[i]|] == items[i]
  }

  function SpansOf(starts: seq<nat>, items: seq<seq<byte>>): (spans: seq<Placed>)
    requires |starts| == |items|
    ensures |spans| == |items| && forall i :: 0 <= i < |items| ==> spans[i] == (starts[i], |items[i]|)
  {
    seq(|items|, i requires 0 <= i < |items| => (starts[i], |items[i]|))
  }

  /** Every slot answers for its own key alone, and for its own fingerprint alone. */
  ghost predicate Serves(blob: seq<byte>, items: seq<seq<byte>>, fps: Option<seq<byte>>) {
    && Load(blob).Some?
    && forall i :: 0 <= i < |items| ==> Answers(Load(blob).value, items, fps, i)
  }

  ghost predicate Answers(l: Loaded, items: seq<seq<byte>>, fps: Option<seq<byte>>, i: nat)
    requires l.Valid() && i < |items|
  {
    && l.KeyAt(i) == (if IsText(items[i]) then Some(items[i]) else None)
    && forall key, want :: l.HoldsKey(i, key, want) <==>
         key == items[i] && (fps.Some? && want.Some? ==> want.value == FpAt(fps, i))
  }

  /** The blocked arena serves its keys. */
  lemma BlockedServes(items: seq<seq<byte>>, fps: Option<seq<byte>>, limit: nat)
    requires limit <= U32_MAX && InMemory(items) && (fps.Some? ==> |fps.value| == |items|)
    ensures Serves(ArenaOf(items, fps, limit), items, fps)
  {
    hide ArenaOf, Open, OpenMerged, Split, Arena.HoldsIn, IsText;
    var blob := ArenaOf(items, fps, limit);
    BlockedLoads(items, fps, limit);
    forall i | 0 <= i < |items|
      ensures Answers(Load(blob).value, items, fps, i)
    {
      BlockedAnswers(items, fps, limit, i);
    }
  }

  lemma BlockedLoads(items: seq<seq<byte>>, fps: Option<seq<byte>>, limit: nat)
    requires limit <= U32_MAX && InMemory(items) && (fps.Some? ==> |fps.value| == |items|)
    ensures var blob := ArenaOf(items, fps, limit);
      Open(blob).Some? && Load(blob) == Some(Blocked(Open(blob).value))
  {
    hide Head, Table, Joined, Tail, PrefixSize, Reached, Suits, TagFor, Open, OpenMerged, Split, ArenaUnder;
    var tag := TagOf(items, fps, limit);
    JoinedLen(items, |items|);
    TagForSuits(LensOf(items), fps.Some?, limit);
    SuitsTable(LensOf(items), tag);
    ArenaOpens(items, fps, tag);
    OpenedTag(ArenaOf(items, fps, limit));
  }

  lemma OpenedTag(bytes: seq<byte>)
    requires Open(bytes).Some?
    ensures |bytes| >= HEADER && Split(bytes[8]).layout != MERGED
  {
    hide Split, Word, PrefixLen, PrefixSize, Ends, Spans;
  }

  lemma BlockedAnswers(items: seq<seq<byte>>, fps: Option<seq<byte>>, limit: nat, i: nat)
    requires limit <= U32_MAX && InMemory(items) && (fps.Some? ==> |fps.value| == |items|) && i < |items|
    ensures Open(ArenaOf(items, fps, limit)).Some?
    ensures Answers(Blocked(Open(ArenaOf(items, fps, limit)).value), items, fps, i)
  {
    hide ArenaOf, Open, Arena.HoldsIn, Arena.EntryAt, IsText, Checked;
    ArenaReadsBack(items, fps, limit, i, [], None);
    var a := Open(ArenaOf(items, fps, limit)).value;
    forall key: seq<byte>, want: Option<byte>
      ensures a.HoldsIn(i, key, want) <==> key == items[i] && (fps.Some? && want.Some? ==> want.value == FpAt(fps, i))
    {
      ArenaReadsBack(items, fps, limit, i, key, want);
    }
  }

  /** So does the merged one, of any superstring of them. */
  lemma MergedServes(data: seq<byte>, starts: seq<nat>, items: seq<seq<byte>>, fps: Option<seq<byte>>,
                     shape: MergedShape)
    requires Superstring(data, starts, items) && 0 < |items| <= MAX_SLOTS && |data| < USIZE
    requires AllAtLeast(LensOfSpans(SpansOf(starts, items)), shape.minLen)
    requires shape.startBits + shape.lenBits <= MAX_WIDTH
    requires Fits(shape, SpansOf(starts, items), |data|, fps.Some?) && (fps.Some? ==> |fps.value| == |items|)
    ensures Serves(MergedBytes(data, SpansOf(starts, items), fps, shape), items, fps)
  {
    hide MergedBytes, Open, OpenMerged, Split, IsText, Fits, AllAtLeast, Merged.EntryAt;
    var spans := SpansOf(starts, items);
    var blob := MergedBytes(data, spans, fps, shape);
    MergedReadsBack(data, spans, fps, shape, 0, None);
    OpenedMergedTag(blob);
    forall i | 0 <= i < |items|
      ensures Answers(Load(blob).value, items, fps, i)
    {
      MergedAnswers(data, starts, items, fps, shape, i);
    }
  }

  lemma OpenedMergedTag(bytes: seq<byte>)
    requires OpenMerged(bytes).Some?
    ensures |bytes| >= HEADER && Split(bytes[8]).layout == MERGED && OpenMerged(bytes).value.bytes == bytes
  {
    hide Split, Word, ReadPacked, MergedEnds;
  }

  lemma MergedAnswers(data: seq<byte>, starts: seq<nat>, items: seq<seq<byte>>, fps: Option<seq<byte>>,
                      shape: MergedShape, i: nat)
    requires Superstring(data, starts, items) && i < |items| <= MAX_SLOTS && |data| < USIZE
    requires AllAtLeast(LensOfSpans(SpansOf(starts, items)), shape.minLen)
    requires shape.startBits + shape.lenBits <= MAX_WIDTH
    requires Fits(shape, SpansOf(starts, items), |data|, fps.Some?) && (fps.Some? ==> |fps.value| == |items|)
    ensures OpenMerged(MergedBytes(data, SpansOf(starts, items), fps, shape)).Some?
    ensures Answers(Merging(OpenMerged(MergedBytes(data, SpansOf(starts, items), fps, shape)).value), items, fps, i)
  {
    hide MergedBytes, OpenMerged, IsText, Fits, AllAtLeast, Merged.EntryAt, Checked, SlotsAscend;
    var spans := SpansOf(starts, items);
    var blob := MergedBytes(data, spans, fps, shape);
    MergedReadsBack(data, spans, fps, shape, i, None);
    OpenedMergedTag(blob);
    CheckedIff(items[i]);
    var m := OpenMerged(blob).value;
    forall key: seq<byte>, want: Option<byte>
      ensures Merging(m).HoldsKey(i, key, want) <==>
        key == items[i] && (fps.Some? && want.Some? ==> want.value == FpAt(fps, i))
    {
      MergedReadsBack(data, spans, fps, shape, i, want);
    }
  }

  // ----- the choice

  /** The least shape the keys have in their superstring, or that they have none. */
  ghost predicate LeastShape(shape: Option<MergedShape>, spans: seq<Placed>, dataLen: nat, fp: bool) {
    match shape
    case Some(s) => Fits(s, spans, dataLen, fp) && Least(s, spans, dataLen, fp)
    case None => spans == [] || NoneFits(spans, dataLen, fp)
  }

  /** The length of the shorter layout. */
  function Shorter(shape: Option<MergedShape>, blocked: nat): nat {
    if shape.Some? && shape.value.bytes < blocked then shape.value.bytes else blocked
  }

  method Lens(items: seq<seq<byte>>) returns (lens: seq<nat>)
    ensures lens == LensOf(items)
  {
    lens := [];
    for i := 0 to |items|
      invariant |lens| == i && forall k :: 0 <= k < i ==> lens[k] == |items[k]|
    {
      lens := lens + [|items[i]|];
    }
  }

  /** The arena of keys in slot order: merged where there is a superstring, the estimate did not rule it out
      and it comes out smaller; blocked otherwise. Whatever the estimate, no key set's arena is longer than
      its blocked one, and every slot serves its key. */
  method BuildCheapest(items: seq<seq<byte>>, fps: Option<seq<byte>>, hopeless: bool,
                       merge: Option<(seq<byte>, seq<nat>)>)
    returns (blob: seq<byte>)
    requires InMemory(items) && AllShort(items) && |items| <= MAX_SLOTS && (fps.Some? ==> |fps.value| == |items|)
    requires |ArenaOf(items, fps, 0xFFFF_FFFF)| < USIZE
    requires merge.Some? ==> |merge.value.0| < HALF_USIZE && Superstring(merge.value.0, merge.value.1, items)
    ensures |blob| <= |ArenaOf(items, fps, 0xFFFF_FFFF)|
    ensures hopeless || merge.None? ==> blob == ArenaOf(items, fps, 0xFFFF_FFFF)
    ensures |blob| == |ArenaOf(items, fps, 0xFFFF_FFFF)| ==> blob == ArenaOf(items, fps, 0xFFFF_FFFF)
    ensures !hopeless && merge.Some? ==> exists shape ::
      && LeastShape(shape, SpansOf(merge.value.1, items), |merge.value.0|, fps.Some?)
      && |blob| == Shorter(shape, |ArenaOf(items, fps, 0xFFFF_FFFF)|)
    ensures Serves(blob, items, fps)
  {
    hide ArenaOf, MergedBytes, Serves, Fits, Least, NoneFits;
    var lens := Lens(items);
    var n, dataLen := Totals(items);
    var blocked := BlockedLen(lens, dataLen, fps.Some?, U32_MAX);
    BlockedLenIsLength(items, fps, U32_MAX);
    if !hopeless && merge.Some? {
      var (data, starts) := merge.value;
      var spans := SpansOf(starts, items);
      assert forall i :: 0 <= i < |spans| ==> 0 <= LensOfSpans(spans)[i] <= U32_MAX;
      var merged, shape := BuildMerged(data, spans, fps, blocked);
      assert LeastShape(shape, spans, |data|, fps.Some?);
      assert blocked.Some?;
      if merged.Some? {
        MergedServes(data, starts, items, fps, shape.value);
        return merged.value;
      }
    }
    blob := BuildExactLimited(items, n, dataLen, fps, U32_MAX);
    BlockedServes(items, fps, U32_MAX);
  }
}
