/** The index for a closed vocabulary: a perfect hash and the side table, nothing stored per key, so the
    build is the last to notice a hash that is not perfect. */
module ClosedHash {
  import opened Pairs
  import opened SideTables
  import opened HashIndexes
  import opened StreamPairs
  import opened Wrappers

  datatype ClosedIndex = ClosedIndex(mph: Option<u64 -> u64>, n: nat, side: seq<Entry>) {

    /** A member's id, and some id for any other key. */
    function Id(h: u64, second: u64): nat {
      Unchecked(mph, side, h, second)
    }
  }

  datatype ClosedOutcome = ClosedBuilt(index: ClosedIndex) | TooMany | Imperfect

  /** The index of sorted distinct pairs. */
  ghost function ClosedOf(pairs: seq<Pair>, mph: u64 -> u64): ClosedIndex {
    if pairs == [] then ClosedIndex(None, 0, [])
    else ClosedIndex(Some(mph), |pairs|, SideOf(pairs, |pairs|, Slots(pairs)))
  }

  /** Some pair's id is `v`. */
  ghost predicate Answered(index: ClosedIndex, pairs: seq<Pair>, v: nat) {
    exists i :: 0 <= i < |pairs| && index.Id(pairs[i].0, pairs[i].1) == v
  }

  /** Under a perfect hash the ids are a bijection of the distinct pairs onto `[0, n)`. */
  lemma ClosedIdsAreABijection(pairs: seq<Pair>, mph: u64 -> u64)
    requires Strict(pairs) && Perfect(mph, pairs, Slots(pairs))
    ensures var index := ClosedOf(pairs, mph);
      && (forall i :: 0 <= i < |pairs| ==> index.Id(pairs[i].0, pairs[i].1) < index.n)
      && (forall i, j :: 0 <= i < j < |pairs| ==>
            index.Id(pairs[i].0, pairs[i].1) != index.Id(pairs[j].0, pairs[j].1))
      && (forall v: nat :: v < index.n ==> Answered(index, pairs, v))
  {
    hide Unchecked, Given, SideOf, Perfect;
    if pairs != [] {
      var index := ClosedOf(pairs, mph);
      forall i | 0 <= i < |pairs|
        ensures index.Id(pairs[i].0, pairs[i].1) == Given(pairs, mph, i) < index.n
      {
        UncheckedIsGiven(pairs, mph, i);
        GivenInRange(pairs, mph, i);
      }
      forall i, j | 0 <= i < j < |pairs|
        ensures Given(pairs, mph, i) != Given(pairs, mph, j)
      {
        GivenInjective(pairs, mph, i, j);
      }
      forall v: nat | v < index.n
        ensures Answered(index, pairs, v)
      {
        var i := GivenTo(pairs, mph, v);
        assert index.Id(pairs[i].0, pairs[i].1) == v;
      }
    }
  }

  // ----- one bit a slot

  /** The first `i` pairs' representatives are below `m`, at different slots, and marked. */
  ghost predicate Seen(pairs: seq<Pair>, mph: u64 -> u64, m: nat, i: nat, words: seq<nat>) {
    && i <= |pairs| && |words| == (m + 63) / 64
    && (forall k :: 0 <= k < i && !Follows(pairs, k) ==> mph(pairs[k].0) < m)
    && Differ(pairs, mph, i) && Marks(pairs, mph, m, i, words)
  }

  lemma NoneSeen(pairs: seq<Pair>, mph: u64 -> u64, m: nat)
    ensures Seen(pairs, mph, m, 0, seq((m + 63) / 64, _ => 0))
  {
    var words: seq<nat> := seq((m + 63) / 64, _ => 0);
    forall s | 0 <= s < m
      ensures !Bit(words, s)
    {
      ShrOfZero(s % 64);
    }
  }

  lemma SeenFollower(pairs: seq<Pair>, mph: u64 -> u64, m: nat, i: nat, words: seq<nat>)
    requires i < |pairs| && Seen(pairs, mph, m, i, words) && Follows(pairs, i)
    ensures Seen(pairs, mph, m, i + 1, words)
  {
    forall s | 0 <= s < m
      ensures Taken(pairs, mph, i + 1, s) <==> Taken(pairs, mph, i, s)
    {
    }
  }

  lemma SeenFresh(pairs: seq<Pair>, mph: u64 -> u64, m: nat, i: nat, words: seq<nat>)
    requires i < |pairs| && Seen(pairs, mph, m, i, words) && !Follows(pairs, i)
    requires mph(pairs[i].0) < m && !Bit(words, mph(pairs[i].0))
    ensures Seen(pairs, mph, m, i + 1, SetBit(words, mph(pairs[i].0)))
  {
    FreshSlot(pairs, mph, m, i, words);
    BitsTake(pairs, mph, m, i, words);
  }

  /** A slot out of range, or marked already, is where a hash shows that it is not perfect. */
  lemma SeenTwice(pairs: seq<Pair>, mph: u64 -> u64, m: nat, i: nat, words: seq<nat>)
    requires i < |pairs| && Seen(pairs, mph, m, i, words) && !Follows(pairs, i)
    requires mph(pairs[i].0) >= m || Bit(words, mph(pairs[i].0))
    ensures !Perfect(mph, pairs, m)
  {
    if mph(pairs[i].0) < m {
      assert Taken(pairs, mph, i, mph(pairs[i].0));
    }
  }

  lemma AllSeen(pairs: seq<Pair>, mph: u64 -> u64, m: nat, words: seq<nat>)
    requires Seen(pairs, mph, m, |pairs|, words)
    ensures Perfect(mph, pairs, m)
  {
  }

  /** Whether the slotted pairs show a minimal perfect hash. */
  method CheckSlots(slotted: array<Pair>, ghost pairs: seq<Pair>, ghost mph: u64 -> u64, m: nat) returns (ok: bool)
    requires slotted.Length == |pairs|
    requires forall i :: 0 <= i < |pairs| ==> slotted[i] == Slotted(pairs, mph, i) && mph(pairs[i].0) != NO_SLOT
    ensures ok <==> Perfect(mph, pairs, m)
  {
    hide Seen, Perfect, Bit, SetBit;
    var words := seq((m + 63) / 64, _ => 0);
    NoneSeen(pairs, mph, m);
    for i := 0 to slotted.Length
      invariant |words| == (m + 63) / 64 && Seen(pairs, mph, m, i, words)
    {
      var (slot, _) := slotted[i];
      if slot == NO_SLOT {
        SeenFollower(pairs, mph, m, i, words);
        continue;
      }
      if slot >= m || Bit(words, slot) {
        SeenTwice(pairs, mph, m, i, words);
        return false;
      }
      SeenFresh(pairs, mph, m, i, words);
      words := SetBit(words, slot);
    }
    AllSeen(pairs, mph, m, words);
    ok := true;
  }

  /** Build over hashed keys in any order, repeats among them. It succeeds exactly where the distinct pairs
      are no more than a `u32` counts and the hash is minimal and perfect on the representatives. */
  method BuildClosed(input: seq<Pair>, mph: u64 -> u64, threads: nat) returns (r: ClosedOutcome)
    requires forall h: u64 :: mph(h) != NO_SLOT
    ensures r.TooMany? <==> |Canonical(input)| > 0xFFFF_FFFF
    ensures r.ClosedBuilt? <==>
      |Canonical(input)| <= 0xFFFF_FFFF && Perfect(mph, Canonical(input), Slots(Canonical(input)))
    ensures r.ClosedBuilt? ==> r.index == ClosedOf(Canonical(input), mph)
  {
    hide Canonical, SideOf;
    var pairs := SortedDistinct(input, threads);
    if |pairs| > MAX_KEYS {
      return TooMany;
    }
    if pairs == [] {
      return ClosedBuilt(ClosedIndex(None, 0, []));
    }
    var side, m := CollectSide(pairs);
    var slotted := new Pair[|pairs|](i requires 0 <= i < |pairs| => pairs[i]);
    assert slotted[..] == pairs;
    SlotsInPlace(slotted, mph, threads);
    var ok := CheckSlots(slotted, pairs, mph, m);
    r := if ok then ClosedBuilt(ClosedIndex(Some(mph), |pairs|, side)) else Imperfect;
  }

  /** One walk over the distinct pairs: the side table, and the check. */
  method WalkClosed(pairs: seq<Pair>, mph: u64 -> u64, m: nat) returns (ok: bool, side: seq<Entry>)
    ensures ok <==> Perfect(mph, pairs, m)
    ensures ok ==> side == SideOf(pairs, |pairs|, m)
  {
    hide Seen, Perfect, Bit, SetBit;
    side := [];
    var words := seq((m + 63) / 64, _ => 0);
    var last: Option<u64> := None;
    NoneSeen(pairs, mph, m);
    for i := 0 to |pairs|
      invariant |words| == (m + 63) / 64 && Seen(pairs, mph, m, i, words)
      invariant side == SideOf(pairs, i, m)
      invariant last == if i == 0 then None else Some(pairs[i - 1].0)
    {
      var (h, second) := pairs[i];
      if last == Some(h) {
        SeenFollower(pairs, mph, m, i, words);
        side := side + [(h, second, m + |side|)];
        continue;
      }
      last := Some(h);
      var slot := mph(h);
      if slot >= m || Bit(words, slot) {
        SeenTwice(pairs, mph, m, i, words);
        return false, [];
      }
      SeenFresh(pairs, mph, m, i, words);
      words := SetBit(words, slot);
    }
    AllSeen(pairs, mph, m, words);
    ok := true;
  }

  /** The streaming build, under any run budget: it succeeds where the build in memory does and makes the
      same index. */
  method BuildClosedToFile(input: seq<Pair>, mph: u64 -> u64, threads: nat, runBytes: nat) returns (r: ClosedOutcome)
    ensures r.TooMany? <==> |Canonical(input)| > 0xFFFF_FFFF
    ensures r.ClosedBuilt? <==>
      |Canonical(input)| <= 0xFFFF_FFFF && Perfect(mph, Canonical(input), Slots(Canonical(input)))
    ensures r.ClosedBuilt? ==> r.index == ClosedOf(Canonical(input), mph)
  {
    hide SideOf, Perfect, Slots, SameHash, Canonical, HashesApart, Concat;
    var stream := StreamAll(input, threads, runBytes);
    var (n, sideLen) := stream.Counts();
    if n > MAX_KEYS {
      return TooMany;
    }
    var pairs := stream.All();
    SlotsAre(pairs);
    var m: nat := n - sideLen;
    var ok, side := WalkClosed(pairs, mph, m);
    r := if !ok then Imperfect
         else if pairs == [] then ClosedBuilt(ClosedIndex(None, 0, []))
         else ClosedBuilt(ClosedIndex(Some(mph), n, side));
  }
}
