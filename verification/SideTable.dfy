/** Keys that share a hash: one of each hash's keys is its representative and owns a slot, the others take
    the ids past the slots, in a side table under both their hashes. However many keys share hashes, the
    ids given are each of those below the count once. */
module SideTables {
  import opened Pairs
  import opened Wrappers

  /** A value no slot has. */
  const NO_SLOT := 0xFFFF_FFFF_FFFF_FFFF
  const MAX_KEYS := 0xFFFF_FFFF

  /** Whether pair `i` shares its hash with the one before. */
  predicate Follows(pairs: seq<Pair>, i: nat)
    requires i < |pairs|
  {
    i > 0 && pairs[i - 1].0 == pairs[i].0
  }

  lemma SameHashStep(pairs: seq<Pair>, i: nat)
    requires i < |pairs|
    ensures SameHash(pairs[..i + 1]) == SameHash(pairs[..i]) + if Follows(pairs, i) then 1 else 0
  {
    assert pairs[..i + 1][..i] == pairs[..i];
  }

  lemma {:induction false} SameHashAscends(pairs: seq<Pair>, i: nat, j: nat)
    requires i <= j <= |pairs|
    ensures SameHash(pairs[..i]) <= SameHash(pairs[..j]) <= SameHash(pairs[..i]) + (j - i)
  {
    if i < j {
      SameHashAscends(pairs, i, j - 1);
      SameHashStep(pairs, j - 1);
    }
  }

  /** The representatives: how many pairs do not share their hash with the one before. */
  ghost function Slots(pairs: seq<Pair>): (m: nat) {
    SameHashAscends(pairs, 0, |pairs|);
    assert pairs[..|pairs|] == pairs;
    |pairs| - SameHash(pairs)
  }

  // ----- slots in place

  /** What the pass leaves at `i`: the slot of a representative, and no slot for a follower. */
  function Slotted(pairs: seq<Pair>, mph: u64 -> u64, i: nat): Pair
    requires i < |pairs|
  {
    (if Follows(pairs, i) then NO_SLOT else mph(pairs[i].0), pairs[i].1)
  }

  /** One chunk, its first pair taken as a follower where it joins the chunk before. */
  method FillChunk(pairs: array<Pair>, lo: nat, hi: nat, joins: bool, mph: u64 -> u64, ghost was: seq<Pair>)
    requires lo < hi <= pairs.Length == |was|
    requires pairs[lo..hi] == was[lo..hi] && joins == Follows(was, lo)
    modifies pairs
    ensures forall i :: lo <= i < hi ==> pairs[i] == Slotted(was, mph, i)
    ensures forall i :: 0 <= i < pairs.Length && !(lo <= i < hi) ==> pairs[i] == old(pairs[i])
  {
    assert forall k :: lo <= k < hi ==> pairs[k] == pairs[lo..hi][k - lo];
    var last: Option<u64> := if joins then Some(pairs[lo].0) else None;
    for i := lo to hi
      invariant forall k :: lo <= k < i ==> pairs[k] == Slotted(was, mph, k)
      invariant forall k :: i <= k < hi ==> pairs[k] == was[k]
      invariant forall k :: 0 <= k < pairs.Length && !(lo <= k < hi) ==> pairs[k] == old(pairs[k])
      invariant i == lo ==> last == if joins then Some(was[lo].0) else None
      invariant i > lo ==> last == Some(was[i - 1].0)
    {
      var h := pairs[i].0;
      pairs[i] := (if last == Some(h) then NO_SLOT else mph(h), pairs[i].1);
      last := Some(h);
    }
  }

  /** Every pair's hash replaced by its slot, chunk by chunk; the same for any number of threads. */
  method SlotsInPlace(pairs: array<Pair>, mph: u64 -> u64, threads: nat)
    modifies pairs
    ensures forall i :: 0 <= i < pairs.Length ==> pairs[i] == Slotted(old(pairs[..]), mph, i)
  {
    ghost var was := pairs[..];
    var parts := if threads <= 1 || pairs.Length < threads * 4096 then 1 else threads;
    var chunk := (pairs.Length + parts - 1) / parts;
    if chunk < 1 {
      chunk := 1;
    }
    var joins := Joins(pairs[..], chunk);
    var lo, c := 0, 0;
    while lo < pairs.Length
      invariant 0 <= lo && c <= |joins| + 1
      invariant lo < pairs.Length ==> c < |joins| && lo == joins[c].0
      invariant forall i :: 0 <= i < lo && i < pairs.Length ==> pairs[i] == Slotted(was, mph, i)
      invariant forall i :: lo <= i < pairs.Length ==> pairs[i] == was[i]
      decreases pairs.Length - lo
    {
      var hi := if lo + chunk < pairs.Length then lo + chunk else pairs.Length;
      FillChunk(pairs, lo, hi, joins[c].1, mph, was);
      lo := lo + chunk;
      c := c + 1;
    }
  }

  /** The start of every chunk, and whether the hash at it goes on from the chunk in front; all of them taken
      down while the hashes are still there. */
  method Joins(pairs: seq<Pair>, chunk: nat) returns (joins: seq<(nat, bool)>)
    requires chunk >= 1
    ensures pairs != [] ==> joins != [] && joins[0].0 == 0
    ensures forall c :: 0 <= c < |joins| ==> joins[c].0 < |pairs| && joins[c].1 == Follows(pairs, joins[c].0)
    ensures forall c :: 0 < c < |joins| ==> joins[c].0 == joins[c - 1].0 + chunk
    ensures joins != [] ==> joins[|joins| - 1].0 + chunk >= |pairs|
  {
    joins := [];
    var s := 0;
    while s < |pairs|
      invariant joins == [] ==> s == 0
      invariant joins != [] ==> joins[0].0 == 0 && s == joins[|joins| - 1].0 + chunk
      invariant forall c :: 0 <= c < |joins| ==> joins[c].0 < |pairs| && joins[c].1 == Follows(pairs, joins[c].0)
      invariant forall c :: 0 < c < |joins| ==> joins[c].0 == joins[c - 1].0 + chunk
    {
      joins := joins + [(s, s > 0 && pairs[s - 1].0 == pairs[s].0)];
      s := s + chunk;
    }
  }

  // ----- the side table

  type Entry = (u64, u64, nat)

  /** The followers among the first `i` pairs, each with the next id from `m` on. */
  function SideOf(pairs: seq<Pair>, i: nat, m: nat): (side: seq<Entry>)
    requires i <= |pairs|
    ensures |side| == SameHash(pairs[..i])
  {
    if i == 0 then []
    else
      SameHashStep(pairs, i - 1);
      var side := SideOf(pairs, i - 1, m);
      if Follows(pairs, i - 1) then side + [(pairs[i - 1].0, pairs[i - 1].1, m + |side|)] else side
  }

  /** A follower is in the side table under its own hashes, with the id its place gives. */
  lemma {:induction false} FollowerListed(pairs: seq<Pair>, i: nat, k: nat, m: nat)
    requires k < i <= |pairs| && Follows(pairs, k)
    ensures var j := SameHash(pairs[..k]);
      j < |SideOf(pairs, i, m)| && SideOf(pairs, i, m)[j] == (pairs[k].0, pairs[k].1, m + j)
  {
    if k < i - 1 {
      FollowerListed(pairs, i - 1, k, m);
    }
  }

  /** And every entry is a follower's. */
  lemma {:induction false} ListedFollows(pairs: seq<Pair>, i: nat, j: nat, m: nat) returns (k: nat)
    requires i <= |pairs| && j < |SideOf(pairs, i, m)|
    ensures k < i && Follows(pairs, k) && j == SameHash(pairs[..k])
    ensures SideOf(pairs, i, m)[j] == (pairs[k].0, pairs[k].1, m + j)
  {
    var before := SideOf(pairs, i - 1, m);
    if j < |before| {
      k := ListedFollows(pairs, i - 1, j, m);
    } else {
      k := i - 1;
    }
  }

  function FollowersOf(pairs: seq<Pair>, i: nat): (followers: seq<Pair>)
    requires i <= |pairs|
  {
    if i == 0 then []
    else if Follows(pairs, i - 1) then FollowersOf(pairs, i - 1) + [pairs[i - 1]]
    else FollowersOf(pairs, i - 1)
  }

  /** The ids assigned once the number of representatives is known. */
  method CollectSide(pairs: seq<Pair>) returns (side: seq<Entry>, m: nat)
    ensures m == Slots(pairs)
    ensures side == SideOf(pairs, |pairs|, m)
  {
    var followers: seq<Pair> := [];
    m := 0;
    var i := 0;
    while i < |pairs|
      invariant 0 <= i <= |pairs| && m == i - SameHash(pairs[..i])
      invariant i < |pairs| ==> !Follows(pairs, i)
      invariant followers == FollowersOf(pairs, i)
    {
      SameHashStep(pairs, i);
      m := m + 1;
      i := i + 1;
      while i < |pairs| && pairs[i].0 == pairs[i - 1].0
        invariant 0 < i <= |pairs| && m == i - SameHash(pairs[..i])
        invariant followers == FollowersOf(pairs, i)
      {
        SameHashStep(pairs, i);
        followers := followers + [pairs[i]];
        i := i + 1;
      }
    }
    assert pairs[..|pairs|] == pairs;
    side := seq(|followers|, j requires 0 <= j < |followers| => (followers[j].0, followers[j].1, m + j));
    SideNumbered(pairs, |pairs|, m);
  }

  /** The side table is the followers, numbered from `m`. */
  lemma {:induction false} SideNumbered(pairs: seq<Pair>, i: nat, m: nat)
    requires i <= |pairs|
    ensures var followers := FollowersOf(pairs, i);
      SideOf(pairs, i, m) == seq(|followers|, j requires 0 <= j < |followers| => (followers[j].0, followers[j].1, m + j))
  {
    if i > 0 {
      SideNumbered(pairs, i - 1, m);
    }
  }

  /** `partition_point` of the hashes below `h`. */
  function FirstAtLeast(side: seq<Entry>, h: u64): (k: nat)
    ensures k <= |side|
  {
    if side == [] || side[0].0 >= h then 0 else 1 + FirstAtLeast(side[1..], h)
  }

  function Scan(side: seq<Entry>, k: nat, h: u64, second: u64): Option<nat>
    requires k <= |side|
    decreases |side| - k
  {
    if k == |side| || side[k].0 != h then None
    else if side[k].1 == second then Some(side[k].2)
    else Scan(side, k + 1, h, second)
  }

  /** Entries ascend by their hashes. */
  ghost predicate SideStrict(side: seq<Entry>) {
    forall i, j :: 0 <= i < j < |side| ==> PairLess((side[i].0, side[i].1), (side[j].0, side[j].1))
  }

  lemma {:induction false} FirstAtLeastIs(side: seq<Entry>, h: u64)
    requires SideStrict(side)
    ensures forall i :: 0 <= i < FirstAtLeast(side, h) ==> side[i].0 < h
    ensures forall i :: FirstAtLeast(side, h) <= i < |side| ==> side[i].0 >= h
  {
    if side != [] && side[0].0 < h {
      var tail := side[1..];
      assert forall i :: 0 <= i < |tail| ==> tail[i] == side[i + 1];
      FirstAtLeastIs(tail, h);
      forall i | 0 <= i < FirstAtLeast(side, h)
        ensures side[i].0 < h
      {
        assert i > 0 ==> side[i] == tail[i - 1];
      }
      forall i | FirstAtLeast(side, h) <= i < |side|
        ensures side[i].0 >= h
      {
        assert side[i] == tail[i - 1];
      }
    }
  }

  lemma {:induction false} ScanFinds(side: seq<Entry>, k: nat, h: u64, second: u64, j: nat)
    requires SideStrict(side) && k <= j < |side|
    requires forall i :: k <= i < |side| ==> side[i].0 >= h
    requires side[j].0 == h && side[j].1 == second
    ensures Scan(side, k, h, second) == Some(side[j].2)
    decreases j - k
  {
    if k < j {
      assert PairLess((side[k].0, side[k].1), (side[j].0, side[j].1));
      ScanFinds(side, k + 1, h, second, j);
    }
  }

  lemma {:induction false} ScanIsListed(side: seq<Entry>, k: nat, h: u64, second: u64) returns (j: nat)
    requires k <= |side| && Scan(side, k, h, second).Some?
    ensures k <= j < |side| && side[j] == (h, second, Scan(side, k, h, second).value)
    decreases |side| - k
  {
    if side[k].1 == second {
      j := k;
    } else {
      j := ScanIsListed(side, k + 1, h, second);
    }
  }

  /** The id listed for a key with these hashes, under its full second hash. */
  function Listed(side: seq<Entry>, h: u64, second: u64): Option<nat> {
    Scan(side, FirstAtLeast(side, h), h, second)
  }

  /** The side table answers for exactly the pairs it lists. */
  lemma ListedIff(side: seq<Entry>, h: u64, second: u64, id: nat)
    requires SideStrict(side)
    ensures Listed(side, h, second) == Some(id) <==> (h, second, id) in side
  {
    FirstAtLeastIs(side, h);
    if (h, second, id) in side {
      var j :| 0 <= j < |side| && side[j] == (h, second, id);
      ScanFinds(side, FirstAtLeast(side, h), h, second, j);
    }
    if Listed(side, h, second) == Some(id) {
      var j := ScanIsListed(side, FirstAtLeast(side, h), h, second);
    }
  }

  lemma SideIsStrict(pairs: seq<Pair>, m: nat)
    requires Strict(pairs)
    ensures SideStrict(SideOf(pairs, |pairs|, m))
  {
    var side := SideOf(pairs, |pairs|, m);
    forall i, j | 0 <= i < j < |side|
      ensures PairLess((side[i].0, side[i].1), (side[j].0, side[j].1))
    {
      var a := ListedFollows(pairs, |pairs|, i, m);
      var b := ListedFollows(pairs, |pairs|, j, m);
      if b < a {
        SameHashAscends(pairs, b, a);
      }
      assert a != b;
      assert PairLess(pairs[a], pairs[b]);
    }
  }

  // ----- the ids

  /** The hash places every representative below `m`, no two at one slot. */
  ghost predicate Perfect(mph: u64 -> u64, pairs: seq<Pair>, m: nat) {
    && (forall i :: 0 <= i < |pairs| && !Follows(pairs, i) ==> mph(pairs[i].0) < m)
    && (forall i, j :: 0 <= i < j < |pairs| && !Follows(pairs, i) && !Follows(pairs, j) ==>
          mph(pairs[i].0) != mph(pairs[j].0))
  }

  /** The id a pair was given: its slot, or its place among the followers past the slots. */
  ghost function Given(pairs: seq<Pair>, mph: u64 -> u64, i: nat): nat
    requires i < |pairs|
  {
    if Follows(pairs, i) then Slots(pairs) + SameHash(pairs[..i]) else mph(pairs[i].0)
  }

  /** The hashes of the first `k` pairs. */
  ghost function HashesOf(pairs: seq<Pair>, k: nat): set<u64>
    requires k <= |pairs|
  {
    set i | 0 <= i < k :: pairs[i].0
  }

  /** A slot to each hash: the representatives are as many as the hashes. */
  lemma {:induction false} HashesCounted(pairs: seq<Pair>, k: nat)
    requires Strict(pairs) && k <= |pairs|
    ensures |HashesOf(pairs, k)| == k - SameHash(pairs[..k])
  {
    if k > 0 {
      HashesCounted(pairs, k - 1);
      SameHashStep(pairs, k - 1);
      var before, h := HashesOf(pairs, k - 1), pairs[k - 1].0;
      assert HashesOf(pairs, k) == before + {h};
      if Follows(pairs, k - 1) {
        assert pairs[k - 2].0 in before;
        assert before + {h} == before;
      } else {
        forall g <- before
          ensures g < h
        {
          var i :| 0 <= i < k - 1 && pairs[i].0 == g;
          HashBelow(pairs, i, k - 1);
        }
      }
    }
  }

  /** A representative's hash is above every one before it. */
  lemma HashBelow(pairs: seq<Pair>, i: nat, j: nat)
    requires Strict(pairs) && i < j < |pairs| && !Follows(pairs, j)
    ensures pairs[i].0 < pairs[j].0
  {
    assert PairLess(pairs[j - 1], pairs[j]);
    assert i < j - 1 ==> PairLess(pairs[i], pairs[j - 1]);
  }

  /** The hash sends those there are to different numbers below as many. */
  ghost predicate Spreads(mph: u64 -> u64, hashes: set<u64>) {
    && (forall h <- hashes :: mph(h) < |hashes|)
    && forall g <- hashes, h <- hashes :: g != h ==> mph(g) != mph(h)
  }

  /** So it is perfect on the representatives, and only so. */
  lemma PerfectIff(mph: u64 -> u64, pairs: seq<Pair>)
    requires Strict(pairs)
    ensures Perfect(mph, pairs, Slots(pairs)) <==> Spreads(mph, HashesOf(pairs, |pairs|))
  {
    hide Slots, SameHash;
    var hashes := HashesOf(pairs, |pairs|);
    SlotsAreHashes(pairs);
    if Perfect(mph, pairs, Slots(pairs)) {
      forall g <- hashes, h <- hashes
        ensures mph(h) < |hashes| && (g != h ==> mph(g) != mph(h))
      {
        var i := FirstOf(pairs, g);
        var j := FirstOf(pairs, h);
      }
    }
    if Spreads(mph, hashes) {
      forall i, j | 0 <= i < j < |pairs| && !Follows(pairs, i) && !Follows(pairs, j)
        ensures mph(pairs[i].0) != mph(pairs[j].0)
      {
        HashBelow(pairs, i, j);
        assert pairs[i].0 in hashes && pairs[j].0 in hashes;
      }
      forall i | 0 <= i < |pairs|
        ensures mph(pairs[i].0) < |hashes|
      {
        assert pairs[i].0 in hashes;
      }
    }
  }

  lemma SlotsAreHashes(pairs: seq<Pair>)
    requires Strict(pairs)
    ensures Slots(pairs) == |HashesOf(pairs, |pairs|)|
  {
    HashesCounted(pairs, |pairs|);
    assert pairs[..|pairs|] == pairs;
  }

  /** The representative of a hash. */
  lemma FirstOf(pairs: seq<Pair>, h: u64) returns (i: nat)
    requires h in HashesOf(pairs, |pairs|)
    ensures i < |pairs| && pairs[i].0 == h && !Follows(pairs, i)
  {
    i :| 0 <= i < |pairs| && pairs[i].0 == h;
    while Follows(pairs, i)
      invariant i < |pairs| && pairs[i].0 == h
      decreases i
    {
      i := i - 1;
    }
  }

  /** The ids, counted: the first pair of a hash is given its slot, and any other a number past the slots, so many
      more as there are pairs before it that are not the first of theirs. */
  lemma GivenIs(pairs: seq<Pair>, mph: u64 -> u64, i: nat)
    requires Strict(pairs) && i < |pairs|
    ensures Given(pairs, mph, i) == if i == 0 || pairs[i - 1].0 < pairs[i].0 then mph(pairs[i].0)
      else |HashesOf(pairs, |pairs|)| + (i - |HashesOf(pairs, i)|)
  {
    SlotsAreHashes(pairs);
    HashesCounted(pairs, i);
    assert i > 0 ==> PairLess(pairs[i - 1], pairs[i]);
  }

  /** A follower is answered from the side table with the id it was given. */
  lemma FollowerFound(pairs: seq<Pair>, i: nat)
    requires Strict(pairs) && i < |pairs| && Follows(pairs, i)
    ensures var (m, side) := (Slots(pairs), SideOf(pairs, |pairs|, Slots(pairs)));
      side != [] && Listed(side, pairs[i].0, pairs[i].1) == Some(m + SameHash(pairs[..i]))
  {
    hide Listed, SideStrict, SideOf, Strict;
    var m := Slots(pairs);
    SideIsStrict(pairs, m);
    FollowerInSide(pairs, i, m);
    ListedIff(SideOf(pairs, |pairs|, m), pairs[i].0, pairs[i].1, m + SameHash(pairs[..i]));
  }

  lemma FollowerInSide(pairs: seq<Pair>, i: nat, m: nat)
    requires i < |pairs| && Follows(pairs, i)
    ensures (pairs[i].0, pairs[i].1, m + SameHash(pairs[..i])) in SideOf(pairs, |pairs|, m)
  {
    FollowerListed(pairs, |pairs|, i, m);
  }

  /** The side table never answers for a representative, even where its fingerprint ties a follower's. */
  lemma NotListed(pairs: seq<Pair>, i: nat)
    requires Strict(pairs) && i < |pairs| && !Follows(pairs, i)
    ensures Listed(SideOf(pairs, |pairs|, Slots(pairs)), pairs[i].0, pairs[i].1).None?
  {
    var m, h, second := Slots(pairs), pairs[i].0, pairs[i].1;
    var side := SideOf(pairs, |pairs|, m);
    SideIsStrict(pairs, m);
    var listed := Listed(side, h, second);
    if listed.Some? {
      ListedIff(side, h, second, listed.value);
      var j :| 0 <= j < |side| && side[j] == (h, second, listed.value);
      var k := ListedFollows(pairs, |pairs|, j, m);
      StrictApart(pairs, i, k);
    }
  }

  lemma StrictApart(pairs: seq<Pair>, i: nat, k: nat)
    requires Strict(pairs) && i < |pairs| && k < |pairs| && i != k
    ensures pairs[i] != pairs[k]
  {
    if i < k {
      assert PairLess(pairs[i], pairs[k]);
    } else {
      assert PairLess(pairs[k], pairs[i]);
    }
  }

  /** The id of the key with these hashes where nothing is stored to match it: the side table's, or else
      the slot's, and zero with no hash to ask. */
  function Unchecked(mph: Option<u64 -> u64>, side: seq<Entry>, h: u64, second: u64): nat {
    var listed := if side == [] then None else Listed(side, h, second);
    if listed.Some? then listed.value else if mph.None? then 0 else mph.value(h)
  }

  /** Every member is answered with the id it was given. */
  lemma UncheckedIsGiven(pairs: seq<Pair>, mph: u64 -> u64, i: nat)
    requires Strict(pairs) && i < |pairs|
    ensures Unchecked(Some(mph), SideOf(pairs, |pairs|, Slots(pairs)), pairs[i].0, pairs[i].1) == Given(pairs, mph, i)
  {
    if Follows(pairs, i) {
      FollowerFound(pairs, i);
    } else {
      NotListed(pairs, i);
    }
  }

  lemma GivenInjective(pairs: seq<Pair>, mph: u64 -> u64, i: nat, j: nat)
    requires Perfect(mph, pairs, Slots(pairs)) && i < j < |pairs|
    ensures Given(pairs, mph, i) != Given(pairs, mph, j)
  {
    if Follows(pairs, i) && Follows(pairs, j) {
      SameHashStep(pairs, i);
      SameHashAscends(pairs, i + 1, j);
    }
  }

  lemma GivenInRange(pairs: seq<Pair>, mph: u64 -> u64, i: nat)
    requires Perfect(mph, pairs, Slots(pairs)) && i < |pairs|
    ensures Given(pairs, mph, i) < |pairs|
  {
    assert pairs[..|pairs|] == pairs;
    if Follows(pairs, i) {
      SameHashStep(pairs, i);
      SameHashAscends(pairs, i + 1, |pairs|);
    } else {
      SameHashAscends(pairs, 0, |pairs|);
    }
  }

  /** `n` distinct numbers below `n` are all of them. */
  lemma {:induction false} DistinctBelowIsAll(s: seq<nat>, n: nat, v: nat)
    requires |s| == n && v < n
    requires forall i :: 0 <= i < n ==> s[i] < n
    requires forall i, j :: 0 <= i < j < n ==> s[i] != s[j]
    ensures v in s
  {
    var got := set i | 0 <= i < n :: s[i];
    CountDistinct(s, n);
    CountBelow(n);
    if v !in s {
      assert got <= Below(n) - {v};
      Smaller(got, Below(n) - {v});
    }
  }

  function Below(n: nat): (b: set<nat>)
    ensures forall k: nat :: k in b <==> k < n
  {
    if n == 0 then {} else Below(n - 1) + {n - 1}
  }

  lemma Smaller(a: set<nat>, b: set<nat>)
    requires a <= b
    ensures |a| <= |b|
  {
    assert b == a + (b - a);
  }

  lemma {:induction false} CountBelow(n: nat)
    ensures |Below(n)| == n
  {
    if n > 0 {
      CountBelow(n - 1);
    }
  }

  lemma {:induction false} CountDistinct(s: seq<nat>, k: nat)
    requires k <= |s| && forall i, j :: 0 <= i < j < |s| ==> s[i] != s[j]
    ensures |set i | 0 <= i < k :: s[i]| == k
  {
    if k > 0 {
      CountDistinct(s, k - 1);
      assert (set i | 0 <= i < k :: s[i]) == (set i | 0 <= i < k - 1 :: s[i]) + {s[k - 1]};
    }
  }

  /** Every id below the count was given to some pair. */
  lemma GivenTo(pairs: seq<Pair>, mph: u64 -> u64, v: nat) returns (i: nat)
    requires Perfect(mph, pairs, Slots(pairs)) && v < |pairs|
    ensures i < |pairs| && Given(pairs, mph, i) == v
  {
    var ids := seq(|pairs|, i requires 0 <= i < |pairs| => Given(pairs, mph, i));
    forall i | 0 <= i < |pairs|
      ensures ids[i] < |pairs|
    {
      GivenInRange(pairs, mph, i);
    }
    forall i, j | 0 <= i < j < |pairs|
      ensures ids[i] != ids[j]
    {
      GivenInjective(pairs, mph, i, j);
    }
    DistinctBelowIsAll(ids, |pairs|, v);
    i :| 0 <= i < |ids| && ids[i] == v;
  }
}
