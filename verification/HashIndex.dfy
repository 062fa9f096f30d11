/** The hash index over sorted distinct pairs: a perfect hash places one representative of each hash, and its
    followers are listed in a side table, with the ids past the slots. */
module HashIndexes {
  import opened Lex
  import opened Bits
  import opened Pairs
  import opened SideTables
  import opened FpTable
  import opened FpPlace
  import opened FpStage
  import opened StreamPairs
  import opened Wrappers

  // ----- the index

  datatype HashIndex = HashIndex(mph: Option<u64 -> u64>, fps: seq<byte>, bits: nat, n: nat, side: seq<Entry>) {

    /** Answer a key by its two hashes: as a follower where it is listed, and otherwise by the slot of its hash,
        if the fingerprint kept there is its own. */
    function Id(h: u64, second: u64): Option<nat>
      requires 1 <= bits <= 64
    {
      var listed := if side == [] then None else Listed(side, h, second);
      if listed.Some? then listed
      else if mph.None? then None
      else
        var slot := mph.value(h);
        if ReadFp(fps, slot, bits) == Some(Masked(second, bits)) then Some(slot as int as nat) else None
    }

    /** The id without a fingerprint to match: what a closed vocabulary asks for. */
    function IdUnchecked(h: u64, second: u64): nat {
      Unchecked(mph, side, h, second)
    }
  }

  // ----- the build

  /** What the build makes of sorted distinct pairs. */
  ghost predicate Represents(index: HashIndex, pairs: seq<Pair>, mph: u64 -> u64) {
    && Strict(pairs) && 1 <= index.bits <= 64
    && index.n == |pairs|
    && (pairs == [] ==> index.mph.None? && index.side == [])
    && (pairs != [] ==>
          && index.mph == Some(mph)
          && Perfect(mph, pairs, Slots(pairs))
          && index.side == SideOf(pairs, |pairs|, Slots(pairs))
          && TableOf(index.fps, Filled(RepPuts(pairs, mph, index.bits, |pairs|), Slots(pairs)), index.bits)
          && forall i :: 0 <= i < |pairs| && !Follows(pairs, i) ==>
               ReadFp(index.fps, mph(pairs[i].0), index.bits) == Some(Masked(pairs[i].1, index.bits)))
  }

  /** Every member is answered with the id it was given, whatever the fingerprint width and however many
      keys share its hash. */
  lemma MembersAreFound(index: HashIndex, pairs: seq<Pair>, mph: u64 -> u64, i: nat)
    requires Represents(index, pairs, mph) && i < |pairs|
    ensures index.Id(pairs[i].0, pairs[i].1) == Some(Given(pairs, mph, i))
    ensures index.IdUnchecked(pairs[i].0, pairs[i].1) == Given(pairs, mph, i)
  {
    UncheckedIsGiven(pairs, mph, i);
    if Follows(pairs, i) {
      FollowerFound(pairs, i);
    } else {
      NotListed(pairs, i);
    }
  }

  /** Ids are a bijection of the distinct pairs onto `[0, n)`. */
  lemma IdsAreABijection(index: HashIndex, pairs: seq<Pair>, mph: u64 -> u64)
    requires Represents(index, pairs, mph)
    ensures forall i :: 0 <= i < |pairs| ==>
      && index.Id(pairs[i].0, pairs[i].1).Some? && index.Id(pairs[i].0, pairs[i].1).value < index.n
      && index.IdUnchecked(pairs[i].0, pairs[i].1) == index.Id(pairs[i].0, pairs[i].1).value
    ensures forall i, j :: 0 <= i < j < |pairs| ==>
      index.Id(pairs[i].0, pairs[i].1) != index.Id(pairs[j].0, pairs[j].1)
    ensures forall v :: 0 <= v < index.n ==>
      exists i :: 0 <= i < |pairs| && index.Id(pairs[i].0, pairs[i].1) == Some(v)
  {
    if pairs != [] {
      AllGiven(index, pairs, mph);
      forall v | 0 <= v < index.n
        ensures exists i :: 0 <= i < |pairs| && index.Id(pairs[i].0, pairs[i].1) == Some(v)
      {
        var i := GivenTo(pairs, mph, v);
        assert index.Id(pairs[i].0, pairs[i].1) == Some(v);
      }
      forall i, j | 0 <= i < j < |pairs|
        ensures index.Id(pairs[i].0, pairs[i].1) != index.Id(pairs[j].0, pairs[j].1)
      {
        GivenInjective(pairs, mph, i, j);
      }
    }
  }

  lemma AllGiven(index: HashIndex, pairs: seq<Pair>, mph: u64 -> u64)
    requires Represents(index, pairs, mph) && pairs != []
    ensures forall i :: 0 <= i < |pairs| ==>
      && index.Id(pairs[i].0, pairs[i].1) == Some(Given(pairs, mph, i))
      && index.IdUnchecked(pairs[i].0, pairs[i].1) == Given(pairs, mph, i) < |pairs|
  {
    forall i | 0 <= i < |pairs|
      ensures index.Id(pairs[i].0, pairs[i].1) == Some(Given(pairs, mph, i))
      ensures index.IdUnchecked(pairs[i].0, pairs[i].1) == Given(pairs, mph, i) < |pairs|
    {
      MembersAreFound(index, pairs, mph, i);
      GivenInRange(pairs, mph, i);
    }
  }

  /** The index of no pairs answers no key; asked without a match, it answers zero. */
  lemma NoPairsNoAnswer(index: HashIndex, mph: u64 -> u64, h: u64, second: u64)
    requires Represents(index, [], mph)
    ensures index.Id(h, second).None? && index.IdUnchecked(h, second) == 0
  {
    hide Listed, ReadFp;
  }

  /** Whatever the key, an answer is some pair's id: a follower's only for that pair itself, and a
      representative's only where the key shares its slot and the low bits of its second hash. */
  lemma AnswersNameAPair(index: HashIndex, pairs: seq<Pair>, mph: u64 -> u64, h: u64, second: u64) returns (i: nat)
    requires Represents(index, pairs, mph) && mph(h) < Slots(pairs)
    requires index.Id(h, second).Some?
    ensures i < |pairs| && index.Id(h, second) == Some(Given(pairs, mph, i)) && Given(pairs, mph, i) < index.n
    ensures if Follows(pairs, i) then pairs[i] == (h, second)
            else mph(h) == mph(pairs[i].0) && second as int % Pow2(index.bits) == pairs[i].1 as int % Pow2(index.bits)
  {
    hide Represents, HashIndex.Id, Given, Follows, Pow2, Low;
    i := AnswerOf(index, pairs, mph, h, second);
    SameLowBits(second as int, pairs[i].1 as int, index.bits);
  }

  lemma AnswerOf(index: HashIndex, pairs: seq<Pair>, mph: u64 -> u64, h: u64, second: u64) returns (i: nat)
    requires Represents(index, pairs, mph) && mph(h) < Slots(pairs)
    requires index.Id(h, second).Some?
    ensures i < |pairs| && index.Id(h, second) == Some(Given(pairs, mph, i)) && Given(pairs, mph, i) < index.n
    ensures if Follows(pairs, i) then pairs[i] == (h, second)
            else mph(h) == mph(pairs[i].0) && Low(second as int, index.bits) == Low(pairs[i].1 as int, index.bits)
  {
    hide Listed, SideOf, ReadFp, Low, Given, Perfect, TableOf, RepPuts, Filled;
    var v := index.Id(h, second).value;
    if index.side != [] && Listed(index.side, h, second).Some? {
      i := ListedAnswer(pairs, mph, h, second, v);
    } else {
      i := SlotAnswer(index, pairs, mph, h, second);
    }
    GivenInRange(pairs, mph, i);
  }

  /** What a key that is no follower is answered: the slot its hash is given, where the low bits of its second
      hash are those of the representative there, and nothing where they are not. */
  lemma FingerprintDecides(index: HashIndex, pairs: seq<Pair>, mph: u64 -> u64, h: u64, second: u64, i: nat)
    requires Represents(index, pairs, mph) && i < |pairs| && !Follows(pairs, i) && mph(h) == mph(pairs[i].0)
    requires forall j :: 0 <= j < |pairs| && Follows(pairs, j) ==> pairs[j] != (h, second)
    ensures index.Id(h, second)
         == if second as int % Pow2(index.bits) == pairs[i].1 as int % Pow2(index.bits) then Some(mph(h) as int)
            else None
    ensures index.bits == 64 ==> (index.Id(h, second).Some? <==> second == pairs[i].1)
  {
    hide Represents, HashIndex.Id, Follows, Pow2, Low;
    LowDecides(index, pairs, mph, h, second, i);
    SameLowBits(second as int, pairs[i].1 as int, index.bits);
    WordPowers();
    LowOfSmall(second as int, 64);
    LowOfSmall(pairs[i].1 as int, 64);
  }

  lemma LowDecides(index: HashIndex, pairs: seq<Pair>, mph: u64 -> u64, h: u64, second: u64, i: nat)
    requires Represents(index, pairs, mph) && i < |pairs| && !Follows(pairs, i) && mph(h) == mph(pairs[i].0)
    requires forall j :: 0 <= j < |pairs| && Follows(pairs, j) ==> pairs[j] != (h, second)
    ensures index.Id(h, second)
         == if Low(second as int, index.bits) == Low(pairs[i].1 as int, index.bits) then Some(mph(h) as int) else None
  {
    hide Low, Listed, SideOf, ReadFp, Perfect, TableOf, RepPuts, Filled, Given, Slots;
    if index.side != [] && Listed(index.side, h, second).Some? {
      var j := ListedAnswer(pairs, mph, h, second, Listed(index.side, h, second).value);
      assert false;
    }
  }

  lemma ListedAnswer(pairs: seq<Pair>, mph: u64 -> u64, h: u64, second: u64, v: nat) returns (i: nat)
    requires Strict(pairs) && Listed(SideOf(pairs, |pairs|, Slots(pairs)), h, second) == Some(v)
    ensures i < |pairs| && Follows(pairs, i) && pairs[i] == (h, second) && Given(pairs, mph, i) == v
  {
    hide Listed, SideStrict, Strict;
    var m := Slots(pairs);
    var side := SideOf(pairs, |pairs|, m);
    SideIsStrict(pairs, m);
    ListedIff(side, h, second, v);
    var j :| 0 <= j < |side| && side[j] == (h, second, v);
    i := ListedFollows(pairs, |pairs|, j, m);
  }

  lemma SlotAnswer(index: HashIndex, pairs: seq<Pair>, mph: u64 -> u64, h: u64, second: u64) returns (i: nat)
    requires Represents(index, pairs, mph) && pairs != [] && mph(h) < Slots(pairs)
    requires ReadFp(index.fps, mph(h), index.bits) == Some(Masked(second, index.bits))
    ensures i < |pairs| && !Follows(pairs, i) && mph(h) == mph(pairs[i].0) && Given(pairs, mph, i) == mph(h)
    ensures Masked(second, index.bits) == Masked(pairs[i].1, index.bits)
  {
    hide SideOf, ReadFp, Masked, Perfect, TableOf, RepPuts, Filled;
    SlotsAtMost(pairs);
    i := GivenTo(pairs, mph, mph(h));
  }

  lemma SlotsAre(pairs: seq<Pair>)
    ensures Slots(pairs) == |pairs| - SameHash(pairs)
  {
  }

  lemma SlotsAtMost(pairs: seq<Pair>)
    ensures Slots(pairs) <= |pairs|
  {
  }

  // ----- the fingerprints a build places

  /** A representative's fingerprint for its slot. */
  function PutOf(pairs: seq<Pair>, mph: u64 -> u64, bits: nat, i: nat): Put
    requires i < |pairs|
  {
    (mph(pairs[i].0) as int as nat, Masked(pairs[i].1, bits))
  }

  /** Each representative's, in order. */
  function RepPuts(pairs: seq<Pair>, mph: u64 -> u64, bits: nat, i: nat): seq<Put>
    requires i <= |pairs|
  {
    if i == 0 then []
    else
      var puts := RepPuts(pairs, mph, bits, i - 1);
      if Follows(pairs, i - 1) then puts else puts + [PutOf(pairs, mph, bits, i - 1)]
  }

  /** Put `k` is representative `RepAt`'s. */
  function RepAt(pairs: seq<Pair>, mph: u64 -> u64, bits: nat, i: nat, k: nat): (j: nat)
    requires i <= |pairs| && k < |RepPuts(pairs, mph, bits, i)|
    ensures j < i && !Follows(pairs, j) && RepPuts(pairs, mph, bits, i)[k] == PutOf(pairs, mph, bits, j)
  {
    if k < |RepPuts(pairs, mph, bits, i - 1)| then RepAt(pairs, mph, bits, i - 1, k) else i - 1
  }

  lemma SlotsApart(pairs: seq<Pair>, mph: u64 -> u64, bits: nat, m: nat, i: nat, j: nat)
    requires j < i < |pairs| && Perfect(mph, pairs, m) && !Follows(pairs, i) && !Follows(pairs, j)
    ensures PutOf(pairs, mph, bits, i).0 < m && PutOf(pairs, mph, bits, j).0 < m
    ensures PutOf(pairs, mph, bits, i).0 != PutOf(pairs, mph, bits, j).0
  {
  }

  lemma PutsSnoc(puts: seq<Put>, put: Put, m: nat, bits: nat)
    requires Puts(puts, m, bits) && put.0 < m && put.1 < Pow2(bits)
    requires forall k :: 0 <= k < |puts| ==> puts[k].0 != put.0
    ensures Puts(puts + [put], m, bits)
  {
  }

  /** Under a perfect hash they go to different slots. */
  lemma {:induction false} RepPutsApart(pairs: seq<Pair>, mph: u64 -> u64, bits: nat, i: nat, m: nat)
    requires i <= |pairs| && Perfect(mph, pairs, m)
    ensures Puts(RepPuts(pairs, mph, bits, i), m, bits)
  {
    if i > 0 {
      RepPutsApart(pairs, mph, bits, i - 1, m);
      if !Follows(pairs, i - 1) {
        RepPutApart(pairs, mph, bits, i - 1, m);
        PutsSnoc(RepPuts(pairs, mph, bits, i - 1), PutOf(pairs, mph, bits, i - 1), m, bits);
      }
    }
  }

  lemma RepPutApart(pairs: seq<Pair>, mph: u64 -> u64, bits: nat, i: nat, m: nat)
    requires i < |pairs| && Perfect(mph, pairs, m) && !Follows(pairs, i)
    ensures PutOf(pairs, mph, bits, i).0 < m
    ensures forall k :: 0 <= k < |RepPuts(pairs, mph, bits, i)| ==>
      RepPuts(pairs, mph, bits, i)[k].0 != PutOf(pairs, mph, bits, i).0
  {
    forall k | 0 <= k < |RepPuts(pairs, mph, bits, i)|
      ensures RepPuts(pairs, mph, bits, i)[k].0 != PutOf(pairs, mph, bits, i).0
    {
      SlotsApart(pairs, mph, bits, m, i, RepAt(pairs, mph, bits, i, k));
    }
  }

  lemma RepPutsStep(pairs: seq<Pair>, mph: u64 -> u64, bits: nat, i: nat, m: nat)
    requires i < |pairs| && mph(pairs[i].0) < m
    ensures Filled(RepPuts(pairs, mph, bits, i + 1), m) == if Follows(pairs, i) then Filled(RepPuts(pairs, mph, bits, i), m)
      else Filled(RepPuts(pairs, mph, bits, i), m)[mph(pairs[i].0) := Masked(pairs[i].1, bits)]
  {
    var before, puts := RepPuts(pairs, mph, bits, i), RepPuts(pairs, mph, bits, i + 1);
    if !Follows(pairs, i) {
      assert puts[..|puts| - 1] == before;
    }
  }

  // ----- one bit a slot

  /** Whether `slot`'s bit is set, in words of 64. */
  function Bit(words: seq<nat>, slot: nat): bool
    requires slot / 64 < |words|
  {
    Shr(words[slot / 64], slot % 64) % 2 == 1
  }

  function SetBit(words: seq<nat>, slot: nat): (r: seq<nat>)
    requires slot / 64 < |words|
    ensures |r| == |words|
  {
    words[slot / 64 := Or(words[slot / 64], Shl(1, slot % 64))]
  }

  lemma {:induction false} BitOfOr(x: nat, at: nat, t: nat)
    ensures Shr(Or(x, Shl(1, at)), t) % 2 == if t == at then 1 else Shr(x, t) % 2
  {
    if at == 0 {
      assert Shl(1, 0) == 1;
      BitZeroOr(x, t);
    } else {
      assert Shl(1, at) == 2 * Shl(1, at - 1);
      if x == 0 {
        BitOfOne(at, t);
        ShrOfZero(t);
      } else if t > 0 {
        assert Shl(1, at) != 0 by {
          ShlOne(at);
        }
        assert Or(x, Shl(1, at)) / 2 == Or(x / 2, Shl(1, at - 1));
        BitOfOr(x / 2, at - 1, t - 1);
      } else {
        ShlOne(at);
      }
    }
  }

  lemma BitZeroOr(x: nat, t: nat)
    ensures Shr(Or(x, 1), t) % 2 == if t == 0 then 1 else Shr(x, t) % 2
  {
    if x == 0 {
      ShrOfZero(t);
      if t > 0 {
        ShrOfZero(t - 1);
      }
    } else {
      assert Or(x, 1) == 1 + 2 * Or(x / 2, 0);
      assert Or(x / 2, 0) == x / 2;
    }
  }

  lemma {:induction false} ShrOfZero(t: nat)
    ensures Shr(0, t) == 0
  {
    if t > 0 {
      ShrOfZero(t - 1);
    }
  }

  lemma {:induction false} BitOfOne(at: nat, t: nat)
    ensures Shr(Shl(1, at), t) % 2 == if t == at then 1 else 0
  {
    if at > 0 && t > 0 {
      BitOfOne(at - 1, t - 1);
    } else if at == 0 && t > 0 {
      ShrOfZero(t - 1);
    }
  }

  /** Setting a slot's bit sets it and no other. */
  lemma SetBitSets(words: seq<nat>, slot: nat, t: nat)
    requires slot / 64 < |words| && t / 64 < |words|
    ensures Bit(SetBit(words, slot), t) <==> t == slot || Bit(words, t)
  {
    if t / 64 == slot / 64 {
      BitOfOr(words[slot / 64], slot % 64, t % 64);
    }
  }

  // ----- the build

  datatype Outcome = Built(index: HashIndex) | BadWidth | TooManyKeys | NotPerfect

  /** The pass that fills the table: how far it has come over the slotted pairs. */
  ghost predicate Filling(pairs: seq<Pair>, mph: u64 -> u64, m: nat, bits: nat, i: nat, words: seq<nat>, p: seq<nat>) {
    && i <= |pairs| && |p| == m && AllFit(p, bits)
    && |words| == (m + 63) / 64
    && HeldSoFar(pairs, mph, m, bits, i, p)
    && Differ(pairs, mph, i)
    && Marks(pairs, mph, m, i, words)
    && (forall s :: 0 <= s < m && !Bit(words, s) ==> p[s] == 0)
  }

  ghost predicate HeldSoFar(pairs: seq<Pair>, mph: u64 -> u64, m: nat, bits: nat, i: nat, p: seq<nat>)
    requires i <= |pairs| && |p| == m
  {
    forall k :: 0 <= k < i && !Follows(pairs, k) ==>
      mph(pairs[k].0) < m && p[mph(pairs[k].0)] == Masked(pairs[k].1, bits)
  }

  ghost predicate Differ(pairs: seq<Pair>, mph: u64 -> u64, i: nat)
    requires i <= |pairs|
  {
    forall j, k :: 0 <= j < k < i && !Follows(pairs, j) && !Follows(pairs, k) ==> mph(pairs[j].0) != mph(pairs[k].0)
  }

  ghost predicate Marks(pairs: seq<Pair>, mph: u64 -> u64, m: nat, i: nat, words: seq<nat>)
    requires i <= |pairs| && |words| == (m + 63) / 64
  {
    forall s :: 0 <= s < m ==> (Bit(words, s) <==> Taken(pairs, mph, i, s))
  }

  /** Some representative among the first `i` has slot `s`. */
  ghost predicate Taken(pairs: seq<Pair>, mph: u64 -> u64, i: nat, s: nat)
    requires i <= |pairs|
  {
    exists k :: 0 <= k < i && !Follows(pairs, k) && mph(pairs[k].0) == s
  }

  lemma FillStart(pairs: seq<Pair>, mph: u64 -> u64, m: nat, bits: nat)
    ensures Filling(pairs, mph, m, bits, 0, seq((m + 63) / 64, _ => 0), seq(m, _ => 0))
  {
    var words: seq<nat> := seq((m + 63) / 64, _ => 0);
    forall s | 0 <= s < m
      ensures !Bit(words, s)
    {
      ShrOfZero(s % 64);
    }
  }

  lemma FillSkips(pairs: seq<Pair>, mph: u64 -> u64, m: nat, bits: nat, i: nat, words: seq<nat>, p: seq<nat>)
    requires i < |pairs| && Filling(pairs, mph, m, bits, i, words, p) && Follows(pairs, i)
    ensures Filling(pairs, mph, m, bits, i + 1, words, p)
  {
    forall s | 0 <= s < m
      ensures Taken(pairs, mph, i + 1, s) <==> Taken(pairs, mph, i, s)
    {
    }
  }

  lemma FillTakes(pairs: seq<Pair>, mph: u64 -> u64, m: nat, bits: nat, i: nat, words: seq<nat>, p: seq<nat>)
    requires i < |pairs| && Filling(pairs, mph, m, bits, i, words, p) && !Follows(pairs, i)
    requires mph(pairs[i].0) < m && !Bit(words, mph(pairs[i].0))
    ensures var slot := mph(pairs[i].0);
      && p[slot] == 0
      && Filling(pairs, mph, m, bits, i + 1, SetBit(words, slot), p[slot := Masked(pairs[i].1, bits)])
  {
    var slot: nat := mph(pairs[i].0);
    FreshSlot(pairs, mph, m, i, words);
    BitsTake(pairs, mph, m, i, words);
    HeldTakes(pairs, mph, m, bits, i, p);
    assert AllFit(p[slot := Masked(pairs[i].1, bits)], bits);
  }

  lemma FreshSlot(pairs: seq<Pair>, mph: u64 -> u64, m: nat, i: nat, words: seq<nat>)
    requires i < |pairs| && |words| == (m + 63) / 64 && Marks(pairs, mph, m, i, words)
    requires mph(pairs[i].0) < m && !Bit(words, mph(pairs[i].0))
    ensures forall k :: 0 <= k < i && !Follows(pairs, k) ==> mph(pairs[k].0) != mph(pairs[i].0)
  {
    assert !Taken(pairs, mph, i, mph(pairs[i].0));
  }

  lemma HeldTakes(pairs: seq<Pair>, mph: u64 -> u64, m: nat, bits: nat, i: nat, p: seq<nat>)
    requires i < |pairs| && |p| == m && HeldSoFar(pairs, mph, m, bits, i, p) && Differ(pairs, mph, i)
    requires mph(pairs[i].0) < m
    requires forall k :: 0 <= k < i && !Follows(pairs, k) ==> mph(pairs[k].0) != mph(pairs[i].0)
    ensures HeldSoFar(pairs, mph, m, bits, i + 1, p[mph(pairs[i].0) := Masked(pairs[i].1, bits)])
    ensures Differ(pairs, mph, i + 1)
  {
    hide Masked, Follows;
  }

  lemma BitsTake(pairs: seq<Pair>, mph: u64 -> u64, m: nat, i: nat, words: seq<nat>)
    requires i < |pairs| && !Follows(pairs, i) && mph(pairs[i].0) < m && |words| == (m + 63) / 64
    requires Marks(pairs, mph, m, i, words)
    ensures var words' := SetBit(words, mph(pairs[i].0));
      && Marks(pairs, mph, m, i + 1, words')
      && (forall s :: 0 <= s < m && !Bit(words', s) ==> s != mph(pairs[i].0) as int && !Bit(words, s))
  {
    var slot: nat := mph(pairs[i].0);
    var words' := SetBit(words, slot);
    forall s | 0 <= s < m
      ensures Bit(words', s) <==> Taken(pairs, mph, i + 1, s)
      ensures !Bit(words', s) ==> s != slot && !Bit(words, s)
    {
      SetBitSets(words, slot, s);
      TakenStep(pairs, mph, i, s);
    }
  }

  lemma TakenStep(pairs: seq<Pair>, mph: u64 -> u64, i: nat, s: nat)
    requires i < |pairs| && !Follows(pairs, i)
    ensures Taken(pairs, mph, i + 1, s) <==> Taken(pairs, mph, i, s) || mph(pairs[i].0) == s
  {
    if Taken(pairs, mph, i, s) {
      var k :| 0 <= k < i && !Follows(pairs, k) && mph(pairs[k].0) == s;
      assert k < i + 1;
    }
  }

  lemma Clash(pairs: seq<Pair>, mph: u64 -> u64, m: nat, bits: nat, i: nat, words: seq<nat>, p: seq<nat>)
    requires i < |pairs| && Filling(pairs, mph, m, bits, i, words, p) && !Follows(pairs, i)
    requires mph(pairs[i].0) >= m || Bit(words, mph(pairs[i].0))
    ensures !Perfect(mph, pairs, m)
  {
    if mph(pairs[i].0) < m {
      assert Taken(pairs, mph, i, mph(pairs[i].0));
    }
  }

  /** Fill the table from the slotted pairs, refusing a hash that is not minimal or not perfect. */
  method FillTable(slotted: array<Pair>, ghost pairs: seq<Pair>, ghost mph: u64 -> u64, m: nat, bits: nat)
    returns (ok: bool, out: seq<byte>, ghost p: seq<nat>)
    requires 1 <= bits <= 64 && slotted.Length == |pairs|
    requires forall i :: 0 <= i < |pairs| ==> slotted[i] == Slotted(pairs, mph, i) && mph(pairs[i].0) != NO_SLOT
    ensures ok <==> Perfect(mph, pairs, m)
    ensures ok ==> TableOf(out, p, bits) && p == Filled(RepPuts(pairs, mph, bits, |pairs|), m)
    ensures ok ==> forall i :: 0 <= i < |pairs| && !Follows(pairs, i) ==>
      mph(pairs[i].0) < m && p[mph(pairs[i].0)] == Masked(pairs[i].1, bits)
  {
    hide TableOf, SetBit, Masked;
    var fps := ZeroedTable(m, bits);
    p := seq(m, _ => 0);
    var words := seq((m + 63) / 64, _ => 0);
    FillStart(pairs, mph, m, bits);
    for i := 0 to slotted.Length
      invariant fresh(fps) && TableOf(fps[..], p, bits)
      invariant Filling(pairs, mph, m, bits, i, words, p)
      invariant p == Filled(RepPuts(pairs, mph, bits, i), m)
      invariant forall k :: 0 <= k < |pairs| ==> slotted[k] == Slotted(pairs, mph, k)
    {
      var (slot, second) := slotted[i];
      if slot == NO_SLOT {
        FillSkips(pairs, mph, m, bits, i, words, p);
        continue;
      }
      if slot >= m || Bit(words, slot) {
        Clash(pairs, mph, m, bits, i, words, p);
        return false, [], [];
      }
      FillTakes(pairs, mph, m, bits, i, words, p);
      RepPutsStep(pairs, mph, bits, i, m);
      words := SetBit(words, slot);
      WriteFp(fps, slot, bits, Masked(second, bits), p);
      p := p[slot := Masked(second, bits)];
    }
    ok := true;
    out := fps[..];
  }

  /** Build over hashed keys in any order, repeats among them, with the perfect hash of their
      representatives. It succeeds exactly where the width is one to 64 bits, the distinct pairs are no
      more than a `u32` counts, and the hash is minimal and perfect on the representatives. */
  method BuildFromPairs(input: seq<Pair>, mph: u64 -> u64, bits: nat, threads: nat) returns (r: Outcome)
    requires forall h: u64 :: mph(h) != NO_SLOT
    ensures r.BadWidth? <==> !(1 <= bits <= 64)
    ensures r.TooManyKeys? <==> 1 <= bits <= 64 && |Canonical(input)| > 0xFFFF_FFFF
    ensures r.Built? <==> (
      && 1 <= bits <= 64 && |Canonical(input)| <= 0xFFFF_FFFF
      && Perfect(mph, Canonical(input), Slots(Canonical(input))))
    ensures r.Built? ==> Represents(r.index, Canonical(input), mph)
  {
    if bits < 1 || bits > 64 {
      return BadWidth;
    }
    var pairs := SortedDistinct(input, threads);
    if |pairs| > MAX_KEYS {
      return TooManyKeys;
    }
    if pairs == [] {
      return Built(HashIndex(None, [], bits, 0, []));
    }
    var side, m := CollectSide(pairs);
    var slotted := new Pair[|pairs|](i requires 0 <= i < |pairs| => pairs[i]);
    assert slotted[..] == pairs;
    SlotsInPlace(slotted, mph, threads);
    var ok, fps, p := FillTable(slotted, pairs, mph, m, bits);
    if !ok {
      return NotPerfect;
    }
    forall i | 0 <= i < |pairs| && !Follows(pairs, i)
      ensures ReadFp(fps, mph(pairs[i].0), bits) == Some(Masked(pairs[i].1, bits))
    {
      TableReadsBack(fps, p, bits, mph(pairs[i].0));
    }
    r := Built(HashIndex(Some(mph), fps, bits, |pairs|, side));
  }

  // ----- the file build

  /** Two indexes of the same pairs under the same hash and width are the same, byte for byte. */
  lemma RepresentsIsUnique(a: HashIndex, b: HashIndex, pairs: seq<Pair>, mph: u64 -> u64)
    requires Represents(a, pairs, mph) && Represents(b, pairs, mph) && a.bits == b.bits
    requires pairs == [] ==> a.fps == b.fps
    ensures a == b
  {
    if pairs != [] {
      TableUnique(a.fps, b.fps, Filled(RepPuts(pairs, mph, a.bits, |pairs|), Slots(pairs)), a.bits);
    }
  }

  /** One thread's walk over its source of distinct pairs: the representatives' fingerprints for their slots,
      and the rest for the side table. It starts with no hash behind it. */
  method SplitSource(source: seq<Pair>, mph: u64 -> u64, bits: nat) returns (puts: seq<Put>, side: seq<Pair>)
    ensures puts == RepPuts(source, mph, bits, |source|)
    ensures side == FollowersOf(source, |source|)
  {
    puts, side := [], [];
    var last: Option<u64> := None;
    for i := 0 to |source|
      invariant puts == RepPuts(source, mph, bits, i)
      invariant side == FollowersOf(source, i)
      invariant last == if i == 0 then None else Some(source[i - 1].0)
    {
      var (h, second) := source[i];
      if last == Some(h) {
        side := side + [(h, second)];
        continue;
      }
      last := Some(h);
      puts := puts + [(mph(h) as int as nat, Masked(second, bits))];
    }
  }

  /** No hash ends `a` and starts `b`. */
  predicate Apart(a: seq<Pair>, b: seq<Pair>) {
    a != [] && b != [] ==> a[|a| - 1].0 != b[0].0
  }

  lemma {:induction false} SplitFront(a: seq<Pair>, b: seq<Pair>, mph: u64 -> u64, bits: nat, i: nat)
    requires i <= |a|
    ensures RepPuts(a + b, mph, bits, i) == RepPuts(a, mph, bits, i)
    ensures FollowersOf(a + b, i) == FollowersOf(a, i)
  {
    if i > 0 {
      SplitFront(a, b, mph, bits, i - 1);
    }
  }

  /** What the walk makes of pair `i`. */
  lemma SplitOne(pairs: seq<Pair>, mph: u64 -> u64, bits: nat, i: nat)
    requires i < |pairs|
    ensures RepPuts(pairs, mph, bits, i + 1)
         == RepPuts(pairs, mph, bits, i) + if Follows(pairs, i) then [] else [PutOf(pairs, mph, bits, i)]
    ensures FollowersOf(pairs, i + 1) == FollowersOf(pairs, i) + if Follows(pairs, i) then [pairs[i]] else []
  {
  }

  /** Lists with no hash across their seam are walked apart as they are walked together. */
  lemma {:induction false} SplitBack(a: seq<Pair>, b: seq<Pair>, mph: u64 -> u64, bits: nat, i: nat)
    requires i <= |b| && Apart(a, b)
    ensures RepPuts(a + b, mph, bits, |a| + i) == RepPuts(a, mph, bits, |a|) + RepPuts(b, mph, bits, i)
    ensures FollowersOf(a + b, |a| + i) == FollowersOf(a, |a|) + FollowersOf(b, i)
  {
    hide RepPuts, FollowersOf, Follows, Apart;
    if i == 0 {
      SplitNone(a, b, mph, bits);
    } else {
      SplitBack(a, b, mph, bits, i - 1);
      SplitNext(a, b, mph, bits, i - 1);
    }
  }

  lemma SplitNone(a: seq<Pair>, b: seq<Pair>, mph: u64 -> u64, bits: nat)
    ensures RepPuts(a + b, mph, bits, |a|) == RepPuts(a, mph, bits, |a|) + RepPuts(b, mph, bits, 0)
    ensures FollowersOf(a + b, |a|) == FollowersOf(a, |a|) + FollowersOf(b, 0)
  {
    SplitFront(a, b, mph, bits, |a|);
  }

  lemma SplitNext(a: seq<Pair>, b: seq<Pair>, mph: u64 -> u64, bits: nat, i: nat)
    requires i < |b| && Apart(a, b)
    requires RepPuts(a + b, mph, bits, |a| + i) == RepPuts(a, mph, bits, |a|) + RepPuts(b, mph, bits, i)
    requires FollowersOf(a + b, |a| + i) == FollowersOf(a, |a|) + FollowersOf(b, i)
    ensures RepPuts(a + b, mph, bits, |a| + (i + 1)) == RepPuts(a, mph, bits, |a|) + RepPuts(b, mph, bits, i + 1)
    ensures FollowersOf(a + b, |a| + (i + 1)) == FollowersOf(a, |a|) + FollowersOf(b, i + 1)
  {
    hide RepPuts, FollowersOf, Follows, Masked, Apart;
    FollowsBehind(a, b, i);
    SplitOne(b, mph, bits, i);
    SplitOne(a + b, mph, bits, |a| + i);
    assert |a| + (i + 1) == |a| + i + 1;
  }

  lemma FollowsBehind(a: seq<Pair>, b: seq<Pair>, i: nat)
    requires i < |b| && Apart(a, b)
    ensures Follows(a + b, |a| + i) <==> Follows(b, i)
    ensures (a + b)[|a| + i] == b[i]
  {
  }

  lemma {:induction false} FromOneOf(segments: seq<seq<Pair>>, x: Pair)
    requires x in Concat(segments)
    ensures exists i :: 0 <= i < |segments| && x in segments[i]
  {
    var front := segments[..|segments| - 1];
    if x in Concat(front) {
      FromOneOf(front, x);
      var i :| 0 <= i < |front| && x in front[i];
      assert segments[i] == front[i];
    } else {
      assert x in segments[|segments| - 1];
    }
  }

  lemma LastIsApart(segments: seq<seq<Pair>>)
    requires segments != [] && HashesApart(segments)
    ensures HashesApart(segments[..|segments| - 1])
    ensures Apart(Concat(segments[..|segments| - 1]), segments[|segments| - 1])
  {
    var front, last := Concat(segments[..|segments| - 1]), segments[|segments| - 1];
    if front != [] && last != [] {
      var x := front[|front| - 1];
      FromOneOf(segments[..|segments| - 1], x);
      var i :| 0 <= i < |segments| - 1 && x in segments[..|segments| - 1][i];
      assert x in segments[i] && last[0] in last;
    }
  }

  /** The puts each source is walked into. */
  function PutLists(sources: seq<seq<Pair>>, mph: u64 -> u64, bits: nat): (parts: seq<seq<Put>>)
    ensures |parts| == |sources|
  {
    seq(|sources|, i requires 0 <= i < |sources| => RepPuts(sources[i], mph, bits, |sources[i]|))
  }

  function FollowerLists(sources: seq<seq<Pair>>): seq<Pair> {
    if sources == [] then []
    else
      var last := sources[|sources| - 1];
      FollowerLists(sources[..|sources| - 1]) + FollowersOf(last, |last|)
  }

  /** Sources that share no hash, each walked from the start, come to what one walk over them all does. */
  lemma {:induction false} SourcesSplit(sources: seq<seq<Pair>>, mph: u64 -> u64, bits: nat)
    requires HashesApart(sources)
    ensures Together(PutLists(sources, mph, bits)) == RepPuts(Concat(sources), mph, bits, |Concat(sources)|)
    ensures FollowerLists(sources) == FollowersOf(Concat(sources), |Concat(sources)|)
  {
    hide RepPuts, FollowersOf, HashesApart, Apart;
    if sources == [] {
      NothingToSplit(mph, bits);
    } else {
      var front, last := sources[..|sources| - 1], sources[|sources| - 1];
      LastIsApart(sources);
      SourcesSplit(front, mph, bits);
      SplitBack(Concat(front), last, mph, bits, |last|);
      assert PutLists(sources, mph, bits)[..|front|] == PutLists(front, mph, bits);
    }
  }

  lemma NothingToSplit(mph: u64 -> u64, bits: nat)
    ensures RepPuts([], mph, bits, 0) == [] && FollowersOf([], 0) == []
  {
  }

  /** What each thread of the last pass reads: the list in memory; all the files, where the table is in
      memory too; or a file each. */
  method Sources(stream: Stream, inMemory: bool) returns (sources: seq<seq<Pair>>)
    requires stream.Files? ==> HashesApart(stream.segments)
    ensures HashesApart(sources) && Concat(sources) == stream.All()
    ensures inMemory ==> |sources| == 1
  {
    match stream
    case Memory(run) =>
      sources := [run];
    case Files(segments, _, _) =>
      sources := if inMemory then [Concat(segments)] else segments;
  }

  /** The followers numbered from `m` on. */
  method Numbered(followers: seq<Pair>, ghost pairs: seq<Pair>, m: nat) returns (side: seq<Entry>)
    requires followers == FollowersOf(pairs, |pairs|)
    ensures side == SideOf(pairs, |pairs|, m)
  {
    side := [];
    for j := 0 to |followers|
      invariant |side| == j && forall k :: 0 <= k < j ==> side[k] == (followers[k].0, followers[k].1, m + k)
    {
      side := side + [(followers[j].0, followers[j].1, m + |side|)];
    }
    SideNumbered(pairs, |pairs|, m);
  }

  method SplitSources(sources: seq<seq<Pair>>, mph: u64 -> u64, bits: nat, m: nat)
    returns (parts: seq<seq<Put>>, side: seq<Entry>)
    requires HashesApart(sources)
    ensures parts == PutLists(sources, mph, bits)
    ensures Together(parts) == RepPuts(Concat(sources), mph, bits, |Concat(sources)|)
    ensures side == SideOf(Concat(sources), |Concat(sources)|, m)
  {
    hide HashesApart, RepPuts, Together, Concat;
    parts := [];
    var followers: seq<Pair> := [];
    for t := 0 to |sources|
      invariant |parts| == t && forall i :: 0 <= i < t ==> parts[i] == PutLists(sources, mph, bits)[i]
      invariant followers == FollowerLists(sources[..t])
    {
      assert sources[..t + 1][..t] == sources[..t];
      var puts, found := SplitSource(sources[t], mph, bits);
      parts := parts + [puts];
      followers := followers + found;
    }
    assert sources[..|sources|] == sources;
    SourcesSplit(sources, mph, bits);
    side := Numbered(followers, Concat(sources), m);
  }

  lemma PlacedReadsBack(fps: seq<byte>, pairs: seq<Pair>, mph: u64 -> u64, bits: nat, m: nat, i: nat)
    requires 1 <= bits <= 64 && Perfect(mph, pairs, m) && i < |pairs| && !Follows(pairs, i)
    requires TableOf(fps, Filled(RepPuts(pairs, mph, bits, |pairs|), m), bits)
    ensures ReadFp(fps, mph(pairs[i].0), bits) == Some(Masked(pairs[i].1, bits))
  {
    RepPutsApart(pairs, mph, bits, |pairs|, m);
    FilledHolds(RepPuts(pairs, mph, bits, |pairs|), m, bits);
    var k := RepPutIn(pairs, mph, bits, |pairs|, i);
    TableReadsBack(fps, Filled(RepPuts(pairs, mph, bits, |pairs|), m), bits, mph(pairs[i].0));
  }

  lemma AllReadBack(fps: seq<byte>, pairs: seq<Pair>, mph: u64 -> u64, bits: nat, m: nat)
    requires 1 <= bits <= 64 && Perfect(mph, pairs, m)
    requires TableOf(fps, Filled(RepPuts(pairs, mph, bits, |pairs|), m), bits)
    ensures forall i :: 0 <= i < |pairs| && !Follows(pairs, i) ==>
      ReadFp(fps, mph(pairs[i].0), bits) == Some(Masked(pairs[i].1, bits))
  {
    hide Perfect, RepPuts, Filled, TableOf, ReadFp, Masked, Follows;
    forall i | 0 <= i < |pairs| && !Follows(pairs, i)
      ensures ReadFp(fps, mph(pairs[i].0), bits) == Some(Masked(pairs[i].1, bits))
    {
      PlacedReadsBack(fps, pairs, mph, bits, m, i);
    }
  }

  lemma {:induction false} RepPutIn(pairs: seq<Pair>, mph: u64 -> u64, bits: nat, n: nat, i: nat) returns (k: nat)
    requires i < n <= |pairs| && !Follows(pairs, i)
    ensures k < |RepPuts(pairs, mph, bits, n)| && RepPuts(pairs, mph, bits, n)[k] == PutOf(pairs, mph, bits, i)
  {
    if i == n - 1 {
      k := |RepPuts(pairs, mph, bits, i)|;
    } else {
      k := RepPutIn(pairs, mph, bits, n - 1, i);
    }
  }

  /** The last pass: the table in memory where it fits the budget, and through range files where not. */
  method PlaceAll(stream: Stream, mph: u64 -> u64, bits: nat, m: nat, fpMemory: nat, rangeSlots: nat, turns: nat -> nat)
    returns (fps: seq<byte>, side: seq<Entry>)
    requires rangeSlots >= 1 && rangeSlots % 8 == 0 && 1 <= bits <= 64 && m < 0x1_0000_0000
    requires Perfect(mph, stream.All(), m) && (stream.Files? ==> HashesApart(stream.segments))
    ensures TableOf(fps, Filled(RepPuts(stream.All(), mph, bits, |stream.All()|), m), bits)
    ensures side == SideOf(stream.All(), |stream.All()|, m)
  {
    hide RepPuts, SideOf, Filled, TableOf, Perfect, HashesApart, Concat;
    ghost var pairs := stream.All();
    var inMemory := TableLen(m, bits) <= fpMemory;
    var sources := Sources(stream, inMemory);
    var parts;
    parts, side := SplitSources(sources, mph, bits, m);
    RepPutsApart(pairs, mph, bits, |pairs|, m);
    if inMemory {
      TogetherOne(parts);
      fps := PlaceInMemory(parts[0], m, bits);
    } else {
      fps := PlaceInRanges(parts, turns, m, bits, rangeSlots);
    }
  }

  /** The streaming build, under any run budget, threads and range size and with the threads of the last pass
      taking turns in any order: the index the build in memory makes of the same pairs. */
  method BuildToFile(input: seq<Pair>, mph: u64 -> u64, bits: nat, threads: nat, runBytes: nat, fpMemory: nat,
                     rangeSlots: nat, turns: nat -> nat)
    returns (r: Outcome)
    requires rangeSlots >= 1 && rangeSlots % 8 == 0
    requires Perfect(mph, Canonical(input), Slots(Canonical(input)))
    ensures r.BadWidth? <==> !(1 <= bits <= 64)
    ensures r.TooManyKeys? <==> 1 <= bits <= 64 && |Canonical(input)| > 0xFFFF_FFFF
    ensures !r.NotPerfect?
    ensures r.Built? ==> r.index.bits == bits && Represents(r.index, Canonical(input), mph)
  {
    hide RepPuts, SideOf, Filled, TableOf, Concat, HashesApart, ReadFp, Masked, Perfect, Follows, SameHash, Slots,
      Canonical;
    if bits < 1 || bits > 64 {
      return BadWidth;
    }
    var stream := StreamAll(input, threads, runBytes);
    var (n, sideLen) := stream.Counts();
    if n > MAX_KEYS {
      return TooManyKeys;
    }
    var pairs := stream.All();
    CanonicalIs(input);
    SlotsAre(pairs);
    var m: nat := n - sideLen;
    assert m == Slots(pairs);
    if m == 0 {
      AllFollowNever(pairs);
      return Built(HashIndex(None, [], bits, 0, []));
    }
    var fps, side := PlaceAll(stream, mph, bits, m, fpMemory, rangeSlots, turns);
    AllReadBack(fps, pairs, mph, bits, m);
    r := Built(HashIndex(Some(mph), fps, bits, n, side));
  }

  /** Where nothing is a representative there is nothing. */
  lemma AllFollowNever(pairs: seq<Pair>)
    requires Slots(pairs) == 0
    ensures pairs == []
  {
    AlwaysARepresentative(pairs);
  }

  lemma AlwaysARepresentative(pairs: seq<Pair>)
    ensures pairs != [] ==> Slots(pairs) > 0
  {
    if pairs != [] {
      SameHashStep(pairs, 0);
      SameHashAscends(pairs, 1, |pairs|);
      assert pairs[..|pairs|] == pairs;
    }
  }
}
