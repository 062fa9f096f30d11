/** The bytes a stored code is, field by field: which bytes load as it and no others, each number in them any string
    of seven-bit groups that spells it. */
module StoredCodes {
  import opened Lex
  import opened Bits
  import opened Spellings
  import opened Wrappers
  import opened CodeTable

  // ----- a varint, byte by byte

  /** The number groups of seven bits spell, the low group first. */
  ghost function Groups(s: seq<byte>): nat {
    if s == [] then 0 else s[0] as int % 128 + 128 * Groups(s[1..])
  }

  /** All bytes but the last say that another follows. */
  ghost predicate Ended(s: seq<byte>) {
    s != [] && s[|s| - 1] < 128 && forall i :: 0 <= i < |s| - 1 ==> s[i] >= 128
  }

  /** A varint is the shortest such string of its number. */
  lemma {:induction false} VarintIs(v: nat)
    ensures Ended(Varint(v)) && Groups(Varint(v)) == v
    ensures |Varint(v)| > 1 ==> Varint(v)[|Varint(v)| - 1] != 0
  {
    if v >= 0x80 {
      VarintIs(v / 0x80);
      var rest := Varint(v / 0x80);
      assert Varint(v) == [0x80 + v % 0x80] + rest;
      assert Varint(v)[1..] == rest;
      assert rest[|rest| - 1] != 0;
    }
  }

  lemma ShlFits(x: nat, n: nat)
    requires n <= 64
    ensures Shl(x, n) < 0x1_0000_0000_0000_0000 <==> x < Pow2(64 - n)
  {
    WordPowers();
    ShlIsProduct(x, n);
    ShlIsProduct(Pow2(64 - n), n);
    ShlOne(64 - n);
    ShlShl(1, 64 - n, n);
    ShlOne(64);
    if x < Pow2(64 - n) {
      ProductsApart(x, Pow2(64 - n), Pow2(n));
    } else {
      MulMonotone(Pow2(64 - n), x, Pow2(n));
    }
  }

  lemma EndedTail(s: seq<byte>, at: nat, end: nat)
    requires at < end <= |s| && s[at] >= 128
    ensures Ended(s[at..end]) <==> at + 1 < end && Ended(s[at + 1..end])
    ensures Groups(s[at..end]) == s[at] as int % 128 + 128 * Groups(s[at + 1..end])
  {
    var t, rest := s[at..end], s[at + 1..end];
    assert t[1..] == rest;
    if Ended(rest) {
      assert forall i :: 0 < i < |t| ==> t[i] == rest[i - 1];
    }
    if Ended(t) {
      assert forall i :: 0 <= i < |rest| ==> rest[i] == t[i + 1];
    }
  }

  lemma EndedOne(s: seq<byte>, at: nat, end: nat)
    requires at < end <= |s| && s[at] < 128
    ensures Ended(s[at..end]) <==> end == at + 1
    ensures Groups(s[at..at + 1]) == s[at]
  {
    var t := s[at..end];
    assert t[0] == s[at];
    assert s[at..at + 1] == [s[at]];
  }

  /** Such a string of at most ten bytes whose number fits 64 bits. */
  ghost predicate VarintIn(s: seq<byte>, at: nat, end: nat, v: int) {
    at < end <= |s| && end - at <= 10 && Ended(s[at..end]) && Groups(s[at..end]) == v < 0x1_0000_0000_0000_0000
  }

  /** That is what reads as a varint, and nothing else does. */
  lemma VarintAtIff(s: seq<byte>, at: nat, v: nat, end: nat)
    ensures VarintAt(s, at) == Some((v, end)) <==> VarintIn(s, at, end, v)
  {
    WordPowers();
    VarintFromIff(s, at, 0, v, end);
  }

  lemma {:induction false} VarintFromIff(s: seq<byte>, at: nat, k: nat, v: nat, end: nat)
    requires k <= 10
    ensures VarintFrom(s, at, 7 * k) == Some((v, end)) <==>
      && at < end <= |s| && end - at <= 10 - k && Ended(s[at..end]) && Groups(s[at..end]) == v
      && v < Pow2(64 - 7 * k)
    decreases |s| - at
  {
    hide Shl, Ended, Groups, Pow2;
    if at < |s| && k < 10 {
      var part := s[at] as int % 128;
      ShlFits(part, 7 * k);
      if s[at] < 128 {
        if at < end <= |s| {
          EndedOne(s, at, end);
        }
      } else {
        var more := VarintFrom(s, at + 1, 7 * (k + 1));
        if more.Some? {
          VarintFromIff(s, at + 1, k + 1, more.value.0, more.value.1);
          RoomStep(k, part, more.value.0);
        }
        if at < end <= |s| {
          EndedTail(s, at, end);
          VarintFromIff(s, at + 1, k + 1, Groups(s[at + 1..end]), end);
          RoomStep(k, part, Groups(s[at + 1..end]));
        }
      }
    }
  }

  /** A group more takes seven bits of the room there is. */
  lemma RoomStep(k: nat, part: nat, rest: nat)
    requires part < 128
    ensures k < 9 ==> part < Pow2(64 - 7 * k) && (part + 128 * rest < Pow2(64 - 7 * k) <==> rest < Pow2(57 - 7 * k))
  {
    if k < 9 {
      SevenMore(57 - 7 * k);
    }
  }

  lemma SevenMore(n: nat)
    ensures Pow2(n + 7) == 128 * Pow2(n)
  {
    assert Pow2(n + 7) == 2 * Pow2(n + 6) == 4 * Pow2(n + 5) == 8 * Pow2(n + 4);
    assert Pow2(n + 4) == 2 * Pow2(n + 3) == 4 * Pow2(n + 2) == 8 * Pow2(n + 1);
  }

  // ----- the code, field by field

  /** From `at` to `end` the steps from `prev` to the first character and on from each to the next. */
  ghost predicate StepsIn(s: seq<byte>, at: nat, chars: Key, prev: int, end: nat)
    decreases |chars|
  {
    if chars == [] then at == end
    else exists next: nat :: VarintIn(s, at, next, chars[0] - prev) && StepsIn(s, next, chars[1..], chars[0], end)
  }

  /** The mode, the number of characters, the leads, each lead's width less one, the characters, and no more. */
  ghost predicate StoredIn(s: seq<byte>, sp: Spelling) {
    && |s| > 0 && s[0] == (if sp.mode.Seven? then 7 else 8)
    && exists at: nat :: VarintIn(s, 1, at, |sp.chars|) && LeadsIn(s, at, sp.firsts)
         && StepsIn(s, at + |sp.firsts|, sp.chars, 0, |s|)
  }

  ghost predicate LeadsIn(s: seq<byte>, at: nat, firsts: seq<nat>) {
    && 0 < |firsts| && at + |firsts| <= |s| && s[at] == |firsts| - 1
    && forall l :: 0 <= l < |firsts| - 1 ==> firsts[l + 1] == firsts[l] + s[at + 1 + l] as nat + 1
  }

  lemma {:induction false} CharsFromIff(s: seq<byte>, at: nat, chars: Key, prev: nat, first: bool, mode: Mode, end: nat)
    ensures CharsFrom(s, at, |chars|, prev, first, mode) == Some((chars, end)) <==>
      CharsAfter(chars, prev, first, mode) && StepsIn(s, at, chars, prev, end)
    decreases |chars|
  {
    hide VarintAt, VarintIn, CharsAfter;
    var read := CharsFrom(s, at, |chars|, prev, first, mode);
    if chars == [] {
      assert CharsAfter([], prev, first, mode) by {
        EmptyAfter(prev, first, mode);
      }
    } else {
      var rest := chars[1..];
      assert chars == [chars[0]] + rest;
      if read == Some((chars, end)) {
        var (d, next) := VarintAt(s, at).value;
        VarintAtIff(s, at, d, next);
        CharsFromIff(s, next, rest, prev + d, false, mode, end);
        CharsAreAnAlphabet(s, at, |chars|, prev, first, mode);
      }
      if CharsAfter(chars, prev, first, mode) && StepsIn(s, at, chars, prev, end) {
        var next := FirstStep(s, at, chars, prev, end);
        FirstAfter(chars, prev, first, mode);
        VarintAtIff(s, at, chars[0] - prev, next);
        CharsAfterFirst(chars, prev, first, mode);
        CharsFromIff(s, next, rest, chars[0], false, mode, end);
      }
    }
  }

  lemma FirstStep(s: seq<byte>, at: nat, chars: Key, prev: int, end: nat) returns (next: nat)
    requires chars != [] && StepsIn(s, at, chars, prev, end)
    ensures VarintIn(s, at, next, chars[0] - prev) && StepsIn(s, next, chars[1..], chars[0], end)
  {
    hide VarintIn;
    next :| VarintIn(s, at, next, chars[0] - prev) && StepsIn(s, next, chars[1..], chars[0], end);
  }

  lemma EmptyAfter(prev: nat, first: bool, mode: Mode)
    ensures CharsAfter([], prev, first, mode)
  {
  }

  lemma FirstAfter(chars: Key, prev: nat, first: bool, mode: Mode)
    requires CharsAfter(chars, prev, first, mode) && chars != []
    ensures prev <= chars[0] && (first || prev < chars[0]) && (mode.Eight? ==> chars[0] >= 0x80)
  {
  }

  lemma {:induction false} FirstsSay(widths: seq<byte>, sum: nat, page: nat)
    requires FirstsFrom(widths, sum, page).Some?
    ensures var firsts := FirstsFrom(widths, sum, page).value;
      |firsts| == |widths| + 1 && forall l :: 0 <= l < |widths| ==> firsts[l + 1] == firsts[l] + widths[l] as nat + 1
  {
    FirstsAreLeads(widths, sum, page);
    if widths != [] {
      var w := widths[0] as int + 1;
      FirstsSay(widths[1..], sum + w, page);
      FirstsAreLeads(widths[1..], sum + w, page);
      var rest, firsts := FirstsFrom(widths[1..], sum + w, page).value, FirstsFrom(widths, sum, page).value;
      assert firsts == [sum] + rest;
      forall l | 0 <= l < |widths|
        ensures firsts[l + 1] == firsts[l] + widths[l] as nat + 1
      {
        assert l > 0 ==> widths[l] == widths[1..][l - 1];
      }
    }
  }

  /** Bytes load as a code exactly where they are its fields, each number spelled in seven-bit groups. */
  lemma ParsedIff(s: seq<byte>, sp: Spelling)
    ensures Parsed(s) == Some(sp) <==> sp.Valid() && sp.chars != [] && StoredIn(s, sp)
  {
    if Parsed(s) == Some(sp) {
      ParsedIsStored(s);
    }
    if sp.Valid() && sp.chars != [] && StoredIn(s, sp) {
      StoredIsParsed(s, sp);
    }
  }

  lemma ParsedIsStored(s: seq<byte>)
    requires Parsed(s).Some?
    ensures Parsed(s).value.Valid() && Parsed(s).value.chars != [] && StoredIn(s, Parsed(s).value)
  {
    hide VarintAt, VarintIn, CharsFrom, FirstsFrom, StepsIn, Spelling.Valid, CharsAfter;
    var sp := Parsed(s).value;
    ParsedIsValid(s);
    var (count, at) := VarintAt(s, 1).value;
    var leads: nat := s[at];
    var widths := s[at + 1..at + 1 + leads];
    VarintAtIff(s, 1, count, at);
    FirstsSay(widths, 0, sp.mode.Page());
    CharsAreAnAlphabet(s, at + 1 + leads, count, 0, true, sp.mode);
    CharsFromIff(s, at + 1 + leads, sp.chars, 0, true, sp.mode, |s|);
    assert LeadsIn(s, at, sp.firsts);
  }

  lemma StoredIsParsed(s: seq<byte>, sp: Spelling)
    requires sp.Valid() && sp.chars != [] && StoredIn(s, sp)
    ensures Parsed(s) == Some(sp)
  {
    hide VarintAt, VarintIn, CharsFrom, FirstsFrom, StepsIn;
    var at: nat :| VarintIn(s, 1, at, |sp.chars|) && LeadsIn(s, at, sp.firsts)
      && StepsIn(s, at + |sp.firsts|, sp.chars, 0, |s|);
    var leads := |sp.firsts| - 1;
    VarintAtIff(s, 1, |sp.chars|, at);
    AlphabetBound(sp);
    assert s[at + 1..at + 1 + leads] == WidthBytes(sp.firsts);
    FirstsReadBack(sp.firsts, sp.mode.Page());
    CharsFromIff(s, at + 1 + leads, sp.chars, 0, true, sp.mode, |s|);
  }

  // ----- two codes as they are stored

  lemma DeltasOfThree(a: Scalar, b: Scalar, c: Scalar)
    requires a < b < c
    ensures Deltas([a, b, c], 0) == Varint(a) + Varint(b - a) + Varint(c - b)
  {
    hide Varint;
    assert [a, b, c][1..] == [b, c] && [b, c][1..] == [c] && [c][1..] == [];
    assert Deltas([c], b) == Varint(c - b);
    assert Deltas([b, c], a) == Varint(b - a) + Deltas([c], b);
  }

  lemma TwoGroups(v: nat)
    requires v < 0x4000
    ensures Varint(v) == if v < 0x80 then [v] else [0x80 + v % 0x80, v / 0x80]
  {
  }

  lemma EightIsValid()
    ensures Spelling(Eight, [0x430, 0x431, 0x433], [0, 1, 3]).Valid()
  {
    hide Varint, Deltas, Written;
  }

  /** As it is stored: the letters U+0430, U+0431 and U+0433 past ASCII, the first a lead of its own. */
  lemma StoredEight()
    ensures var sp := Spelling(Eight, [0x430, 0x431, 0x433], [0, 1, 3]);
      sp.Valid() && Written(sp) == [8, 3, 2, 0, 1, 0xB0, 0x08, 1, 2]
  {
    hide Varint, Deltas, Spelling.Valid, Mode.Page;
    EightIsValid();
    DeltasOfThree(0x430, 0x431, 0x433);
    TwoGroups(0x430);
    TwoGroups(1);
    TwoGroups(2);
    TwoGroups(3);
    assert WidthBytes([0, 1, 3]) == [0, 1];
  }

  /** A space, `a` and U+00E9 on one page in seven bits. */
  lemma StoredSeven()
    ensures var sp := Spelling(Seven, [0x20, 0x61, 0xE9], [0, 3]);
      sp.Valid() && Written(sp) == [7, 3, 1, 2, 0x20, 0x41, 0x88, 0x01]
  {
    hide Varint, Deltas;
    DeltasOfThree(0x20, 0x61, 0xE9);
    TwoGroups(0x20);
    TwoGroups(0x41);
    TwoGroups(0x88);
    TwoGroups(3);
    assert WidthBytes([0, 3]) == [2];
  }
}
