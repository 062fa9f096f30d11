/** Reading a code back: a byte string is the code of one key or of none. */
module Decoding {
  import opened Lex
  import opened Utf8
  import opened Spellings
  import opened Wrappers

  /** What stands at `at`: a character and how many bytes of code it is, or nothing the code has. */
  function CharAt(sp: Spelling, coded: seq<byte>, at: nat): (r: Option<(Scalar, nat)>)
    requires sp.Valid()
    ensures r.Some? ==> 1 <= r.value.1 <= 2 && at + r.value.1 <= |coded|
  {
    if at >= |coded| then None
    else
      var b: int := coded[at];
      var l: int := b - sp.mode.Base() as int;
      if l < 0 then Some((b as Scalar, 1))
      else if l + 1 >= |sp.firsts| then None
      else
        var width := sp.firsts[l + 1] - sp.firsts[l];
        FirstsAscend(sp);
        assert sp.firsts[l + 1] <= |sp.chars|;
        if width == 1 then Some((sp.chars[sp.firsts[l]], 1))
        else if at + 1 < |coded| && coded[at + 1] < width then
          Some((sp.chars[sp.firsts[l] + coded[at + 1] as int], 2))
        else None
  }

  /** A character is read where its codeword stands, and only there. */
  lemma CharAtIff(sp: Spelling, coded: seq<byte>, at: nat, c: Scalar, n: nat)
    requires sp.Valid() && at <= |coded|
    ensures CharAt(sp, coded, at) == Some((c, n))
      <==> sp.Spell(c) != [] && sp.Spell(c) <= coded[at..] && n == |sp.Spell(c)|
  {
    if sp.Spell(c) != [] && sp.Spell(c) <= coded[at..] && n == |sp.Spell(c)| {
      CharAtFinds(sp, coded, at, c);
    }
    if CharAt(sp, coded, at) == Some((c, n)) {
      CharAtIsSpelt(sp, coded, at);
    }
  }

  lemma CharAtFinds(sp: Spelling, coded: seq<byte>, at: nat, c: Scalar)
    requires sp.Valid() && at <= |coded|
    requires sp.Spell(c) != [] && sp.Spell(c) <= coded[at..]
    ensures CharAt(sp, coded, at) == Some((c, |sp.Spell(c)|))
  {
    var w := sp.Spell(c);
    assert coded[at] == coded[at..][0] == w[0];
    if |w| > 1 {
      assert coded[at + 1] == coded[at..][1] == w[1];
    }
    var r := RankOf(sp.chars, c);
    if r < |sp.chars| {
      LeadBounds(sp, r);
    }
  }

  /** Below the leads a byte is the ASCII character it is, where the code is of whole bytes. */
  lemma PlainIsSpelt(sp: Spelling, b: byte)
    requires sp.Valid() && b as int < sp.mode.Base() as int
    ensures sp.Spell(b as Scalar) == [b]
  {
    hide RankOf;
    SpeltIff(sp, b as Scalar);
    assert RankOf(sp.chars, b as Scalar) == |sp.chars|;
  }

  lemma CharAtIsSpelt(sp: Spelling, coded: seq<byte>, at: nat)
    requires sp.Valid() && CharAt(sp, coded, at).Some?
    ensures var (c, n) := CharAt(sp, coded, at).value;
      sp.Spell(c) != [] && sp.Spell(c) <= coded[at..] && n == |sp.Spell(c)|
  {
    hide RankOf, Encode, Spelling.Spell;
    var b: int := coded[at];
    assert coded[at..][0] == coded[at];
    if b < sp.mode.Base() as int {
      PlainIsSpelt(sp, coded[at]);
    } else {
      var l := b - sp.mode.Base() as int;
      FirstsAscend(sp);
      if CharAt(sp, coded, at).value.1 == 1 {
        SpellUnder(sp, l, sp.firsts[l]);
      } else {
        assert coded[at..][1] == coded[at + 1];
        SpellUnder(sp, l, sp.firsts[l] + coded[at + 1] as int);
      }
    }
  }

  /** The codeword of a character, from a lead that spells it. */
  lemma SpellUnder(sp: Spelling, l: nat, r: nat)
    requires sp.Valid() && l + 1 < |sp.firsts| && sp.firsts[l] <= r < sp.firsts[l + 1]
    ensures r < |sp.chars| && r - sp.firsts[l] < 256
    ensures sp.Spell(sp.chars[r]) == if sp.firsts[l + 1] == sp.firsts[l] + 1 then [sp.mode.Base() as int + l]
      else [sp.mode.Base() as int + l, r - sp.firsts[l]]
  {
    FirstsAscend(sp);
    assert sp.firsts[l + 1] <= |sp.chars|;
    RankOfIs(sp.chars, r);
    LeadOfIs(sp.firsts, r, l);
    LeadBounds(sp, r);
  }

  /** The key the bytes from `at` on spell. */
  function DecodedFrom(sp: Spelling, coded: seq<byte>, at: nat): Option<Key>
    requires sp.Valid()
    decreases |coded| - at
  {
    if at >= |coded| then Some([])
    else match CharAt(sp, coded, at)
      case None => None
      case Some((c, n)) =>
        match DecodedFrom(sp, coded, at + n)
        case None => None
        case Some(rest) => Some([c] + rest)
  }

  /** Decoding undoes coding, and refuses every byte string no key is coded as. */
  lemma {:induction false} DecodedIff(sp: Spelling, coded: seq<byte>, at: nat, key: Key)
    requires sp.Valid() && at <= |coded|
    ensures DecodedFrom(sp, coded, at) == Some(key) <==> sp.Spells(key) && sp.Code(key) == coded[at..]
    decreases |coded| - at
  {
    if at == |coded| {
      if key != [] && sp.Spells(key) {
        assert key[0] in sp.Spelt();
      }
    } else {
      if DecodedFrom(sp, coded, at) == Some(key) {
        DecodedIsCoded(sp, coded, at, key);
      }
      if sp.Spells(key) && sp.Code(key) == coded[at..] {
        CodedIsDecoded(sp, coded, at, key);
      }
    }
  }

  lemma {:induction false} DecodedIsCoded(sp: Spelling, coded: seq<byte>, at: nat, key: Key)
    requires sp.Valid() && at < |coded| && DecodedFrom(sp, coded, at) == Some(key)
    ensures sp.Spells(key) && sp.Code(key) == coded[at..]
    decreases |coded| - at, 0
  {
    hide CharAt, Spelling.Spell, Spelling.Valid;
    var (c, n) := CharAt(sp, coded, at).value;
    CharAtIff(sp, coded, at, c, n);
    var rest := DecodedFrom(sp, coded, at + n).value;
    DecodedIff(sp, coded, at + n, rest);
    assert key[0] == c && key[1..] == rest;
    assert coded[at..][n..] == coded[at + n..];
    forall i | 0 <= i < |key|
      ensures key[i] in sp.Spelt()
    {
      if i > 0 {
        assert key[i] == rest[i - 1];
      }
    }
  }

  lemma {:induction false} CodedIsDecoded(sp: Spelling, coded: seq<byte>, at: nat, key: Key)
    requires sp.Valid() && at < |coded| && sp.Spells(key) && sp.Code(key) == coded[at..]
    ensures DecodedFrom(sp, coded, at) == Some(key)
    decreases |coded| - at, 0
  {
    hide CharAt, Spelling.Spell, Spelling.Valid;
    assert key[0] in sp.Spelt();
    var n := |sp.Spell(key[0])|;
    assert sp.Spell(key[0]) <= sp.Code(key);
    CharAtIff(sp, coded, at, key[0], n);
    assert sp.Code(key[1..]) == coded[at..][n..] == coded[at + n..];
    assert forall i :: 0 <= i < |key[1..]| ==> key[1..][i] == key[i + 1];
    DecodedIff(sp, coded, at + n, key[1..]);
    assert key == [key[0]] + key[1..];
  }

  /** What is decoded is what was coded, for every key the code spells. */
  lemma RoundTrip(sp: Spelling, key: Key)
    requires sp.Valid() && sp.Spells(key)
    ensures DecodedFrom(sp, sp.Code(key), 0) == Some(key)
  {
    assert sp.Code(key)[0..] == sp.Code(key);
    DecodedIff(sp, sp.Code(key), 0, key);
  }

  /** Reading a character looks only at the bytes from its place on. */
  lemma CharAtLocal(sp: Spelling, a: seq<byte>, i: nat, b: seq<byte>, j: nat)
    requires sp.Valid() && i <= |a| && j <= |b| && a[i..] == b[j..]
    ensures CharAt(sp, a, i) == CharAt(sp, b, j)
  {
    assert |a| - i == |b| - j;
    assert i < |a| ==> a[i] == a[i..][0] && b[j] == b[j..][0];
    assert i + 1 < |a| ==> a[i + 1] == a[i..][1] && b[j + 1] == b[j..][1];
  }
}
