/** The code as it is held: an index from characters to codewords, a table of what each lead byte
    decodes to, and the alphabet as packed UTF-8. Each operation is proved against `Spelling`. */
module CharCodes {
  import opened Lex
  import opened Utf8
  import opened Spellings
  import opened Wrappers
  import opened CodeTable
  import opened Decoding
  import opened CharIndex

  // ----- a codeword in the index's terms

  function AsWord(code: seq<byte>): Word {
    if |code| == 1 then OneByte(code[0])
    else if |code| == 2 then TwoBytes(code[0], code[1])
    else 0
  }

  lemma AsWordWrites(code: seq<byte>)
    requires |code| <= 2
    ensures Bytes(AsWord(code)) == code
  {
  }

  lemma SpellShort(sp: Spelling, c: Scalar)
    ensures |sp.Spell(c)| <= 2
  {
  }

  /** The pairs the index is built from: each character under its lead, then ASCII as itself. */
  method Paired(sp: Spelling) returns (spelt: seq<(Scalar, Word)>)
    requires sp.Valid()
    ensures forall i :: 0 <= i < |spelt| ==> PairOf(sp, spelt[i])
    ensures forall c: Scalar :: sp.Spell(c) != [] ==> exists i :: 0 <= i < |spelt| && spelt[i].0 == c
  {
    hide Encode;
    FirstsAscend(sp);
    spelt := [];
    for l := 0 to |sp.firsts| - 1
      invariant |spelt| == sp.firsts[l]
      invariant forall i :: 0 <= i < |spelt| ==> PairOf(sp, spelt[i])
      invariant forall i :: 0 <= i < |spelt| ==> spelt[i].0 == sp.chars[i]
    {
      assert sp.firsts[l + 1] <= |sp.chars|;
      spelt := PairedUnder(sp, l, spelt);
    }
    if sp.mode.Eight? {
      for b := 0 to 0x80
        invariant |spelt| == |sp.chars| + b
        invariant forall i :: 0 <= i < |spelt| ==> PairOf(sp, spelt[i])
        invariant forall i :: 0 <= i < |spelt| ==> spelt[i].0 == (if i < |sp.chars| then sp.chars[i] else i - |sp.chars|)
      {
        SpeltIff(sp, b);
        spelt := spelt + [(b as Scalar, OneByte(b))];
      }
    }
    forall c: Scalar | sp.Spell(c) != []
      ensures exists i :: 0 <= i < |spelt| && spelt[i].0 == c
    {
      SpeltIff(sp, c);
      var i := if c in sp.chars then RankOf(sp.chars, c) else |sp.chars| + c as int;
      assert spelt[i].0 == c;
    }
  }

  /** The pairs of one lead's characters. */
  method PairedUnder(sp: Spelling, l: nat, spelt0: seq<(Scalar, Word)>) returns (spelt: seq<(Scalar, Word)>)
    requires sp.Valid() && l + 1 < |sp.firsts| && |spelt0| == sp.firsts[l]
    requires sp.firsts[l + 1] <= |sp.chars|
    ensures |spelt| == sp.firsts[l + 1] && spelt0 <= spelt
    ensures forall i :: |spelt0| <= i < |spelt| ==> PairOf(sp, spelt[i]) && spelt[i].0 == sp.chars[i]
  {
    hide Spelling.Spell;
    var first, end := sp.firsts[l], sp.firsts[l + 1];
    spelt := spelt0;
    for at := 0 to end - first
      invariant |spelt| == first + at && spelt0 <= spelt
      invariant forall i :: first <= i < |spelt| ==> PairOf(sp, spelt[i]) && spelt[i].0 == sp.chars[i]
    {
      SpellUnder(sp, l, first + at);
      var w := if end - first == 1 then OneByte(sp.mode.Base() as int + l)
               else TwoBytes(sp.mode.Base() as int + l, at);
      assert w == AsWord(sp.Spell(sp.chars[first + at]));
      spelt := spelt + [(sp.chars[first + at], w)];
    }
  }

  ghost predicate PairOf(sp: Spelling, pair: (Scalar, Word)) {
    && sp.Spell(pair.0) != []
    && pair.1 == AsWord(sp.Spell(pair.0))
  }

  lemma LastWordIsTheCodeword(sp: Spelling, spelt: seq<(Scalar, Word)>, c: Scalar)
    requires forall i :: 0 <= i < |spelt| ==> PairOf(sp, spelt[i])
    requires sp.Spell(c) != [] ==> exists i :: 0 <= i < |spelt| && spelt[i].0 == c
    ensures LastWord(spelt, c) == AsWord(sp.Spell(c))
  {
    if exists i :: 0 <= i < |spelt| && spelt[i].0 == c {
      LastWordOfUniform(spelt, c, AsWord(sp.Spell(c)));
    } else {
      LastWordIsPaired(spelt, c);
    }
  }

  lemma {:induction false} LastWordOfUniform(spelt: seq<(Scalar, Word)>, c: Scalar, w: Word)
    requires forall i :: 0 <= i < |spelt| && spelt[i].0 == c ==> spelt[i].1 == w
    requires exists i :: 0 <= i < |spelt| && spelt[i].0 == c
    ensures LastWord(spelt, c) == w
  {
    var n := |spelt| - 1;
    if spelt[n].0 != c {
      var i :| 0 <= i < |spelt| && spelt[i].0 == c;
      assert spelt[..n][i].0 == c;
      LastWordOfUniform(spelt[..n], c, w);
    }
  }

  /** The table entry for a leading byte: in the low nine bits the size of its lead, and over them the rank
      that lead starts at. */
  function LeadEntry(sp: Spelling, b: nat): nat
    requires sp.Valid()
  {
    var l := b - sp.mode.Base() as int;
    if 0 <= l < |sp.firsts| - 1 then sp.firsts[l] * 512 + (sp.firsts[l + 1] - sp.firsts[l])
    else if sp.mode.Eight? && l < 0 then (|sp.chars| + b) * 512 + 1
    else 0
  }

  /** Every character spelled, by rank, then ASCII where it spells itself. */
  function PackedAlphabet(sp: Spelling): seq<nat> {
    seq(|sp.chars|, r requires 0 <= r < |sp.chars| => Packed(sp.chars[r]))
      + if sp.mode.Eight? then seq(0x80, b requires 0 <= b < 0x80 => Packed(b)) else []
  }

  datatype CharCode = CharCode(mode: Mode, firsts: seq<nat>, index: Index, leads: seq<nat>, utf8: seq<nat>, len: nat) {

    /** The tables say what `sp` says. */
    ghost predicate StandsFor(sp: Spelling) {
      && sp.Valid()
      && mode == sp.mode && firsts == sp.firsts
      && index.Valid()
      && (forall c: Scalar :: Bytes(index.Get(c)) == sp.Spell(c))
      && |leads| == 256
      && (forall b :: 0 <= b < 256 ==> leads[b] == LeadEntry(sp, b))
      && utf8 == PackedAlphabet(sp)
      && len == |Written(sp)|
    }

    /** Characters in the alphabet. */
    function Count(): nat
      requires |firsts| > 0
    {
      firsts[|firsts| - 1]
    }

    /** Two table reads at `at`: a character, packed, and how much code it took. */
    function Utf8At(coded: seq<byte>, at: nat): Option<(nat, nat)>
      requires |leads| == 256
      requires forall b :: 0 <= b < 256 ==> leads[b] / 512 + leads[b] % 512 <= |utf8|
    {
      if at >= |coded| then None
      else
        var lead := leads[coded[at]];
        var first, width := lead / 512, lead % 512;
        if width == 1 then Some((utf8[first], 1))
        else if at + 1 >= |coded| then None
        else
          var s: int := coded[at + 1];
          if s < width then Some((utf8[first + s], 2)) else None
    }
  }

  lemma LeadsWithinAlphabet(code: CharCode, sp: Spelling)
    requires code.StandsFor(sp)
    ensures forall b :: 0 <= b < 256 ==> code.leads[b] / 512 + code.leads[b] % 512 <= |code.utf8|
  {
    forall b | 0 <= b < 256
      ensures code.leads[b] / 512 + code.leads[b] % 512 <= |code.utf8|
    {
      EntryParts(sp, b);
    }
  }

  /** The two reads of the decoding tables find the character `Spelling` says is there. */
  lemma Utf8AtReadsTheCharacter(code: CharCode, sp: Spelling, coded: seq<byte>, at: nat)
    requires code.StandsFor(sp)
    requires forall b :: 0 <= b < 256 ==> code.leads[b] / 512 + code.leads[b] % 512 <= |code.utf8|
    ensures code.Utf8At(coded, at) == match CharAt(sp, coded, at)
      case None => None
      case Some((c, n)) => Some((Packed(c), n))
  {
    hide Spelling.Spell, Packed;
    if at < |coded| {
      EntryParts(sp, coded[at]);
    }
  }

  lemma Packs(first: nat, width: nat)
    requires width < 512
    ensures (first * 512 + width) / 512 == first && (first * 512 + width) % 512 == width
  {
  }

  lemma EntryParts(sp: Spelling, b: nat)
    requires sp.Valid() && b < 256
    ensures var l := b - sp.mode.Base() as int;
      var (first, width) := (LeadEntry(sp, b) / 512, LeadEntry(sp, b) % 512);
      if l < 0 then
        width == 1 && |sp.chars| + b < |PackedAlphabet(sp)| && first == |sp.chars| + b
        && PackedAlphabet(sp)[first] == Packed(b)
      else if l < |sp.firsts| - 1 then
        first == sp.firsts[l] && first + width == sp.firsts[l + 1] <= |sp.chars|
        && forall r :: first <= r < first + width ==> PackedAlphabet(sp)[r] == Packed(sp.chars[r])
      else first == width == 0
  {
    hide Spelling.Spell, Encode, Packed;
    var l := b - sp.mode.Base() as int;
    FirstsAscend(sp);
    if 0 <= l < |sp.firsts| - 1 {
      assert sp.firsts[l + 1] <= |sp.chars|;
      Packs(sp.firsts[l], sp.firsts[l + 1] - sp.firsts[l]);
    } else if l < 0 {
      Packs(|sp.chars| + b, 1);
    }
  }

  /** Lay out the tables of a code. */
  method New(sp: Spelling) returns (code: CharCode)
    requires sp.Valid()
    ensures code.StandsFor(sp)
  {
    var spelt := Paired(sp);
    forall i | 0 <= i < |spelt|
      ensures spelt[i].1 != 0 && Sized(spelt[i].1)
      ensures spelt[i].0 >= LOW ==> Codeword(spelt[i].1, sp.mode.Base())
    {
      PairIsACodeword(sp, spelt[i].0, spelt[i].1);
    }
    var index := Build(spelt, sp.mode.Base());
    forall c: Scalar
      ensures Bytes(index.Get(c)) == sp.Spell(c)
    {
      LastWordIsTheCodeword(sp, spelt, c);
      SpellShort(sp, c);
      AsWordWrites(sp.Spell(c));
    }
    var leads := LeadTable(sp);
    SerializedLenIsLength(sp);
    code := CharCode(sp.mode, sp.firsts, index, leads, PackedAlphabet(sp), SerializedLen(sp));
  }

  lemma PairIsACodeword(sp: Spelling, c: Scalar, w: Word)
    requires sp.Valid() && PairOf(sp, (c, w))
    ensures w != 0 && Sized(w)
    ensures c >= LOW ==> Codeword(w, sp.mode.Base())
  {
    hide Spelling.Valid;
    var r := RankOf(sp.chars, c);
    if r < |sp.chars| {
      LeadBounds(sp, r);
    }
  }

  method LeadTable(sp: Spelling) returns (leads: seq<nat>)
    requires sp.Valid()
    ensures |leads| == 256
    ensures forall b :: 0 <= b < 256 ==> leads[b] == LeadEntry(sp, b)
  {
    var base: int := sp.mode.Base();
    leads := seq(256, _ => 0);
    for l := 0 to |sp.firsts| - 1
      invariant |leads| == 256
      invariant forall b :: 0 <= b < 256 ==> leads[b] == if base <= b < base + l then LeadEntry(sp, b) else 0
    {
      leads := leads[base + l := sp.firsts[l] * 512 + (sp.firsts[l + 1] - sp.firsts[l])];
    }
    if sp.mode.Eight? {
      for b := 0 to 0x80
        invariant |leads| == 256
        invariant forall k :: 0x80 <= k < 256 ==> leads[k] == LeadEntry(sp, k)
        invariant forall k :: 0 <= k < b ==> leads[k] == LeadEntry(sp, k)
      {
        leads := leads[b := (|sp.chars| + b) * 512 + 1];
      }
    }
  }

  /** The character of rank `r`, as the alphabet holds it. */
  lemma AlphabetEntry(code: CharCode, sp: Spelling, r: nat)
    requires code.StandsFor(sp) && r < |sp.chars|
    ensures r < |code.utf8| && code.utf8[r] == Packed(sp.chars[r])
    ensures code.Count() == |sp.chars|
  {
  }

  /** What the index answers: nothing, or the codeword's length and bytes. */
  lemma WordSays(code: CharCode, sp: Spelling, c: Scalar)
    requires code.StandsFor(sp)
    ensures var w, u := code.index.Get(c) as int, sp.Spell(c);
      && (w == 0 <==> u == [])
      && (w != 0 ==> w / 0x1_0000 == |u| && u == if |u| == 2 then [w / 0x100 % 0x100, w % 0x100] else [w / 0x100 % 0x100])
      && |Bytes(code.index.Get(c))| == |u| && Bytes(code.index.Get(c)) == u
  {
    var w: int := code.index.Get(c);
    assert w != 0 ==> w / 0x1_0000 == 1 || w / 0x1_0000 == 2;
  }
}
