/** What the payload digest tells apart: each step of it is one to one, so any change inside one word shows, and
    a short tail from the same tail padded; and the values that written blobs hold it to. */
module Digests {
  import opened BlockHash

  // ----- each step undone

  function Divided(a: bv64): bv64 {
    a * 0x96de_1b17_3f11_9089
  }

  lemma MultiplyUndone(a: bv64)
    ensures Divided(a * 0xbf58_476d_1ce4_e5b9) == a
  {
  }

  lemma MultiplyIs(a: bv64)
    ensures ByMultiply(a) == a * 0xbf58_476d_1ce4_e5b9
  {
  }

  function Unmixed(a: bv64): bv64 {
    a * 0x3196_42b2_d24d_8ec3
  }

  lemma MixUndone(a: bv64)
    ensures Unmixed(a * 0x94d0_49bb_1331_11eb) == a
  {
  }

  lemma MixIs(a: bv64)
    ensures ByMix(a) == a * 0x94d0_49bb_1331_11eb
  {
  }

  function Unfold27(y: bv64): bv64 {
    y ^ (y >> 27) ^ (y >> 54)
  }

  lemma Fold27Undone(a: bv64)
    ensures Unfold27(a ^ (a >> 27)) == a
  {
  }

  lemma Fold27Is(a: bv64)
    ensures Fold27(a) == a ^ (a >> 27)
  {
  }

  function Unfold29(y: bv64): bv64 {
    y ^ (y >> 29) ^ (y >> 58)
  }

  lemma Fold29Undone(a: bv64)
    ensures Unfold29(a ^ (a >> 29)) == a
  {
  }

  lemma Fold29Is(a: bv64)
    ensures Fold29(a) == a ^ (a >> 29)
  {
  }

  function Unfold30(y: bv64): bv64 {
    y ^ (y >> 30) ^ (y >> 60)
  }

  lemma Fold30Undone(a: bv64)
    ensures Unfold30(a ^ (a >> 30)) == a
  {
  }

  lemma Fold30Is(a: bv64)
    ensures Fold30(a) == a ^ (a >> 30)
  {
  }

  function Unfold31(y: bv64): bv64 {
    y ^ (y >> 31) ^ (y >> 62)
  }

  lemma Fold31Undone(a: bv64)
    ensures Unfold31(a ^ (a >> 31)) == a
  {
  }

  lemma Fold31Is(a: bv64)
    ensures Fold31(a) == a ^ (a >> 31)
  {
  }

  lemma XorApart(a: bv64, b: bv64, c: bv64)
    ensures Xored(a, c) == Xored(b, c) <==> a == b
    ensures Xored(c, a) == Xored(c, b) <==> a == b
  {
  }

  /** A word's step tells apart whatever differs going in. */
  lemma WordApart(h: bv64, w: bv64, g: bv64, v: bv64)
    requires Xored(h, w) != Xored(g, v)
    ensures Word(h, w) != Word(g, v)
  {
    hide Xored, ByMultiply, Fold29, Divided, Unfold29;
    var a, b := Xored(h, w), Xored(g, v);
    MultiplyIs(a);
    MultiplyIs(b);
    MultiplyUndone(a);
    MultiplyUndone(b);
    Fold29Is(ByMultiply(a));
    Fold29Is(ByMultiply(b));
    Fold29Undone(ByMultiply(a));
    Fold29Undone(ByMultiply(b));
  }

  /** So does the last mixing. */
  lemma FinalizeApart(h: bv64, m: bv64, g: bv64, n: bv64)
    ensures Finalize(h, m) == Finalize(g, n) <==> Xored(h, m) == Xored(g, n)
  {
    hide Xored, ByMultiply, ByMix, Fold27, Fold30, Fold31;
    if Xored(h, m) != Xored(g, n) {
      LastMixingApart(Xored(h, m), Xored(g, n));
    }
  }

  lemma LastMixingApart(a: bv64, b: bv64)
    requires a != b
    ensures Fold31(ByMix(Fold27(ByMultiply(Fold30(a))))) != Fold31(ByMix(Fold27(ByMultiply(Fold30(b)))))
  {
    hide ByMultiply, ByMix, Fold27, Fold30, Fold31;
    FirstHalfApart(a, b);
    var x, y := ByMultiply(Fold30(a)), ByMultiply(Fold30(b));
    SecondHalfApart(x, y);
  }

  lemma FirstHalfApart(a: bv64, b: bv64)
    requires a != b
    ensures ByMultiply(Fold30(a)) != ByMultiply(Fold30(b))
  {
    hide ByMultiply, Fold30, Divided, Unfold30;
    Fold30Is(a);
    Fold30Is(b);
    Fold30Undone(a);
    Fold30Undone(b);
    MultiplyIs(Fold30(a));
    MultiplyIs(Fold30(b));
    MultiplyUndone(Fold30(a));
    MultiplyUndone(Fold30(b));
  }

  lemma SecondHalfApart(a: bv64, b: bv64)
    requires a != b
    ensures Fold31(ByMix(Fold27(a))) != Fold31(ByMix(Fold27(b)))
  {
    hide ByMix, Fold27, Fold31, Unmixed, Unfold27, Unfold31;
    Fold27Is(a);
    Fold27Is(b);
    Fold27Undone(a);
    Fold27Undone(b);
    MixIs(Fold27(a));
    MixIs(Fold27(b));
    MixUndone(Fold27(a));
    MixUndone(Fold27(b));
    Fold31Is(ByMix(Fold27(a)));
    Fold31Is(ByMix(Fold27(b)));
    Fold31Undone(ByMix(Fold27(a)));
    Fold31Undone(ByMix(Fold27(b)));
  }

  // ----- the words of a string

  /** The string filled up with zeros to whole words. */
  function Padded(s: Bytes): (p: Bytes)
    ensures |p| % 8 == 0 && s <= p
  {
    if |s| % 8 == 0 then s else s + Zeros(8 - |s| % 8)
  }

  lemma PaddedParts(s: Bytes)
    ensures var (whole, t) := (s[..|s| - |s| % 8], Tail(s));
      Padded(s) == if t == [] then whole else whole + (t + Zeros(8 - |t|))
  {
    assert s == s[..|s| - |s| % 8] + Tail(s);
  }

  lemma AfterPadded(s: Bytes)
    ensures AfterAll(s) == Absorbed(BASIS, Padded(s))
  {
    hide Word, FromLe, Padded, Absorbed, Zeros;
    var whole, t := s[..|s| - |s| % 8], Tail(s);
    AbsorbedDropsTail(BASIS, s);
    PaddedParts(s);
    if t == [] {
      assert AfterAll(s) == Absorbed(BASIS, s);
    } else {
      AbsorbedConcat(BASIS, whole, t + Zeros(8 - |t|));
      AbsorbedOne(Absorbed(BASIS, whole), t + Zeros(8 - |t|));
      assert AfterAll(s) == Word(Absorbed(BASIS, s), FromLe(t + Zeros(8 - |t|)));
    }
  }

  lemma DigestOfPadded(s: Bytes)
    ensures Digest(s) == Finalize(Absorbed(BASIS, Padded(s)), Counted(|s|))
  {
    hide Finalize, Counted, Padded, Absorbed, AfterAll;
    AfterPadded(s);
  }

  lemma AbsorbedOne(h: bv64, word: Bytes)
    requires |word| == 8
    ensures Absorbed(h, word) == Word(h, FromLe(word))
  {
    hide Xored, Word, FromLe;
    assert word[..8] == word && word[8..] == [];
  }

  /** A byte of a word read back from it. */
  lemma ByteOf(b: Bytes)
    requires |b| == 8
    ensures b[0] == (FromLe(b) & 0xFF) as bv8 && b[1] == ((FromLe(b) >> 8) & 0xFF) as bv8
    ensures b[2] == ((FromLe(b) >> 16) & 0xFF) as bv8 && b[3] == ((FromLe(b) >> 24) & 0xFF) as bv8
    ensures b[4] == ((FromLe(b) >> 32) & 0xFF) as bv8 && b[5] == ((FromLe(b) >> 40) & 0xFF) as bv8
    ensures b[6] == ((FromLe(b) >> 48) & 0xFF) as bv8 && b[7] == ((FromLe(b) >> 56) & 0xFF) as bv8
  {
  }

  lemma WordsDiffer(u: Bytes, v: Bytes)
    requires |u| == |v| == 8
    ensures FromLe(u) == FromLe(v) ==> u == v
  {
    hide FromLe;
    ByteOf(u);
    ByteOf(v);
    if FromLe(u) == FromLe(v) {
      assert u == v;
    }
  }

  /** Whatever comes after, two states are never brought together by the same bytes. */
  lemma {:induction false} AbsorbedApart(h: bv64, g: bv64, s: Bytes)
    requires h != g
    ensures Absorbed(h, s) != Absorbed(g, s)
    decreases |s|
  {
    hide Xored, Word, FromLe;
    if |s| >= 8 {
      var w := FromLe(s[..8]);
      XorApart(h, g, w);
      WordApart(h, w, g, w);
      AbsorbedApart(Word(h, w), Word(g, w), s[8..]);
    }
  }

  // ----- what is told apart

  lemma WordsApart(h: bv64, u: Bytes, v: Bytes, after: Bytes)
    requires |u| == |v| == 8 && u != v
    ensures Absorbed(h, u + after) != Absorbed(h, v + after)
  {
    hide Xored, Word, FromLe, Absorbed;
    AbsorbedConcat(h, u, after);
    AbsorbedConcat(h, v, after);
    AbsorbedOne(h, u);
    AbsorbedOne(h, v);
    WordsDiffer(u, v);
    XorApart(FromLe(u), FromLe(v), h);
    WordApart(h, FromLe(u), h, FromLe(v));
    AbsorbedApart(Word(h, FromLe(u)), Word(h, FromLe(v)), after);
  }

  /** Two strings of one length that differ inside a single word, the last and short one included, have
      different digests. */
  lemma DigestTellsAWord(s: Bytes, t: Bytes, at: nat)
    requires |s| == |t| && at % 8 == 0 && at < |s| && s != t
    requires forall i :: 0 <= i < |s| && !(at <= i < at + 8) ==> s[i] == t[i]
    ensures Digest(s) != Digest(t)
  {
    hide Xored, Finalize, Absorbed, Digest, Counted;
    var p, q := Padded(s), Padded(t);
    DigestOfPadded(s);
    DigestOfPadded(t);
    PaddedApart(s, t, at);
    var before, u, v, after := p[..at], p[at..at + 8], q[at..at + 8], p[at + 8..];
    AbsorbedConcat(BASIS, before, u + after);
    AbsorbedConcat(BASIS, before, v + after);
    WordsApart(Absorbed(BASIS, before), u, v, after);
    XorApart(Absorbed(BASIS, p), Absorbed(BASIS, q), Counted(|s|));
    FinalizeApart(Absorbed(BASIS, p), Counted(|s|), Absorbed(BASIS, q), Counted(|t|));
  }

  lemma PaddedApart(s: Bytes, t: Bytes, at: nat)
    requires |s| == |t| && at % 8 == 0 && at < |s|
    requires forall i :: 0 <= i < |s| && !(at <= i < at + 8) ==> s[i] == t[i]
    ensures var (p, q) := (Padded(s), Padded(t));
      && at + 8 <= |p| == |q| && (p[at..at + 8] == q[at..at + 8] ==> s == t)
      && p == p[..at] + (p[at..at + 8] + p[at + 8..]) && q == p[..at] + (q[at..at + 8] + p[at + 8..])
  {
    hide Padded, Zeros;
    PaddedAgree(s, t, at);
    AgreeOutside(Padded(s), Padded(t), at);
  }

  lemma PaddedAgree(s: Bytes, t: Bytes, at: nat)
    requires |s| == |t| && at % 8 == 0 && at < |s|
    requires forall i :: 0 <= i < |s| && !(at <= i < at + 8) ==> s[i] == t[i]
    ensures var (p, q) := (Padded(s), Padded(t));
      && at + 8 <= |p| == |q| && (forall i :: 0 <= i < |p| && !(at <= i < at + 8) ==> p[i] == q[i])
      && (p[at..at + 8] == q[at..at + 8] ==> s == t)
  {
    hide Zeros;
    var p, q := Padded(s), Padded(t);
    if p[at..at + 8] == q[at..at + 8] {
      forall i | 0 <= i < |s|
        ensures s[i] == t[i]
      {
        assert at <= i < at + 8 ==> p[at..at + 8][i - at] == q[at..at + 8][i - at];
      }
    }
  }

  lemma AgreeOutside(p: Bytes, q: Bytes, at: nat)
    requires at + 8 <= |p| == |q| && forall i :: 0 <= i < |p| && !(at <= i < at + 8) ==> p[i] == q[i]
    ensures p == p[..at] + (p[at..at + 8] + p[at + 8..]) && q == p[..at] + (q[at..at + 8] + p[at + 8..])
  {
    assert q[..at] == p[..at] && q[at + 8..] == p[at + 8..];
    assert q == q[..at] + (q[at..at + 8] + q[at + 8..]);
  }

  /** A short last word is told from the same word with zeros written out. */
  lemma DigestTellsZeros(s: Bytes, k: nat)
    requires |s| % 8 > 0 && 1 <= k <= 8 - |s| % 8
    ensures Digest(s) != Digest(s + Zeros(k))
  {
    hide Xored, Finalize, Absorbed, Digest, Counted, Added;
    var t := s + Zeros(k);
    assert Padded(s) == Padded(t);
    DigestOfPadded(s);
    DigestOfPadded(t);
    CountedApart(|s|, k);
    XorApart(Counted(|s|), Counted(|t|), Absorbed(BASIS, Padded(s)));
    FinalizeApart(Absorbed(BASIS, Padded(s)), Counted(|s|), Absorbed(BASIS, Padded(s)), Counted(|t|));
  }

  lemma CountedApart(n: nat, k: nat)
    requires 1 <= k <= 8
    ensures Counted(n) != Counted(n + k)
  {
    hide Added, Counted;
    CountedSum(n, k);
    FewAreCounted();
    AddedApart(Counted(n), Counted(k));
  }

  lemma FewAreCounted()
    ensures Counted(0) == 0 && Counted(1) == 1 && Counted(2) == 2 && Counted(3) == 3 && Counted(4) == 4
    ensures Counted(5) == 5 && Counted(6) == 6 && Counted(7) == 7 && Counted(8) == 8 && Counted(9) == 9
  {
  }

  lemma AddedApart(a: bv64, b: bv64)
    requires b != 0
    ensures Added(a, b) != a
  {
  }

  /** After whole words it is otherwise: up to eight zeros more change nothing exactly where the one word of
      zeros they come to moves the state by what they add to the length. */
  lemma ZerosAfterWholeWords(s: Bytes, k: nat)
    requires |s| % 8 == 0 && 1 <= k <= 8
    ensures var (h, t) := (Absorbed(BASIS, s), s + Zeros(k));
      Digest(s) == Digest(t) <==> Xored(h, Counted(|s|)) == Xored(Word(h, 0), Counted(|t|))
  {
    hide Xored, Finalize, Absorbed, Word, Padded, Zeros, Digest, Counted;
    var t := s + Zeros(k);
    PaddedByAWord(s, k);
    AWordOfZeros(s);
    DigestsMeet(s, Absorbed(BASIS, s), t, Word(Absorbed(BASIS, s), 0));
  }

  lemma DigestsMeet(s: Bytes, h: bv64, t: Bytes, g: bv64)
    requires Absorbed(BASIS, Padded(s)) == h && Absorbed(BASIS, Padded(t)) == g
    ensures Digest(s) == Digest(t) <==> Xored(h, Counted(|s|)) == Xored(g, Counted(|t|))
  {
    hide Xored, Finalize, Absorbed, Padded, Digest, Counted;
    DigestOfPadded(s);
    DigestOfPadded(t);
    FinalizeApart(h, Counted(|s|), g, Counted(|t|));
  }

  lemma AWordOfZeros(s: Bytes)
    requires |s| % 8 == 0
    ensures Absorbed(BASIS, s + Zeros(8)) == Word(Absorbed(BASIS, s), 0)
  {
    hide Absorbed, FromLe, Word, Zeros;
    AbsorbedConcat(BASIS, s, Zeros(8));
    AbsorbedOne(Absorbed(BASIS, s), Zeros(8));
    ZerosAreNought();
  }

  lemma PaddedByAWord(s: Bytes, k: nat)
    requires |s| % 8 == 0 && 1 <= k <= 8
    ensures Padded(s) == s && Padded(s + Zeros(k)) == s + Zeros(8)
    ensures |s + Zeros(k)| == |s| + k
  {
    var t := s + Zeros(k);
    if k < 8 {
      assert |t| % 8 == k;
      assert Zeros(k) + Zeros(8 - k) == Zeros(8);
    } else {
      assert |t| % 8 == 0;
    }
  }

  lemma ZerosAreNought()
    ensures FromLe(Zeros(8)) == 0
  {
  }

  /** Eight bytes whose digest is also that of the eight and a zero behind them. */
  lemma ZeroAfterAWordMissed()
    ensures var s: Bytes := [0xE3, 0x38, 0x9B, 0x5B, 0x02, 0x92, 0x4A, 0x8F];
      Digest(s) == Digest(s + [0])
  {
    hide Digest, Absorbed, Word, Counted, FromLe;
    var s: Bytes := [0xE3, 0x38, 0x9B, 0x5B, 0x02, 0x92, 0x4A, 0x8F];
    assert Zeros(1) == [0];
    ZerosAfterWholeWords(s, 1);
    AbsorbedOne(BASIS, s);
    MissedStates();
    FewAreCounted();
  }

  lemma MissedStates()
    ensures FromLe([0xE3, 0x38, 0x9B, 0x5B, 0x02, 0x92, 0x4A, 0x8F]) == 0x8f4a_9202_5b9b_38e3
    ensures Word(BASIS, 0x8f4a_9202_5b9b_38e3) == 0xa85c_06d2_63e2_d57f
    ensures Word(0xa85c_06d2_63e2_d57f, 0) == 0xa85c_06d2_63e2_d57e
  {
  }

  // ----- the values written blobs are held to

  lemma PinnedDigests()
    ensures Digest([]) == 0xe220_a839_7b1d_cdaf
    ensures Digest([0x61]) == 0x8b92_4b9e_e3ce_42da
    ensures Digest([0x31, 0x32, 0x33, 0x34, 0x35, 0x36, 0x37, 0x38]) == 0xd56d_dc08_eb9e_e133
    ensures Digest([0x31, 0x32, 0x33, 0x34, 0x35, 0x36, 0x37, 0x38, 0x39]) == 0xaa5d_e941_889d_7528
  {
    hide Digest;
    PinnedShort();
    PinnedWord();
    PinnedLonger();
  }

  lemma PinnedShort()
    ensures Digest([]) == 0xe220_a839_7b1d_cdaf
    ensures Digest([0x61]) == 0x8b92_4b9e_e3ce_42da
  {
    FewAreCounted();
  }

  lemma PinnedWord()
    ensures Digest([0x31, 0x32, 0x33, 0x34, 0x35, 0x36, 0x37, 0x38]) == 0xd56d_dc08_eb9e_e133
  {
    hide Absorbed;
    FewAreCounted();
    AbsorbedOne(BASIS, [0x31, 0x32, 0x33, 0x34, 0x35, 0x36, 0x37, 0x38]);
  }

  lemma PinnedLonger()
    ensures Digest([0x31, 0x32, 0x33, 0x34, 0x35, 0x36, 0x37, 0x38, 0x39]) == 0xaa5d_e941_889d_7528
  {
    hide Absorbed, Word, FromLe, Counted, Finalize, Zeros;
    var word, last: Bytes := [0x31, 0x32, 0x33, 0x34, 0x35, 0x36, 0x37, 0x38], [0x39, 0, 0, 0, 0, 0, 0, 0];
    var all: Bytes := [0x31, 0x32, 0x33, 0x34, 0x35, 0x36, 0x37, 0x38, 0x39];
    FewAreCounted();
    NineStates();
    DigestOfPadded(all);
    PaddedNine();
    AbsorbedConcat(BASIS, word, last);
    AbsorbedOne(BASIS, word);
    AbsorbedOne(Absorbed(BASIS, word), last);
  }

  lemma PaddedNine()
    ensures var (word, last, all) := ([0x31, 0x32, 0x33, 0x34, 0x35, 0x36, 0x37, 0x38], [0x39, 0, 0, 0, 0, 0, 0, 0],
        [0x31, 0x32, 0x33, 0x34, 0x35, 0x36, 0x37, 0x38, 0x39]);
      Padded(all) == word + last
  {
  }

  lemma NineStates()
    ensures FromLe([0x31, 0x32, 0x33, 0x34, 0x35, 0x36, 0x37, 0x38]) == 0x3837_3635_3433_3231
    ensures FromLe([0x39, 0, 0, 0, 0, 0, 0, 0]) == 0x39
    ensures Word(BASIS, 0x3837_3635_3433_3231) == 0xee48_b9c8_e7da_6278
    ensures Word(0xee48_b9c8_e7da_6278, 0x39) == 0x3f9d_3780_7870_99f5
    ensures Finalize(0x3f9d_3780_7870_99f5, 9) == 0xaa5d_e941_889d_7528
  {
  }
}
