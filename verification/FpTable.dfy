/** The bit-packed fingerprint table: fingerprints of any width from 1 to 64 bits, one after another,
    written once each in any order and read back by slot. As a number the table is its fingerprints,
    each shifted to its place, and every read path is one of its fields. */
module FpTable {
  import opened Lex
  import opened Bits
  import opened Wrappers

  // ----- the table as a number

  /** Fingerprints of `bits` bits, the first lowest. */
  function TableVal(p: seq<nat>, bits: nat): nat {
    if p == [] then 0 else p[0] + Shl(TableVal(p[1..], bits), bits)
  }

  ghost predicate AllFit(p: seq<nat>, bits: nat) {
    forall i :: 0 <= i < |p| ==> p[i] < Pow2(bits)
  }

  /** Every slot reads its own fingerprint. */
  lemma {:induction false} TableField(p: seq<nat>, bits: nat, s: nat)
    requires AllFit(p, bits) && s < |p|
    ensures Field(TableVal(p, bits), Times(s, bits), bits) == p[s]
  {
    var rest := TableVal(p[1..], bits);
    LowAndRestUnique(p[0], rest, bits);
    if s > 0 {
      ShrShr(TableVal(p, bits), bits, Times(s - 1, bits));
      TableField(p[1..], bits, s - 1);
    }
  }

  /** Filling an empty slot adds its fingerprint, shifted to its place, and no more. */
  lemma {:induction false} TableUpdate(p: seq<nat>, bits: nat, s: nat, f: nat)
    requires s < |p| && p[s] == 0
    ensures TableVal(p[s := f], bits) == TableVal(p, bits) + Shl(f, Times(s, bits))
  {
    if s == 0 {
      assert p[s := f][1..] == p[1..];
      assert Shl(f, 0) == f;
    } else {
      assert p[s := f][1..] == p[1..][s - 1 := f];
      TableUpdate(p[1..], bits, s - 1, f);
      ShlAdd(TableVal(p[1..], bits), Shl(f, Times(s - 1, bits)), bits);
      ShlShl(f, Times(s - 1, bits), bits);
    }
  }

  lemma {:induction false} TableBound(p: seq<nat>, bits: nat)
    requires AllFit(p, bits)
    ensures TableVal(p, bits) < Pow2(Times(|p|, bits))
  {
    if p != [] {
      TableBound(p[1..], bits);
      BoundAbove(p[0], TableVal(p[1..], bits), bits, Times(|p| - 1, bits));
    }
  }

  lemma BoundAbove(low: nat, high: nat, a: nat, b: nat)
    requires low < Pow2(a) && high < Pow2(b)
    ensures low + Shl(high, a) < Pow2(a + b)
  {
    ShlMonotone(high, Pow2(b), a);
    ShlOne(b);
    ShlOne(a + b);
    ShlShl(1, b, a);
  }

  lemma {:induction false} TableConcat(p: seq<nat>, q: seq<nat>, bits: nat)
    ensures TableVal(p + q, bits) == TableVal(p, bits) + Shl(TableVal(q, bits), Times(|p|, bits))
  {
    if p == [] {
      assert p + q == q;
    } else {
      assert (p + q)[1..] == p[1..] + q;
      TableConcat(p[1..], q, bits);
      var rest := Shl(TableVal(q, bits), Times(|p| - 1, bits));
      ShlAdd(TableVal(p[1..], bits), rest, bits);
      ShlShl(TableVal(q, bits), Times(|p| - 1, bits), bits);
    }
  }

  // ----- the table as bytes

  /** Bytes a table of `count` fingerprints occupies. */
  function TableLen(count: nat, bits: nat): nat {
    (Times(count, bits) + 7) / 8
  }

  ghost predicate TableOf(s: seq<byte>, p: seq<nat>, bits: nat) {
    && AllFit(p, bits)
    && |s| == TableLen(|p|, bits)
    && Val(s) == TableVal(p, bits)
  }

  /** The bytes of a table are settled by its fingerprints. */
  lemma TableUnique(s: seq<byte>, t: seq<byte>, p: seq<nat>, bits: nat)
    requires TableOf(s, p, bits) && TableOf(t, p, bits)
    ensures s == t
  {
    ToLeVal(s);
    ToLeVal(t);
  }

  lemma SlotWithin(s: nat, m: nat, bits: nat, len: nat)
    requires s < m && len == TableLen(m, bits)
    ensures Times(s, bits) + bits <= 8 * len
  {
    TimesMonotone(s + 1, m, bits);
  }

  /** A stretch of bytes replaced. */
  lemma ValReplaced(a: seq<byte>, b: seq<byte>, t: seq<byte>, c: seq<byte>)
    requires |b| == |t|
    ensures Val(a + t + c) + Shl(Val(b), 8 * |a|) == Val(a + b + c) + Shl(Val(t), 8 * |a|)
  {
    ValThree(a, b, c);
    ValThree(a, t, c);
    var top := Shl(Val(c), 8 * |b|);
    ShlAdd(Val(b), top, 8 * |a|);
    ShlAdd(Val(t), top, 8 * |a|);
  }

  lemma ValThree(a: seq<byte>, b: seq<byte>, c: seq<byte>)
    ensures Val(a + b + c) == Val(a) + Shl(Val(b) + Shl(Val(c), 8 * |b|), 8 * |a|)
  {
    assert a + b + c == a + (b + c);
    ValConcat(a, b + c);
    ValOfTwo(b, c, |b|);
  }

  lemma ValOfTwo(b: seq<byte>, c: seq<byte>, n: nat)
    requires n == |b|
    ensures Val(b + c) == Val(b) + Shl(Val(c), 8 * n)
  {
    ValConcat(b, c);
  }

  // ----- writing

  /** A fingerprint of whole bytes: a straight copy. */
  method CopyIn(fps: array<byte>, start: nat, k: nat, fp: nat)
    requires start + k <= fps.Length && fp < Pow2(8 * k)
    requires Field(Val(fps[..]), 8 * start, 8 * k) == 0
    modifies fps
    ensures Val(fps[..]) == Val(old(fps[..])) + Shl(fp, 8 * start)
  {
    ghost var s := fps[..];
    var bytes := ToLe(fp, k);
    for j := 0 to k
      invariant forall i :: 0 <= i < fps.Length ==> fps[i] == if start <= i < start + j then bytes[i - start] else s[i]
    {
      fps[start + j] := bytes[j];
    }
    CopyAdds(s, start, k, fp);
    assert fps[..] == s[..start] + bytes + s[start + k..];
  }

  lemma CopyAdds(s: seq<byte>, start: nat, k: nat, fp: nat)
    requires start + k <= |s| && fp < Pow2(8 * k) && Field(Val(s), 8 * start, 8 * k) == 0
    ensures Val(s[..start] + ToLe(fp, k) + s[start + k..]) == Val(s) + Shl(fp, 8 * start)
  {
    hide Shl, Field, Pow2, Val, ToLe, Shr, Low;
    ValSlice(s, start, start + k);
    ToLeReadsBack(fp, k);
    assert s == s[..start] + s[start..start + k] + s[start + k..];
    ValReplaced(s[..start], s[start..start + k], ToLe(fp, k), s[start + k..]);
  }

  function OrBytes(a: seq<byte>, b: seq<byte>): (r: seq<byte>)
    requires |a| == |b|
    ensures |r| == |a|
    ensures forall i :: 0 <= i < |r| ==> r[i] == Or(a[i], b[i])
  {
    if a == [] then []
    else
      OrBound(a[0], b[0], 8);
      assert Pow2(8) == 256;
      [Or(a[0], b[0])] + OrBytes(a[1..], b[1..])
  }

  lemma DisjointBytes(x: nat, y: nat)
    requires Disjoint(x, y)
    ensures Disjoint(x % 256, y % 256) && Disjoint(x / 256, y / 256)
  {
    DisjointLow(x, y, 8);
    ByteShifts(0, x, 0);
    ByteShifts(0, y, 0);
  }

  lemma {:induction false} OrBytesAdds(a: seq<byte>, b: seq<byte>)
    requires |a| == |b| && Disjoint(Val(a), Val(b))
    ensures Val(OrBytes(a, b)) == Val(a) + Val(b)
  {
    if a != [] {
      DisjointBytes(Val(a), Val(b));
      var a0: int, b0: int := a[0], b[0];
      assert Val(a) % 256 == a0 && Val(b) % 256 == b0;
      assert Val(a) / 256 == Val(a[1..]) && Val(b) / 256 == Val(b[1..]);
      OrOfDisjoint(a0, b0);
      OrBytesAdds(a[1..], b[1..]);
      assert OrBytes(a, b)[1..] == OrBytes(a[1..], b[1..]);
    }
  }

  /** The nine bytes a fingerprint shifted by up to seven bits can touch. */
  lemma ShiftedBound(fp: nat, off: nat, bits: nat)
    requires fp < Pow2(bits)
    ensures Shl(fp, off) < Pow2(off + bits)
  {
    BoundAbove(0, fp, off, bits);
  }

  /** Or-ing a shifted fingerprint into a stretch whose field is empty adds it. */
  lemma OrAdds(s: seq<byte>, at: nat, m: nat, off: nat, bits: nat, fp: nat)
    requires at + m <= |s| && off + bits <= 8 * m && fp < Pow2(bits)
    requires Field(Val(s), 8 * at + off, bits) == 0
    ensures var v := ToLe(Shl(fp, off), m);
      Val(s[..at] + OrBytes(s[at..at + m], v) + s[at + m..]) == Val(s) + Shl(fp, 8 * at + off)
  {
    hide Shl, Field, Pow2, Val, ToLe, Shr, Low, Or;
    var a, v := s[at..at + m], ToLe(Shl(fp, off), m);
    OrAddsInside(s, at, m, off, bits, fp);
    assert s == s[..at] + a + s[at + m..];
    ValReplaced(s[..at], a, OrBytes(a, v), s[at + m..]);
    ShlAdd(Val(a), Shl(fp, off), 8 * at);
    ShlShl(fp, off, 8 * at);
  }

  lemma OrAddsInside(s: seq<byte>, at: nat, m: nat, off: nat, bits: nat, fp: nat)
    requires at + m <= |s| && off + bits <= 8 * m && fp < Pow2(bits)
    requires Field(Val(s), 8 * at + off, bits) == 0
    ensures Val(OrBytes(s[at..at + m], ToLe(Shl(fp, off), m))) == Val(s[at..at + m]) + Shl(fp, off)
  {
    hide Shl, Field, Pow2, Val, ToLe, Shr, Low, Or;
    var a, v := s[at..at + m], ToLe(Shl(fp, off), m);
    ValSlice(s, at, at + m);
    FieldOfField(Val(s), 8 * at, 8 * m, off, bits);
    DisjointField(Val(a), off, bits, fp);
    ShiftedBound(fp, off, bits);
    Pow2Monotone(off + bits, 8 * m);
    ToLeReadsBack(Shl(fp, off), m);
    OrBytesAdds(a, v);
  }

  lemma {:induction false} ToLePrefix(x: nat, k: nat, m: nat)
    requires m <= k
    ensures ToLe(x, k)[..m] == ToLe(x, m)
    decreases k
  {
    if m > 0 {
      ToLePrefix(x / 256, k - 1, m - 1);
      assert ToLe(x, k)[..m] == [x % 256] + ToLe(x / 256, k - 1)[..m - 1];
    }
  }

  lemma {:induction false} ToLeByte(x: nat, k: nat, j: nat)
    requires j < k
    ensures ToLe(x, k)[j] == Shr(x, 8 * j) % 256
    decreases k
  {
    hide Shl, Pow2, Low;
    if j > 0 {
      ToLeByte(x / 256, k - 1, j - 1);
      ByteShifts(0, x, 8 * (j - 1));
    }
  }

  lemma {:induction false} ShrOfShl(x: nat, a: nat, b: nat)
    requires a <= b
    ensures Shr(Shl(x, a), b) == Shr(x, b - a)
  {
    if a > 0 {
      ShrOfShl(x, a - 1, b - 1);
    }
  }

  /** The ninth byte: what the shift pushed past the word, and zero unless it pushed something. */
  lemma NinthByte(fp: nat, off: nat, bits: nat)
    requires off < 8 && bits <= 64 && fp < Pow2(bits)
    ensures ToLe(Shl(fp, off), 9)[8] == Shr(fp, 64 - off) % 256
    ensures off == 0 || off + bits <= 64 ==> ToLe(Shl(fp, off), 9)[8] == 0
  {
    hide ToLe, Shl, Shr;
    ToLeByte(Shl(fp, off), 9, 8);
    ShrOfShl(fp, off, 64);
    if off == 0 || off + bits <= 64 {
      Pow2Monotone(bits, 64 - off);
      LowOfSmall(fp, 64 - off);
    }
  }

  /** A fingerprint of any width: its bytes or-ed in, those past the table's end skipped, and the byte
      past the word where the shift reaches it. */
  method OrIn(fps: array<byte>, bitpos: nat, bits: nat, fp: nat)
    requires 1 <= bits <= 64 && fp < Pow2(bits) && bitpos + bits <= 8 * fps.Length
    requires Field(Val(fps[..]), bitpos, bits) == 0
    modifies fps
    ensures Val(fps[..]) == Val(old(fps[..])) + Shl(fp, bitpos)
  {
    var at, off := bitpos / 8, bitpos % 8;
    ghost var s := fps[..];
    OrWord(fps, at, Shl(fp, off));
    NinthByte(fp, off, bits);
    if off > 0 && off + bits > 64 {
      fps[at + 8] := OrByte(fps[at + 8], Shr(fp, 64 - off) % 256);
    }
    NineOred(s, fps[..], at, off, bits, fp);
  }

  /** The eight bytes of a word or-ed in from `at`, those past the end skipped. */
  method OrWord(fps: array<byte>, at: nat, v: nat)
    requires at < fps.Length
    modifies fps
    ensures forall i :: 0 <= i < fps.Length ==>
      fps[i] == if at <= i < at + 8 then OrByte(old(fps[i]), ToLe(v, 9)[i - at]) else old(fps[i])
  {
    var eight := ToLe(v, 8);
    ToLePrefix(v, 9, 8);
    assert forall j :: 0 <= j < 8 ==> eight[j] == ToLe(v, 9)[..8][j] == ToLe(v, 9)[j];
    for j := 0 to 8
      invariant forall i :: 0 <= i < fps.Length ==>
        fps[i] == if at <= i < at + j then OrByte(old(fps[i]), eight[i - at]) else old(fps[i])
    {
      if at + j < fps.Length {
        fps[at + j] := OrByte(fps[at + j], eight[j]);
      }
    }
  }

  lemma NineOred(s: seq<byte>, t: seq<byte>, at: nat, off: nat, bits: nat, fp: nat)
    requires |t| == |s| && at < |s| && off < 8 && 1 <= bits <= 64 && fp < Pow2(bits)
    requires 8 * at + off + bits <= 8 * |s| && Field(Val(s), 8 * at + off, bits) == 0
    requires forall i :: 0 <= i < |s| ==>
      t[i] == if at <= i < at + 9 then OrByte(s[i], ToLe(Shl(fp, off), 9)[i - at]) else s[i]
    ensures Val(t) == Val(s) + Shl(fp, 8 * at + off)
  {
    var nine := ToLe(Shl(fp, off), 9);
    var m := if |s| - at < 9 then |s| - at else 9;
    ToLePrefix(Shl(fp, off), 9, m);
    OrAdds(s, at, m, off, bits, fp);
    StretchOred(s, t, at, m, nine);
  }

  lemma StretchOred(s: seq<byte>, t: seq<byte>, at: nat, m: nat, nine: seq<byte>)
    requires |t| == |s| && |nine| == 9 && m <= 9 && at + m <= |s| && (m == 9 || at + m == |s|)
    requires forall i :: 0 <= i < |s| ==> t[i] == if at <= i < at + 9 then OrByte(s[i], nine[i - at]) else s[i]
    ensures t == s[..at] + OrBytes(s[at..at + m], nine[..m]) + s[at + m..]
  {
  }

  function OrByte(a: byte, b: byte): byte {
    OrBound(a, b, 8);
    assert Pow2(8) == 256;
    Or(a, b)
  }

  /** Write a fingerprint at an empty slot. */
  method WriteFp(fps: array<byte>, slot: nat, bits: nat, fp: nat, ghost p: seq<nat>)
    requires 1 <= bits <= 64 && fp < Pow2(bits)
    requires TableOf(fps[..], p, bits) && slot < |p| && p[slot] == 0
    modifies fps
    ensures TableOf(fps[..], p[slot := fp], bits)
  {
    SlotWithin(slot, |p|, bits, fps.Length);
    TableField(p, bits, slot);
    TableUpdate(p, bits, slot, fp);
    if bits % 8 == 0 {
      var k := bits / 8;
      TimesBytes(slot, k);
      CopyIn(fps, Times(slot, k), k, fp);
    } else {
      OrIn(fps, Times(slot, bits), bits, fp);
    }
  }

  // ----- reading

  /** The low `bits` of a fingerprint. */
  function Masked(full: nat, bits: nat): nat {
    Low(full, bits)
  }

  /** The fingerprint of `slot`, or nothing where the table is too short for it. */
  function ReadFp(s: seq<byte>, slot: nat, bits: nat): Option<nat>
    requires 1 <= bits <= 64
  {
    if bits == 8 then WholeAt(s, slot, 1)
    else if bits == 16 then WholeAt(s, 2 * slot, 2)
    else if bits == 32 then WholeAt(s, 4 * slot, 4)
    else if bits == 64 then WholeAt(s, 8 * slot, 8)
    else
      var bitpos := Times(slot, bits);
      ReadBits(s, bitpos / 8, bitpos % 8, bits)
  }

  function WholeAt(s: seq<byte>, at: nat, k: nat): Option<nat> {
    if at + k <= |s| then Some(Val(s[at..at + k])) else None
  }

  /** The bit-packed read: an eight-byte load where the table has eight bytes, else what is left. */
  function ReadBits(s: seq<byte>, at: nat, off: nat, bits: nat): Option<nat>
    requires 1 <= bits <= 64 && off < 8
  {
    if at + 8 <= |s| then ReadWord(s, at, off, bits) else ReadTail(s, at, off, bits)
  }

  /** One eight-byte load, with the byte past it where the fingerprint straddles. */
  function ReadWord(s: seq<byte>, at: nat, off: nat, bits: nat): Option<nat>
    requires at + 8 <= |s| && off < 8
  {
    var w := Shr(Val(s[at..at + 8]), off);
    if off + bits <= 64 then Some(Low(w, bits))
    else if at + 8 >= |s| then None
    else Some(Low(Or(w, Low(Shl(s[at + 8], 64 - off), 64)), bits))
  }

  /** Near the table's end the covering bytes alone. */
  function ReadTail(s: seq<byte>, at: nat, off: nat, bits: nat): Option<nat>
    requires 1 <= bits
  {
    var last := at + (off + bits - 1) / 8;
    if last >= |s| then None else Some(Low(Shr(Val(s[at..last + 1]), off), bits))
  }

  /** Eight bytes and the one past them, shifted together. */
  lemma StraddleIsNineBytes(s: seq<byte>, at: nat, off: nat)
    requires at + 9 <= |s| && 0 < off < 8
    ensures var w := Shr(Val(s[at..at + 8]), off);
      Or(w, Low(Shl(s[at + 8], 64 - off), 64)) == Low(Shr(Val(s[at..at + 9]), off), 64)
  {
    hide Shr, Low, Or, Pow2;
    var a, b: nat := Val(s[at..at + 8]), s[at + 8];
    assert s[at..at + 9] == s[at..at + 8] + [s[at + 8]];
    ValConcat(s[at..at + 8], [s[at + 8]]);
    assert Val([s[at + 8]]) == b;
    ValBound(s[at..at + 8]);
    StraddleNumbers(a, b, off, 64);
  }

  lemma StraddleNumbers(a: nat, b: nat, off: nat, size: nat)
    requires a < Pow2(size) && off <= size
    ensures Or(Shr(a, off), Low(Shl(b, size - off), size)) == Low(Shr(a + Shl(b, size), off), size)
  {
    ShiftOfTwo(a, b, off, size);
    var w, n := Shr(a, off), size - off;
    LowOfShl(b, n, size);
    OrAbove(w, Low(b, off), n);
    LowAbove(w, b, n, size);
  }

  /** A word and what is past it, shifted down: the word's own bits below, the rest above. */
  lemma ShiftOfTwo(a: nat, b: nat, off: nat, size: nat)
    requires a < Pow2(size) && off <= size
    ensures Shr(a, off) < Pow2(size - off)
    ensures Shr(a + Shl(b, size), off) == Shr(a, off) + Shl(b, size - off)
  {
    hide Shl, Field, Pow2, Val, ToLe, Shr, Low, Or;
    LowAndRest(a, off);
    LowOfSmall(a, size);
    ShrOfLow(a, size, off);
    var w, n := Shr(a, off), size - off;
    ShlShl(b, n, off);
    ShlAdd(w, Shl(b, n), off);
    LowAndRestUnique(Low(a, off), w + Shl(b, n), off);
  }

  lemma {:induction false} LowOfShl(b: nat, n: nat, k: nat)
    requires n <= k
    ensures Low(Shl(b, n), k) == Shl(Low(b, k - n), n)
  {
    if n > 0 {
      LowOfShl(b, n - 1, k - 1);
    }
  }

  lemma LowAbove(w: nat, b: nat, n: nat, k: nat)
    requires n <= k && w < Pow2(n)
    ensures Low(w + Shl(b, n), k) == w + Shl(Low(b, k - n), n)
  {
    if n > 0 {
      LowAbove(w / 2, b, n - 1, k - 1);
      assert (w + Shl(b, n)) / 2 == w / 2 + Shl(b, n - 1);
    }
  }

  /** A slot reads exactly its bits of the table, wherever the table reaches them, and nothing where it
      does not. */
  lemma ReadFpIsTheField(s: seq<byte>, slot: nat, bits: nat)
    requires 1 <= bits <= 64
    ensures ReadFp(s, slot, bits) ==
      if Times(slot, bits) + bits <= 8 * |s| then Some(Field(Val(s), Times(slot, bits), bits)) else None
  {
    if bits == 8 || bits == 16 || bits == 32 || bits == 64 {
      var k := bits / 8;
      TimesBytes(slot, k);
      AlignedIsWhole(s, slot, k);
      WholeIsTheField(s, Times(slot, k), k);
    } else {
      UnalignedIsTheField(s, slot, bits);
    }
  }

  lemma AlignedIsWhole(s: seq<byte>, slot: nat, k: nat)
    requires k == 1 || k == 2 || k == 4 || k == 8
    ensures ReadFp(s, slot, 8 * k) == WholeAt(s, Times(slot, k), k)
  {
    TimesBytes(slot, k);
  }

  lemma UnalignedIsTheField(s: seq<byte>, slot: nat, bits: nat)
    requires 1 <= bits <= 64 && bits != 8 && bits != 16 && bits != 32 && bits != 64
    ensures ReadFp(s, slot, bits) ==
      if Times(slot, bits) + bits <= 8 * |s| then Some(Field(Val(s), Times(slot, bits), bits)) else None
  {
    hide ReadBits, Field, Val, Shr, Low, Times, Pow2, Shl;
    var bitpos := Times(slot, bits);
    ReadBitsIsTheField(s, bitpos / 8, bitpos % 8, bits);
  }

  lemma WholeIsTheField(s: seq<byte>, at: nat, k: nat)
    ensures WholeAt(s, at, k) == if 8 * at + 8 * k <= 8 * |s| then Some(Field(Val(s), 8 * at, 8 * k)) else None
  {
    if at + k <= |s| {
      ValSlice(s, at, at + k);
    }
  }

  lemma ReadBitsIsTheField(s: seq<byte>, at: nat, off: nat, bits: nat)
    requires 1 <= bits <= 64 && off < 8
    ensures ReadBits(s, at, off, bits) ==
      if 8 * at + off + bits <= 8 * |s| then Some(Field(Val(s), 8 * at + off, bits)) else None
  {
    if at + 8 <= |s| {
      ReadWordIsTheField(s, at, off, bits);
    } else {
      ReadTailIsTheField(s, at, off, bits);
    }
  }

  lemma ReadTailIsTheField(s: seq<byte>, at: nat, off: nat, bits: nat)
    requires 1 <= bits
    ensures ReadTail(s, at, off, bits) ==
      if 8 * at + off + bits <= 8 * |s| then Some(Field(Val(s), 8 * at + off, bits)) else None
  {
    var last := at + (off + bits - 1) / 8;
    if last < |s| {
      FieldInSlice(s, at, last + 1 - at, off, bits);
    }
  }

  lemma ReadWordIsTheField(s: seq<byte>, at: nat, off: nat, bits: nat)
    requires at + 8 <= |s| && off < 8 && 1 <= bits <= 64
    ensures ReadWord(s, at, off, bits) ==
      if 8 * at + off + bits <= 8 * |s| then Some(Field(Val(s), 8 * at + off, bits)) else None
  {
    if off + bits <= 64 {
      FieldInSlice(s, at, 8, off, bits);
    } else if at + 9 <= |s| {
      StraddleIsNineBytes(s, at, off);
      FieldInSlice(s, at, 9, off, bits);
      LowOfLow(Shr(Val(s[at..at + 9]), off), 64, bits);
    }
  }

  lemma FieldInSlice(s: seq<byte>, at: nat, m: nat, off: nat, bits: nat)
    requires at + m <= |s| && off + bits <= 8 * m
    ensures Low(Shr(Val(s[at..at + m]), off), bits) == Field(Val(s), 8 * at + off, bits)
  {
    ValSlice(s, at, at + m);
    FieldOfField(Val(s), 8 * at, 8 * m, off, bits);
  }

  /** Whatever was written at a slot is what is read there. */
  lemma TableReadsBack(s: seq<byte>, p: seq<nat>, bits: nat, slot: nat)
    requires 1 <= bits <= 64 && TableOf(s, p, bits) && slot < |p|
    ensures ReadFp(s, slot, bits) == Some(p[slot])
  {
    SlotWithin(slot, |p|, bits, |s|);
    ReadFpIsTheField(s, slot, bits);
    TableField(p, bits, slot);
  }
}
