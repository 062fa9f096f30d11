/** The streaming whole-payload hash: eight-byte words, what does not fill one kept for the next call.
    However a stream is cut into calls, the digest is that of the bytes. */
module BlockHash {

  type Bytes = seq<bv8>

  const BASIS: bv64 := 0x9e37_79b9_7f4a_7c15

  /** The word eight bytes spell, the first byte its lowest. */
  function FromLe(b: Bytes): bv64
    requires |b| == 8
  {
    (b[0] as bv64) | (b[1] as bv64 << 8) | (b[2] as bv64 << 16) | (b[3] as bv64 << 24)
    | (b[4] as bv64 << 32) | (b[5] as bv64 << 40) | (b[6] as bv64 << 48) | (b[7] as bv64 << 56)
  }

  /** A length counted on 64 bits, past which it wraps. */
  function Counted(n: nat): bv64 {
    if n == 0 then 0 else Next(Counted(n - 1))
  }

  function Next(a: bv64): bv64 {
    a + 1
  }

  /** `a.wrapping_add(b)`. */
  function Added(a: bv64, b: bv64): bv64 {
    a + b
  }

  lemma AddedOnward(a: bv64, b: bv64)
    ensures Added(a, Next(b)) == Next(Added(a, b)) && Added(a, 0) == a
  {
  }

  lemma {:induction false} CountedSum(n: nat, k: nat)
    ensures Counted(n + k) == Added(Counted(n), Counted(k))
  {
    hide Added, Next;
    if k > 0 {
      CountedSum(n, k - 1);
      AddedOnward(Counted(n), Counted(k - 1));
    } else {
      AddedOnward(Counted(n), 0);
    }
  }

  function Zeros(k: nat): (z: Bytes)
    ensures |z| == k
  {
    seq(k, _ => 0)
  }

  // ----- the steps of the mixing

  function Xored(a: bv64, b: bv64): bv64 {
    a ^ b
  }

  function ByMultiply(a: bv64): bv64 {
    a * 0xbf58_476d_1ce4_e5b9
  }

  function ByMix(a: bv64): bv64 {
    a * 0x94d0_49bb_1331_11eb
  }

  function Fold27(a: bv64): bv64 {
    a ^ (a >> 27)
  }

  function Fold29(a: bv64): bv64 {
    a ^ (a >> 29)
  }

  function Fold30(a: bv64): bv64 {
    a ^ (a >> 30)
  }

  function Fold31(a: bv64): bv64 {
    a ^ (a >> 31)
  }

  /** The state after one more word. */
  function Word(h: bv64, w: bv64): bv64 {
    Fold29(ByMultiply(Xored(h, w)))
  }

  /** The digest of a state after `total` bytes. */
  function Finalize(h: bv64, total: bv64): bv64 {
    Fold31(ByMix(Fold27(ByMultiply(Fold30(Xored(h, total))))))
  }

  // ----- what a stream hashes to

  /** The state after the whole words of `s`. */
  function Absorbed(h: bv64, s: Bytes): bv64
    decreases |s|
  {
    if |s| < 8 then h else Absorbed(Word(h, FromLe(s[..8])), s[8..])
  }

  /** What is left of `s` past its whole words. */
  function Tail(s: Bytes): (t: Bytes)
    ensures |t| == |s| % 8
  {
    s[|s| - |s| % 8..]
  }

  /** The state after all of `s`: its words, and its tail padded with zeros where it has one. */
  function AfterAll(s: Bytes): bv64 {
    var h, t := Absorbed(BASIS, s), Tail(s);
    if t == [] then h else Word(h, FromLe(t + Zeros(8 - |t|)))
  }

  /** The digest of a byte string. */
  function Digest(s: Bytes): bv64 {
    Finalize(AfterAll(s), Counted(|s|))
  }

  lemma {:induction false} AbsorbedConcat(h: bv64, a: Bytes, b: Bytes)
    requires |a| % 8 == 0
    ensures Absorbed(h, a + b) == Absorbed(Absorbed(h, a), b)
    decreases |a|
  {
    if a == [] {
      assert a + b == b;
    } else {
      assert (a + b)[..8] == a[..8] && (a + b)[8..] == a[8..] + b;
      AbsorbedConcat(Word(h, FromLe(a[..8])), a[8..], b);
    }
  }

  /** Whole words and a tail: the stream's state as the hasher keeps it. */
  lemma {:induction false} AbsorbedDropsTail(h: bv64, s: Bytes)
    ensures Absorbed(h, s) == Absorbed(h, s[..|s| - |s| % 8])
  {
    var whole := s[..|s| - |s| % 8];
    assert s == whole + Tail(s);
    AbsorbedConcat(h, whole, Tail(s));
  }

  /** Appending `bytes` to what has been absorbed: the tail and the bytes make the new words. */
  lemma AbsorbedOnward(h: bv64, s: Bytes, bytes: Bytes)
    ensures Absorbed(h, s + bytes) == Absorbed(Absorbed(h, s), Tail(s) + bytes)
    ensures Tail(s + bytes) == Tail(Tail(s) + bytes)
  {
    var whole := s[..|s| - |s| % 8];
    assert s + bytes == whole + (Tail(s) + bytes);
    AbsorbedConcat(h, whole, Tail(s) + bytes);
    AbsorbedDropsTail(h, s);
    TailAfterWords(whole, Tail(s) + bytes);
  }

  lemma TailShort(h: bv64, s: Bytes)
    ensures |s| < 8 ==> Tail(s) == s && Absorbed(h, s) == h
  {
  }

  lemma TailAfterWords(whole: Bytes, t: Bytes)
    requires |whole| % 8 == 0
    ensures Tail(whole + t) == Tail(t)
  {
    assert |whole + t| % 8 == |t| % 8;
    assert (whole + t)[|whole + t| - |t| % 8..] == t[|t| - |t| % 8..];
  }

  /** A pending tail completed by the front of `bytes`. */
  lemma FirstWord(h: bv64, t: Bytes, bytes: Bytes)
    requires |t| < 8 && 8 - |t| <= |bytes|
    ensures var take := 8 - |t|;
      && Absorbed(h, t + bytes) == Absorbed(Word(h, FromLe(t + bytes[..take])), bytes[take..])
      && Tail(t + bytes) == Tail(bytes[take..])
  {
    var take := 8 - |t|;
    var word := t + bytes[..take];
    assert (t + bytes)[..8] == word && (t + bytes)[8..] == bytes[take..];
    assert t + bytes == word + bytes[take..];
    TailAfterWords(word, bytes[take..]);
  }

  class BlockHasher {
    var h: bv64
    var buf: array<bv8>
    var bufLen: nat
    var total: bv64

    /** The hasher has absorbed exactly `s`; the bytes of the buffer past `bufLen` are anything. */
    ghost predicate Holds(s: Bytes)
      reads this, buf
    {
      && buf.Length == 8
      && bufLen == |s| % 8
      && total == Counted(|s|)
      && h == Absorbed(BASIS, s)
      && buf[..bufLen] == Tail(s)
    }

    constructor ()
      ensures Holds([])
      ensures fresh(buf)
    {
      h := BASIS;
      buf := new bv8[8](_ => 0);
      bufLen := 0;
      total := 0;
    }

    method AddWord(w: bv64)
      modifies this`h
      ensures h == Word(old(h), w)
    {
      hide Xored, ByMultiply, Fold29;
      h := ByMultiply(Xored(h, w));
      h := Fold29(h);
    }

    method Update(bytes0: Bytes, ghost s: Bytes)
      requires Holds(s)
      modifies this, buf
      ensures Holds(s + bytes0) && buf == old(buf)
    {
      hide Absorbed, Tail;
      AbsorbedOnward(BASIS, s, bytes0);
      TailShort(h, Tail(s) + bytes0);
      var bytes := bytes0;
      CountedSum(|s|, |bytes|);
      total := Added(total, Counted(|bytes|));
      if bufLen > 0 {
        var full;
        full, bytes := FillBuffer(bytes0, s);
        if !full {
          return;
        }
      } else {
        assert Tail(s) + bytes == bytes;
      }
      AbsorbWords(bytes);
      CopyAt(0, Tail(bytes));
      bufLen := |Tail(bytes)|;
    }

    /** The pending tail completed from the front of `bytes`, as far as they go; a completed word is absorbed. */
    method FillBuffer(bytes: Bytes, ghost s: Bytes) returns (full: bool, rest: Bytes)
      requires buf.Length == 8 && 0 < bufLen == |Tail(s)| < 8 && buf[..bufLen] == Tail(s)
      modifies this`h, this`bufLen, buf
      ensures !full ==> bufLen == |Tail(s)| + |bytes| < 8 && buf[..bufLen] == Tail(s) + bytes && h == old(h)
      ensures full ==> Absorbed(h, rest) == Absorbed(old(h), Tail(s) + bytes) && Tail(rest) == Tail(Tail(s) + bytes)
    {
      hide Absorbed, Tail, FromLe, Word;
      var take := if |bytes| < 8 - bufLen then |bytes| else 8 - bufLen;
      CopyAt(bufLen, bytes[..take]);
      bufLen := bufLen + take;
      rest := bytes[take..];
      full := bufLen == 8;
      if full {
        FirstWord(h, Tail(s), bytes);
        assert buf[..] == buf[..bufLen];
        AddWord(FromLe(buf[..]));
      } else {
        assert bytes[..take] == bytes;
      }
    }

    /** The whole words of `bytes`, in turn. */
    method AbsorbWords(bytes: Bytes)
      modifies this`h
      ensures h == Absorbed(old(h), bytes)
    {
      var at := 0;
      assert bytes[0..] == bytes;
      while |bytes| - at >= 8
        invariant 0 <= at <= |bytes|
        invariant Absorbed(h, bytes[at..]) == Absorbed(old(h), bytes)
      {
        assert bytes[at..][..8] == bytes[at..at + 8] && bytes[at..][8..] == bytes[at + 8..];
        AddWord(FromLe(bytes[at..at + 8]));
        at := at + 8;
      }
    }

    method CopyAt(at: nat, from: Bytes)
      requires at + |from| <= buf.Length
      modifies buf
      ensures buf[..at + |from|] == old(buf[..at]) + from
    {
      for i := 0 to |from|
        invariant buf[..at + i] == old(buf[..at]) + from[..i]
      {
        buf[at + i] := from[i];
        assert buf[..at + i + 1] == buf[..at + i] + [from[i]];
        assert from[..i + 1] == from[..i] + [from[i]];
      }
      assert from[..|from|] == from;
    }

    /** The digest; the hasher is spent. */
    method Finish(ghost s: Bytes) returns (d: bv64)
      requires Holds(s)
      modifies this, buf
      ensures d == Digest(s)
    {
      hide FromLe, Word, Finalize, Absorbed;
      if bufLen > 0 {
        CopyAt(bufLen, Zeros(8 - bufLen));
        assert buf[..8] == Tail(s) + Zeros(8 - bufLen);
        AddWord(FromLe(buf[..8]));
      }
      d := Finalize(h, total);
    }
  }

  function Joined(parts: seq<Bytes>): Bytes {
    if parts == [] then [] else parts[0] + Joined(parts[1..])
  }

  lemma JoinedStep(s: Bytes, parts: seq<Bytes>, i: nat)
    requires i < |parts|
    ensures s + Joined(parts[i..]) == (s + parts[i]) + Joined(parts[i + 1..])
  {
    assert parts[i..][0] == parts[i] && parts[i..][1..] == parts[i + 1..];
    assert s + (parts[i] + Joined(parts[i + 1..])) == (s + parts[i]) + Joined(parts[i + 1..]);
  }

  /** However a byte string is cut into calls, the digest is that of the whole in one. */
  method HashInParts(parts: seq<Bytes>) returns (d: bv64)
    ensures d == Digest(Joined(parts))
  {
    var hasher := new BlockHasher();
    ghost var s: Bytes := [];
    assert parts[0..] == parts && s + Joined(parts) == Joined(parts);
    for i := 0 to |parts|
      invariant hasher.Holds(s) && fresh(hasher) && fresh(hasher.buf)
      invariant s + Joined(parts[i..]) == Joined(parts)
    {
      JoinedStep(s, parts, i);
      hasher.Update(parts[i], s);
      s := s + parts[i];
    }
    assert parts[|parts|..] == [] && s + [] == s;
    d := hasher.Finish(s);
  }

  /** `hash_block`: one slice in one call. */
  method HashBlock(bytes: Bytes) returns (d: bv64)
    ensures d == Digest(bytes)
  {
    assert Joined([bytes]) == bytes + Joined([]) == bytes;
    d := HashInParts([bytes]);
  }
}
