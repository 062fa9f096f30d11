/** What is done with a code: coding a key, placing a query among coded keys, decoding into a fresh
    buffer and in place, and storing and loading the code itself. */
module CharCodeOps {
  import opened Lex
  import opened Bits
  import opened Utf8
  import opened Spellings
  import opened Wrappers
  import opened CodeTable
  import opened Decoding
  import opened CharIndex
  import opened CharCodes

  lemma SpeltPrefixIs(sp: Spelling, query: Key, k: nat)
    requires k <= |query|
    requires forall i :: 0 <= i < k ==> sp.Spell(query[i]) != []
    requires k < |query| ==> sp.Spell(query[k]) == []
    ensures SpeltPrefix(sp, query) == k
  {
  }

  lemma CodeSnoc(sp: Spelling, key: Key, i: nat)
    requires i < |key|
    ensures sp.Code(key[..i + 1]) == sp.Code(key[..i]) + sp.Spell(key[i])
    ensures Text(key[..i + 1]) == Text(key[..i]) + Encode(key[i])
  {
    assert key[..i + 1] == key[..i] + [key[i]];
    FlatConcat(sp.Spell, key[..i], [key[i]]);
    FlatOne(sp.Spell, key[i]);
    FlatConcat(Encode, key[..i], [key[i]]);
    FlatOne(Encode, key[i]);
  }

  /** A key's code put behind `out0`, up to the first character the code has no word for. */
  method EncodeKey(code: CharCode, ghost sp: Spelling, key: Key, out0: seq<byte>) returns (ok: bool, out: seq<byte>)
    requires code.StandsFor(sp)
    ensures ok <==> sp.Spells(key)
    ensures out == out0 + sp.Code(key[..SpeltPrefix(sp, key)])
    ensures ok ==> out == out0 + sp.Code(key)
    ensures sp.mode.Seven? ==> forall i :: |out0| <= i < |out| ==> out[i] < 0x80
  {
    hide Spelling.Spell;
    if sp.mode.Seven? {
      SevenBitCode(sp, key[..SpeltPrefix(sp, key)]);
    }
    out := out0;
    for i := 0 to |key|
      invariant out == out0 + sp.Code(key[..i])
      invariant forall k :: 0 <= k < i ==> sp.Spell(key[k]) != []
    {
      var w: int := code.index.Get(key[i]);
      WordSays(code, sp, key[i]);
      CodeSnoc(sp, key, i);
      if w == 0 {
        SpeltPrefixIs(sp, key, i);
        assert key[i] !in sp.Spelt();
        return false, out;
      }
      out := out + [w / 0x100 % 0x100];
      if w / 0x1_0000 == 2 {
        out := out + [w % 0x100];
      }
    }
    SpeltPrefixIs(sp, key, |key|);
    assert key[..|key|] == key;
    ok := true;
    assert forall i :: 0 <= i < |key| ==> key[i] in sp.Spelt();
  }

  /** One buffer for all the cuts of a query: it holds the code of the longest spelt one, and `ends` says for
      each character boundary before it how many bytes the query and the code have there. */
  method Prefixes(code: CharCode, ghost sp: Spelling, query: Key) returns (out: seq<byte>, ends: seq<(nat, nat)>)
    requires code.StandsFor(sp)
    ensures var k := SpeltPrefix(sp, query);
      && out == sp.Code(query[..k]) && |ends| == k + 1
      && forall j :: 0 <= j <= k ==>
           && ends[j].0 <= |Text(query)| && Text(query)[..ends[j].0] == Text(query[..j])
           && ends[j].1 <= |out| && out[..ends[j].1] == sp.Code(query[..j])
  {
    hide Encode, Spelling.Spell, Index.Get;
    out, ends := [], [(0, 0)];
    var at: nat := 0;
    var i := 0;
    while i < |query|
      invariant 0 <= i <= |query| && |ends| == i + 1
      invariant at == |Text(query[..i])| && out == sp.Code(query[..i])
      invariant forall k :: 0 <= k < i ==> sp.Spell(query[k]) != []
      invariant forall j :: 0 <= j <= i ==> ends[j] == (|Text(query[..j])|, |sp.Code(query[..j])|)
    {
      var w: int := code.index.Get(query[i]);
      WordSays(code, sp, query[i]);
      CodeSnoc(sp, query, i);
      if w == 0 {
        break;
      }
      out := out + [w / 0x100 % 0x100];
      if w / 0x1_0000 == 2 {
        out := out + [w % 0x100];
      }
      at := at + |Encode(query[i])|;
      ends := ends + [(at, |out|)];
      i := i + 1;
    }
    SpeltPrefixIs(sp, query, i);
    EndsCut(sp, query, i, ends);
  }

  lemma EndsCut(sp: Spelling, query: Key, k: nat, ends: seq<(nat, nat)>)
    requires k <= |query| && |ends| == k + 1
    requires forall j :: 0 <= j <= k ==> ends[j] == (|Text(query[..j])|, |sp.Code(query[..j])|)
    ensures forall j :: 0 <= j <= k ==>
      && ends[j].0 <= |Text(query)| && Text(query)[..ends[j].0] == Text(query[..j])
      && ends[j].1 <= |sp.Code(query[..k])| && sp.Code(query[..k])[..ends[j].1] == sp.Code(query[..j])
  {
    forall j | 0 <= j <= k
      ensures ends[j].0 <= |Text(query)| && Text(query)[..ends[j].0] == Text(query[..j])
      ensures ends[j].1 <= |sp.Code(query[..k])| && sp.Code(query[..k])[..ends[j].1] == sp.Code(query[..j])
    {
      CutBefore(Encode, query, j, |query|);
      CutBefore(sp.Spell, query, j, k);
    }
  }

  lemma CutBefore(f: Scalar -> seq<byte>, key: Key, i: nat, j: nat)
    requires i <= j <= |key|
    ensures |Flat(f, key[..i])| <= |Flat(f, key[..j])|
    ensures Flat(f, key[..j])[..|Flat(f, key[..i])|] == Flat(f, key[..i])
    ensures Flat(f, key[..|key|]) == Flat(f, key)
  {
    assert key[..|key|] == key;
    assert key[..j] == key[..i] + key[i..j];
    FlatConcat(f, key[..i], key[i..j]);
  }

  // ----- probes

  /** A codeword stored with no branch on its length: always both bytes, the end alone depending on it. */
  method Put(out: array<byte>, at: nat, w: Word) returns (end: nat)
    requires at + 2 <= out.Length && w != 0 && Sized(w)
    modifies out
    ensures end == at + |Bytes(w)| <= at + 2
    ensures out[..end] == old(out[..at]) + Bytes(w)
    ensures forall i :: at + 2 <= i < out.Length ==> out[i] == old(out[i])
  {
    var v: int := w;
    out[at] := v / 0x100 % 0x100;
    out[at + 1] := v % 0x100;
    end := at + if v / 0x1_0000 == 2 then 2 else 1;
    assert out[..at] == old(out[..at]);
  }

  /** `bump` on the first `o` bytes of the buffer. */
  method BumpInPlace(out: array<byte>, o: nat) returns (r: Option<nat>)
    requires o <= out.Length
    modifies out
    ensures match r
      case None => Bump(old(out[..o])).None?
      case Some(n) => n <= o && Bump(old(out[..o])) == Some(out[..n])
  {
    var last := o;
    while last > 0 && out[last - 1] == 0xFF
      invariant 0 <= last <= o
      invariant LastBumpable(out[..o]) == LastBumpable(out[..last])
    {
      assert out[..last][..last - 1] == out[..last - 1];
      last := last - 1;
    }
    if last == 0 {
      return None;
    }
    assert out[..o][..last - 1] == out[..last - 1];
    out[last - 1] := out[last - 1] as int + 1;
    assert out[..last] == old(out[..last - 1]) + [out[last - 1]];
    r := Some(last);
  }

  method OrdersBelow(u: nat, order: nat, ghost d: Scalar, ghost c: Scalar) returns (below: bool)
    requires u == Packed(d) && order == PackedOrder(Packed(c))
    ensures below <==> d < c
  {
    PackedOrderIsCharOrder(d, c);
    below := PackedOrder(u) < order;
  }

  /** `partition_point`: the characters before the first that is not below `c`. */
  method PartitionPoint(code: CharCode, ghost sp: Spelling, c: Scalar) returns (n: nat)
    requires code.StandsFor(sp)
    ensures n == BelowCount(sp.chars, c)
  {
    hide Spelling.Spell, Encode;
    var order := PackedOrder(Packed(c));
    var lo, hi := 0, code.Count();
    while lo < hi
      invariant 0 <= lo <= hi <= |sp.chars|
      invariant forall i :: 0 <= i < lo ==> sp.chars[i] < c
      invariant forall i :: hi <= i < |sp.chars| ==> sp.chars[i] >= c
    {
      var mid := (lo + hi) / 2;
      AlphabetEntry(code, sp, mid);
      var below := OrdersBelow(code.utf8[mid], order, sp.chars[mid], c);
      if below {
        lo := mid + 1;
      } else {
        hi := mid;
      }
    }
    BelowCountIs(sp.chars, c, lo);
    n := lo;
  }

  lemma TextAtLeast(query: Key)
    ensures |query| <= |Text(query)|
  {
    if query != [] {
      TextAtLeast(query[1..]);
    }
  }

  /** A query's probe, built in a buffer with room for two bytes of code to each of its own. */
  method ProbeInto(code: CharCode, ghost sp: Spelling, query: Key, out: array<byte>) returns (probe: Probe, n: nat)
    requires code.StandsFor(sp) && out.Length >= 2 * |Text(query)|
    modifies out
    ensures n <= out.Length && (probe, out[..n]) == Placed(sp, query)
  {
    hide Encode, Spelling.Spell, Index.Get, Text, Packed, Unpacked;
    TextAtLeast(query);
    var o := 0;
    for i := 0 to |query|
      invariant 0 <= o <= 2 * i
      invariant out[..o] == sp.Code(query[..i])
      invariant forall k :: 0 <= k < i ==> sp.Spell(query[k]) != []
    {
      var c := query[i];
      var w := code.index.Get(c);
      WordSays(code, sp, c);
      CodeSnoc(sp, query, i);
      if w != 0 {
        o := Put(out, o, w);
        continue;
      }
      SpeltPrefixIs(sp, query, i);
      var next := PartitionPoint(code, sp, c);
      if next < code.Count() {
        UnpackedPacked(sp.chars[next]);
        AlphabetEntry(code, sp, next);
        var d := Unpacked(code.utf8[next]) as Scalar;
        SpeltIff(sp, d);
        WordSays(code, sp, d);
        n := Put(out, o, code.index.Get(d));
        return Absent, n;
      }
      var bumped := BumpInPlace(out, o);
      if bumped.Some? {
        return Absent, bumped.value;
      }
      assert out[..0] == [];
      return Last, 0;
    }
    SpeltPrefixIs(sp, query, |query|);
    assert query[..|query|] == query;
    return Exact, o;
  }

  // ----- decoding

  /** `done` before `at` and what follows it make the whole. */
  ghost predicate DecodedSoFar(sp: Spelling, coded: seq<byte>, at: nat, done: Key)
    requires sp.Valid()
  {
    DecodedFrom(sp, coded, 0) == match DecodedFrom(sp, coded, at)
      case None => None
      case Some(rest) => Some(done + rest)
  }

  lemma NothingDecodedYet(sp: Spelling, coded: seq<byte>)
    requires sp.Valid()
    ensures DecodedSoFar(sp, coded, 0, [])
  {
    match DecodedFrom(sp, coded, 0) {
      case None =>
      case Some(rest) => assert [] + rest == rest;
    }
  }

  lemma AllDecoded(sp: Spelling, coded: seq<byte>, done: Key)
    requires sp.Valid() && DecodedSoFar(sp, coded, |coded|, done)
    ensures DecodedFrom(sp, coded, 0) == Some(done)
  {
    assert done + [] == done;
  }

  lemma DecodedOneMore(sp: Spelling, coded: seq<byte>, at: nat, done: Key, c: Scalar, n: nat)
    requires sp.Valid() && at < |coded| && DecodedSoFar(sp, coded, at, done)
    requires CharAt(sp, coded, at) == Some((c, n))
    ensures DecodedSoFar(sp, coded, at + n, done + [c])
    ensures Text(done + [c]) == Text(done) + Encode(c)
  {
    match DecodedFrom(sp, coded, at + n) {
      case None =>
      case Some(rest) => assert done + ([c] + rest) == (done + [c]) + rest;
    }
    FlatConcat(Encode, done, [c]);
    FlatOne(Encode, c);
  }

  /** `out.resize(out.len() + more, 0)`. */
  method Grown(out0: seq<byte>, more: nat) returns (buf: array<byte>)
    ensures fresh(buf) && buf.Length == |out0| + more && buf[..|out0|] == out0
  {
    buf := new byte[|out0| + more](i requires 0 <= i < |out0| + more => if i < |out0| then out0[i] else 0);
  }

  /** What `coded` spells, put behind `out0` four bytes a character, the next starting where this one ended. */
  method DecodeInto(code: CharCode, ghost sp: Spelling, coded: seq<byte>, out0: seq<byte>)
    returns (ok: bool, out: seq<byte>)
    requires code.StandsFor(sp)
    ensures ok <==> DecodedFrom(sp, coded, 0).Some?
    ensures ok ==> out == out0 + Text(DecodedFrom(sp, coded, 0).value)
    ensures out0 <= out
  {
    hide CharAt, Encode;
    LeadsWithinAlphabet(code, sp);
    var buf := Grown(out0, 4 * |coded|);
    var w, at := |out0|, 0;
    ghost var done: Key := [];
    assert buf[..w] == out0 + Text(done);
    NothingDecodedYet(sp, coded);
    while at < |coded|
      invariant 0 <= at <= |coded|
      invariant |out0| <= w <= |out0| + 4 * at
      invariant buf[..w] == out0 + Text(done)
      invariant DecodedSoFar(sp, coded, at, done)
    {
      var found := DecodeOneFresh(code, sp, coded, at, buf, w);
      if found.None? {
        return false, buf[..w];
      }
      ghost var c := CharAt(sp, coded, at).value.0;
      DecodedOneMore(sp, coded, at, done, c, found.value.1);
      assert out0 + Text(done) + Encode(c) == out0 + Text(done + [c]);
      done := done + [c];
      w, at := w + found.value.0, at + found.value.1;
    }
    AllDecoded(sp, coded, done);
    return true, buf[..w];
  }

  /** One character read at `at` of the code and stored at `w`: the bytes it spells, and it took. */
  method DecodeOneFresh(code: CharCode, ghost sp: Spelling, coded: seq<byte>, at: nat, buf: array<byte>, w: nat)
    returns (found: Option<(nat, nat)>)
    requires code.StandsFor(sp)
    requires forall b :: 0 <= b < 256 ==> code.leads[b] / 512 + code.leads[b] % 512 <= |code.utf8|
    requires at < |coded| && w + 4 <= buf.Length
    modifies buf
    ensures found.None? <==> CharAt(sp, coded, at).None?
    ensures found.None? ==> buf[..w] == old(buf[..w])
    ensures found.Some? ==>
      var (c, n) := CharAt(sp, coded, at).value;
      && found.value == (|Encode(c)|, n)
      && buf[..w + |Encode(c)|] == old(buf[..w]) + Encode(c)
  {
    Utf8AtReadsTheCharacter(code, sp, coded, at);
    var found' := code.Utf8At(coded, at);
    if found'.None? {
      return None;
    }
    StoreFour(buf, w, found'.value.0, CharAt(sp, coded, at).value.0);
    found := Some((PackedLen(found'.value.0), found'.value.1));
  }

  /** Four bytes at `w`, of which the character's own are kept. */
  method StoreFour(buf: array<byte>, w: nat, u: nat, ghost c: Scalar)
    requires w + 4 <= buf.Length && u == Packed(c)
    modifies buf
    ensures PackedLen(u) == |Encode(c)|
    ensures buf[..w + |Encode(c)|] == old(buf[..w]) + Encode(c)
    ensures buf[w + 4..] == old(buf[w + 4..])
  {
    hide Packed, ToLe;
    PackedSpells(c);
    var four := ToLe(u, 4);
    buf[w], buf[w + 1], buf[w + 2], buf[w + 3] := four[0], four[1], four[2], four[3];
    assert buf[..w] == old(buf[..w]);
    assert buf[w..w + 4] == four;
    assert buf[..w + |Encode(c)|] == buf[..w] + buf[w..w + 4][..|Encode(c)|];
  }

  lemma Utf8AtUnread(code: CharCode, sp: Spelling, whole: seq<byte>, r: nat, coded: seq<byte>, k: nat)
    requires code.StandsFor(sp) && r < |whole| && k <= |coded| && whole[r..] == coded[k..]
    requires forall b :: 0 <= b < 256 ==> code.leads[b] / 512 + code.leads[b] % 512 <= |code.utf8|
    ensures code.Utf8At(whole, r) == match CharAt(sp, coded, k)
      case None => None
      case Some((c, n)) => Some((Packed(c), n))
  {
    CharAtLocal(sp, whole, r, coded, k);
    Utf8AtReadsTheCharacter(code, sp, whole, r);
  }

  lemma UnreadPast(whole: seq<byte>, from: nat, r: nat, len: nat, coded: seq<byte>, k: nat)
    requires r + len <= |whole| && k + len <= |coded| && whole[r..] == coded[k..]
    requires from <= r + len
    ensures whole[from..][r + len - from..] == coded[k + len..]
  {
    assert whole[from..][r + len - from..] == whole[r + len..] == whole[r..][len..];
    assert coded[k..][len..] == coded[k + len..];
  }

  /** Decoding with no second buffer: this one grown to four times the code, the code at its far end, the
      characters written from its start. After `k` bytes of code at most `4k` are written, so no store
      reaches a byte of code still to be read. */
  method DecodeInPlace(code: CharCode, ghost sp: Spelling, coded: seq<byte>) returns (ok: bool, out: seq<byte>)
    requires code.StandsFor(sp)
    ensures ok <==> DecodedFrom(sp, coded, 0).Some?
    ensures out == if ok then Text(DecodedFrom(sp, coded, 0).value) else []
  {
    var buf := MovedToTop(coded);
    var w;
    ok, w := DecodeUpwards(code, sp, buf, |coded|, coded);
    out := if ok then buf[..w] else [];
  }

  method DecodeUpwards(code: CharCode, ghost sp: Spelling, buf: array<byte>, c: nat, ghost coded: seq<byte>)
    returns (ok: bool, w: nat)
    requires code.StandsFor(sp) && c == |coded|
    requires buf.Length == 4 * |coded| && buf[3 * |coded|..] == coded
    modifies buf
    ensures ok <==> DecodedFrom(sp, coded, 0).Some?
    ensures ok ==> w <= buf.Length && buf[..w] == Text(DecodedFrom(sp, coded, 0).value)
  {
    hide CharAt, Encode;
    LeadsWithinAlphabet(code, sp);
    NothingDecodedYet(sp, coded);
    var r := 3 * c;
    w := 0;
    ghost var done: Key, k := [], 0;
    assert coded[0..] == coded && buf[..0] == [];
    while r < 4 * c
      invariant 0 <= k <= c && r == 3 * c + k && 0 <= w <= 4 * k
      invariant buf[r..] == coded[k..]
      invariant buf[..w] == Text(done)
      invariant DecodedSoFar(sp, coded, k, done)
      decreases c - k
    {
      var found := DecodeOneInPlace(code, sp, buf, r, w, coded, k);
      if found.None? {
        return false, 0;
      }
      DecodedOneMore(sp, coded, k, done, CharAt(sp, coded, k).value.0, found.value.1);
      done := done + [CharAt(sp, coded, k).value.0];
      k := k + found.value.1;
      r, w := r + found.value.1, w + found.value.0;
    }
    AllDecoded(sp, coded, done);
    ok := true;
  }

  /** The buffer grown to four times the code, the code copied to its top. */
  method MovedToTop(coded: seq<byte>) returns (buf: array<byte>)
    ensures fresh(buf) && buf.Length == 4 * |coded|
    ensures buf[3 * |coded|..] == coded
  {
    var c := |coded|;
    buf := new byte[4 * c](i requires 0 <= i < 4 * c => if i < c then coded[i] else 0);
    var top := 3 * c;
    for i := 0 to c
      invariant forall j :: 0 <= j < i ==> buf[top + j] == coded[j]
      invariant forall j :: 0 <= j < top && j < c ==> buf[j] == coded[j]
    {
      buf[top + i] := buf[i];
    }
  }

  /** One character read at `r` and stored at `w`: how many bytes it spells and how many it took. The
      store ends no later than the next codeword begins, so what is still unread is untouched. */
  method DecodeOneInPlace(code: CharCode, ghost sp: Spelling, buf: array<byte>, r: nat, w: nat,
      ghost coded: seq<byte>, ghost k: nat) returns (found: Option<(nat, nat)>)
    requires code.StandsFor(sp)
    requires forall b :: 0 <= b < 256 ==> code.leads[b] / 512 + code.leads[b] % 512 <= |code.utf8|
    requires k < |coded| && r == 3 * |coded| + k && buf.Length == 4 * |coded| && w <= 4 * k
    requires buf[r..] == coded[k..]
    modifies buf
    ensures found.None? <==> CharAt(sp, coded, k).None?
    ensures found.Some? ==>
      var (c, n) := CharAt(sp, coded, k).value;
      && found.value == (|Encode(c)|, n) && k + n <= |coded|
      && buf[r + n..] == coded[k + n..]
      && w + |Encode(c)| <= 4 * (k + n)
      && buf[..w + |Encode(c)|] == old(buf[..w]) + Encode(c)
  {
    hide Encode, Spelling.Valid, Packed;
    Utf8AtUnread(code, sp, buf[..], r, coded, k);
    var at := code.Utf8At(buf[..], r);
    if at.None? {
      return None;
    }
    var (u, len) := at.value;
    assert w + 4 <= r + len;
    UnreadPast(buf[..], w + 4, r, len, coded, k);
    ghost var past := buf[w + 4..];
    assert buf[..][w + 4..] == past;
    StoreFour(buf, w, u, CharAt(sp, coded, k).value.0);
    assert buf[r + len..] == past[r + len - w - 4..];
    found := Some((PackedLen(u), len));
  }

  // ----- storing and loading

  /** The stored form, from the packed alphabet. */
  method WriteTo(code: CharCode, ghost sp: Spelling, out0: seq<byte>) returns (out: seq<byte>)
    requires code.StandsFor(sp)
    ensures out == out0 + Written(sp)
    ensures |out| == |out0| + code.len
  {
    hide Spelling.Spell, Varint;
    out := out0 + [Tag(code.mode)];
    out := out + Varint(code.Count());
    out := out + [|code.firsts| - 1];
    ghost var head := [Tag(sp.mode)] + Varint(|sp.chars|) + [|sp.firsts| - 1];
    assert out == out0 + head;
    for l := 0 to |code.firsts| - 1
      invariant out == out0 + head + WidthBytes(sp.firsts)[..l]
    {
      out := out + [code.firsts[l + 1] - code.firsts[l] - 1];
    }
    assert WidthBytes(sp.firsts)[..|sp.firsts| - 1] == WidthBytes(sp.firsts);
    out := WriteChars(code, sp, out);
    assert out == out0 + (head + WidthBytes(sp.firsts) + Deltas(sp.chars, 0));
  }

  method WriteChars(code: CharCode, ghost sp: Spelling, out0: seq<byte>) returns (out: seq<byte>)
    requires code.StandsFor(sp)
    ensures out == out0 + Deltas(sp.chars, 0)
  {
    hide Spelling.Spell, Varint, Packed, Unpacked;
    out := out0;
    var prev: nat := 0;
    assert sp.chars[0..] == sp.chars;
    for i := 0 to code.Count()
      invariant prev == if i == 0 then 0 else sp.chars[i - 1]
      invariant out + Deltas(sp.chars[i..], prev) == out0 + Deltas(sp.chars, 0)
    {
      AlphabetEntry(code, sp, i);
      UnpackedPacked(sp.chars[i]);
      var c := Unpacked(code.utf8[i]);
      DeltasStep(sp.chars, i, prev, out);
      out := out + Varint(c - prev);
      prev := c;
    }
    assert sp.chars[|sp.chars|..] == [];
  }

  lemma DeltasStep(chars: Key, i: nat, prev: nat, out: seq<byte>)
    requires i < |chars| && prev <= chars[i]
    ensures out + Deltas(chars[i..], prev) == (out + Varint(chars[i] - prev)) + Deltas(chars[i + 1..], chars[i])
  {
    hide Varint;
    assert chars[i..][0] == chars[i] && chars[i..][1..] == chars[i + 1..];
    assert Deltas(chars[i..], prev) == Varint(chars[i] - prev) + Deltas(chars[i + 1..], chars[i]);
  }

  /** Load a stored code: exactly what parses loads. */
  method Read(s: seq<byte>) returns (r: Option<CharCode>)
    ensures r.Some? <==> Parsed(s).Some?
    ensures r.Some? ==> r.value.StandsFor(Parsed(s).value)
  {
    hide Spelling.Valid, CharCode.StandsFor, Spelling.Spell, VarintAt;
    if s == [] || (s[0] != 7 && s[0] != 8) {
      return None;
    }
    var mode := if s[0] == 7 then Seven else Eight;
    var head := VarintAt(s, 1);
    if head.None? {
      return None;
    }
    var (count, at) := head.value;
    if count == 0 || count > LEADS * mode.Page() || at >= |s| {
      return None;
    }
    var leads: nat := s[at];
    if leads == 0 || leads > LEADS || at + 1 + leads > |s| {
      return None;
    }
    var firsts := ReadFirsts(s[at + 1..at + 1 + leads], mode.Page());
    if firsts.None? || firsts.value[|firsts.value| - 1] != count {
      return None;
    }
    var chars := ReadChars(s, at + 1 + leads, count, mode);
    if chars.None? || chars.value.1 != |s| {
      return None;
    }
    var sp := Spelling(mode, chars.value.0, firsts.value);
    ParsedIsValid(s);
    var code := New(sp);
    r := Some(code);
  }

  method ReadFirsts(widths: seq<byte>, page: nat) returns (r: Option<seq<nat>>)
    ensures r == FirstsFrom(widths, 0, page)
    ensures r.Some? ==> r.value != []
  {
    var firsts, sum: nat := [0], 0;
    assert widths[0..] == widths;
    FirstsOnward(FirstsFrom(widths, 0, page));
    for l := 0 to |widths|
      invariant firsts != [] && firsts[|firsts| - 1] == sum
      invariant FirstsFrom(widths, 0, page) == After(firsts[..|firsts| - 1], FirstsFrom(widths[l..], sum, page))
    {
      var w: int := widths[l] as int + 1;
      FirstsStep(widths, l, sum, page);
      if w > page {
        return None;
      }
      ghost var before := firsts[..|firsts| - 1];
      FirstsRegroup(before, sum, FirstsFrom(widths[l + 1..], sum + w, page));
      assert firsts == before + [sum];
      sum := sum + w;
      firsts := firsts + [sum];
      assert firsts[..|firsts| - 1] == before + [sum - w];
    }
    assert widths[|widths|..] == [];
    assert firsts[..|firsts| - 1] + [sum] == firsts;
    r := Some(firsts);
  }

  /** A table's first leads, and what the rest of it reads as. */
  function After(before: seq<nat>, rest: Option<seq<nat>>): Option<seq<nat>> {
    match rest
    case None => None
    case Some(more) => Some(before + more)
  }

  lemma FirstsOnward(rest: Option<seq<nat>>)
    ensures After([], rest) == rest
  {
    if rest.Some? {
      assert [] + rest.value == rest.value;
    }
  }

  lemma FirstsStep(widths: seq<byte>, l: nat, sum: nat, page: nat)
    requires l < |widths|
    ensures FirstsFrom(widths[l..], sum, page)
      == if widths[l] as int + 1 > page then None
         else After([sum], FirstsFrom(widths[l + 1..], sum + widths[l] as int + 1, page))
  {
    assert widths[l..][0] == widths[l] && widths[l..][1..] == widths[l + 1..];
  }

  lemma FirstsRegroup(before: seq<nat>, sum: nat, rest: Option<seq<nat>>)
    ensures After(before, After([sum], rest)) == After(before + [sum], rest)
  {
    if rest.Some? {
      assert before + ([sum] + rest.value) == (before + [sum]) + rest.value;
    }
  }

  /** Characters read, and what the rest of them reads as. */
  function Behind(chars: Key, rest: Option<(Key, nat)>): Option<(Key, nat)> {
    match rest
    case None => None
    case Some((more, end)) => Some((chars + more, end))
  }

  lemma BehindNone(rest: Option<(Key, nat)>)
    ensures Behind([], rest) == rest
  {
    match rest {
      case None =>
      case Some((more, end)) => assert [] + more == more;
    }
  }

  lemma BehindBoth(a: Key, b: Key, rest: Option<(Key, nat)>)
    ensures Behind(a, Behind(b, rest)) == Behind(a + b, rest)
  {
    match rest {
      case None =>
      case Some((more, end)) => assert a + (b + more) == (a + b) + more;
    }
  }

  method ReadChars(s: seq<byte>, start: nat, count: nat, mode: Mode) returns (r: Option<(Key, nat)>)
    ensures r == CharsFrom(s, start, count, 0, true, mode)
  {
    hide VarintAt;
    var chars: Key, prev: nat, at := [], 0, start;
    BehindNone(CharsFrom(s, start, count, 0, true, mode));
    for i := 0 to count
      invariant CharsFrom(s, start, count, 0, true, mode)
        == Behind(chars, CharsFrom(s, at, count - i, prev, i == 0, mode))
    {
      var step := VarintAt(s, at);
      if step.None? {
        return None;
      }
      var (d, end) := step.value;
      if i > 0 && d == 0 {
        return None;
      }
      if !IsScalar(prev + d) || (mode.Eight? && prev + d < 0x80) {
        return None;
      }
      var c := (prev + d) as Scalar;
      BehindBoth(chars, [c], CharsFrom(s, end, count - i - 1, prev + d, false, mode));
      assert CharsFrom(s, at, count - i, prev, i == 0, mode)
        == Behind([c], CharsFrom(s, end, count - i - 1, prev + d, false, mode));
      chars := chars + [c];
      prev := prev + d;
      at := end;
    }
    assert chars + [] == chars;
    r := Some((chars, at));
  }
}
