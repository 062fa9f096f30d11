/** UTF-8 (RFC 3629, section 3), whose byte order is character order (section 1), and the four-byte
    packed form the character code keeps its alphabet in. */
module Utf8 {
  import opened Lex
  import opened Bits

  /** The bytes of one character: six bits a continuation byte, the rest in the lead. */
  function Encode(c: Scalar): (u: seq<byte>)
    ensures 1 <= |u| <= 4
  {
    var c0: int := c;
    var c1 := c0 / 64;
    var c2 := c1 / 64;
    var c3 := c2 / 64;
    if c0 < 0x80 then [c0 as byte]
    else if c0 < 0x800 then [0xC0 + c1, 0x80 + c0 % 64]
    else if c0 < 0x1_0000 then [0xE0 + c2, 0x80 + c1 % 64, 0x80 + c0 % 64]
    else [0xF0 + c3, 0x80 + c2 % 64, 0x80 + c1 % 64, 0x80 + c0 % 64]
  }

  /** The bytes of a string. */
  function Text(key: Key): seq<byte> {
    Flat(Encode, key)
  }

  predicate Continuation(b: byte) {
    0x80 <= b < 0xC0
  }

  ghost const ALL: iset<Scalar> := iset c: Scalar | true

  /** Leads and continuation bytes are disjoint: only a character's first byte is not a continuation. */
  lemma OnlyTheFirstByteLeads(c: Scalar, i: nat)
    requires i < |Encode(c)|
    ensures Continuation(Encode(c)[i]) <==> i > 0
  {
  }

  lemma BelowByte(u: seq<int>, v: seq<int>, i: nat)
    requires i < |u| && i < |v| && u[..i] == v[..i] && u[i] < v[i]
    ensures Below(u, v)
  {
    if i > 0 {
      assert u[0] == u[..i][0] == v[..i][0] == v[0];
      assert u[1..][..i - 1] == u[..i][1..] == v[..i][1..] == v[1..][..i - 1];
      BelowByte(u[1..], v[1..], i - 1);
    }
  }

  /** Byte order is code point order, and no character's bytes are a prefix of another's. */
  lemma LeadsAscend(c: Scalar, d: Scalar)
    requires c < d
    ensures Encode(c)[0] < Encode(d)[0] || (Encode(c)[0] == Encode(d)[0] && |Encode(c)| == |Encode(d)| > 1)
  {
  }

  lemma TailsAscend(c: Scalar, d: Scalar)
    requires c < d && Encode(c)[0] == Encode(d)[0] && |Encode(c)| == |Encode(d)| > 1
    ensures Below(Encode(c), Encode(d))
  {
    hide Below;
    var u, v := Encode(c), Encode(d);
    var c0: int, d0: int := c, d;
    if |u| == 2 {
      BelowByte(u, v, 1);
    } else if |u| == 3 {
      BelowByte(u, v, if c0 / 64 < d0 / 64 then 1 else 2);
    } else {
      BelowByte(u, v, if c0 / 64 / 64 < d0 / 64 / 64 then 1 else if c0 / 64 < d0 / 64 then 2 else 3);
    }
  }

  lemma EncodeAscends(c: Scalar, d: Scalar)
    requires c < d
    ensures Below(Encode(c), Encode(d))
  {
    hide Encode;
    LeadsAscend(c, d);
    if Encode(c)[0] < Encode(d)[0] {
      BelowByte(Encode(c), Encode(d), 0);
    } else {
      TailsAscend(c, d);
    }
  }

  lemma EncodeOrdered()
    ensures Ordered(Encode, ALL)
  {
    forall c <- ALL, d <- ALL | c < d
      ensures Below(Encode(c), Encode(d))
    {
      EncodeAscends(c, d);
    }
  }

  /** Strings compare as their characters do, which is why a key can be reasoned about as either. */
  lemma TextKeepsOrder(a: Key, b: Key)
    ensures Less(Text(a), Text(b)) <==> Less(a, b)
    ensures Text(a) == Text(b) <==> a == b
    ensures Text(a) <= Text(b) <==> a <= b
  {
    EncodeOrdered();
    OrderedCodeKeepsOrder(Encode, ALL, a, b);
  }

  // ----- the packed form

  function Pad(u: seq<byte>): (p: seq<byte>)
    requires |u| <= 4
    ensures |p| == 4 && p[..|u|] == u
    ensures forall i :: |u| <= i < 4 ==> p[i] == 0
  {
    u + seq(4 - |u|, _ => 0)
  }

  /** A character's encoding padded with zeros to a 32-bit word, its first byte the lowest. */
  function Packed(c: Scalar): nat {
    Val(Pad(Encode(c)))
  }

  /** The encoding's length, told from the low byte alone. */
  function PackedLen(w: nat): (n: nat)
    ensures 1 <= n <= 8
  {
    var b := w % 0x100;
    if b < 0xC0 then 1 else if b < 0xE0 then 2 else if b < 0xF0 then 3 else if b < 0xF8 then 4
    else if b < 0xFC then 5 else if b < 0xFE then 6 else if b < 0xFF then 7 else 8
  }

  /** Four bytes read as a number from the first, the most significant. */
  function BigEndian(p: seq<byte>): nat
    requires |p| == 4
  {
    0x100_0000 * (p[0] as int) + 0x1_0000 * (p[1] as int) + 0x100 * (p[2] as int) + (p[3] as int)
  }

  /** The word with its bytes reversed, which orders as the character does. */
  function PackedOrder(w: nat): nat {
    BigEndian(ToLe(w, 4))
  }

  /** A packed character's four stored bytes begin with its UTF-8, and its length says where that ends. */
  lemma PackedSpells(c: Scalar)
    ensures ToLe(Packed(c), 4) == Pad(Encode(c))
    ensures PackedLen(Packed(c)) == |Encode(c)|
    ensures ToLe(Packed(c), 4)[..PackedLen(Packed(c))] == Encode(c)
  {
    var p := Pad(Encode(c));
    ToLeVal(p);
    var lead: int := p[0];
    assert Packed(c) % 256 == lead;
    assert p[0] == p[..|Encode(c)|][0] == Encode(c)[0];
  }

  /** The character a packed word was made of. */
  function Unpacked(w: nat): nat {
    var p := ToLe(w, 4);
    var b0: int, b1: int, b2: int, b3: int := p[0], p[1], p[2], p[3];
    match PackedLen(w)
    case 1 => b0
    case 2 => (b0 % 32) * 64 + b1 % 64
    case 3 => ((b0 % 16) * 64 + b1 % 64) * 64 + b2 % 64
    case _ => (((b0 % 8) * 64 + b1 % 64) * 64 + b2 % 64) * 64 + b3 % 64
  }

  lemma UnpackedPacked(c: Scalar)
    ensures Unpacked(Packed(c)) == c
  {
    PackedSpells(c);
    var p := ToLe(Packed(c), 4);
    assert forall i :: 0 <= i < |Encode(c)| ==> p[i] == p[..|Encode(c)|][i] == Encode(c)[i];
    DigitsAddUp(c);
  }

  lemma DigitsAddUp(c: Scalar)
    ensures var u, c0 := Encode(c), c as int;
      match |u|
      case 1 => u[0] == c0
      case 2 => (u[0] as int % 32) * 64 + u[1] as int % 64 == c0
      case 3 => ((u[0] as int % 16) * 64 + u[1] as int % 64) * 64 + u[2] as int % 64 == c0
      case _ => (((u[0] as int % 8) * 64 + u[1] as int % 64) * 64 + u[2] as int % 64) * 64 + u[3] as int % 64 == c0
  {
    var c0: int := c;
    var c1 := c0 / 64;
    var c2 := c1 / 64;
    var c3 := c2 / 64;
    SixLowBits(c0 % 64);
    SixLowBits(c1 % 64);
    SixLowBits(c2 % 64);
    if c0 < 0x80 {
    } else if c0 < 0x800 {
      LeadBits(c1, 0xC0, 32);
    } else if c0 < 0x1_0000 {
      LeadBits(c2, 0xE0, 16);
    } else {
      LeadBits(c3, 0xF0, 8);
    }
  }

  lemma SixLowBits(x: nat)
    requires x < 64
    ensures (0x80 + x) % 64 == x
  {
  }

  lemma LeadBits(x: nat, mark: nat, m: nat)
    requires (mark == 0xC0 && m == 32) || (mark == 0xE0 && m == 16) || (mark == 0xF0 && m == 8)
    requires x < m
    ensures (mark + x) % m == x
  {
  }

  /** The packed order is the order of the characters, padding and all. */
  lemma PackedOrderIsCharOrder(c: Scalar, d: Scalar)
    ensures PackedOrder(Packed(c)) < PackedOrder(Packed(d)) <==> c < d
  {
    if c < d {
      PackedOrderAscends(c, d);
    } else if d < c {
      PackedOrderAscends(d, c);
    }
  }

  lemma PackedOrderAscends(c: Scalar, d: Scalar)
    requires c < d
    ensures PackedOrder(Packed(c)) < PackedOrder(Packed(d))
  {
    PackedSpells(c);
    PackedSpells(d);
    EncodeAscends(c, d);
    BelowPadded(Encode(c), Encode(d));
  }

  lemma BelowPadded(u: seq<byte>, v: seq<byte>)
    requires |u| <= 4 && |v| <= 4 && Below(u, v)
    ensures BigEndian(Pad(u)) < BigEndian(Pad(v))
  {
    var p, q := Pad(u), Pad(v);
    assert forall i :: 0 <= i < |u| ==> p[i] == p[..|u|][i] == u[i];
    assert forall i :: 0 <= i < |v| ==> q[i] == q[..|v|][i] == v[i];
    var k := FirstDifference(u, v);
    assert p[k] == u[k] && q[k] == v[k];
    assert forall i :: 0 <= i < k ==> p[i] == u[i] == v[i] == q[i];
    assert k == 0 || k == 1 || k == 2 || k == 3;
  }

  lemma FirstDifference(u: seq<int>, v: seq<int>) returns (k: nat)
    requires Below(u, v)
    ensures k < |u| && k < |v| && u[k] < v[k] && forall i :: 0 <= i < k ==> u[i] == v[i]
  {
    if u[0] < v[0] {
      k := 0;
    } else {
      k := FirstDifference(u[1..], v[1..]);
      assert forall i :: 0 < i < k + 1 ==> u[i] == u[1..][i - 1] == v[1..][i - 1] == v[i];
      k := k + 1;
    }
  }
}
