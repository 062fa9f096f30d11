/** Telling whether bytes are UTF-8, and of what: what `str::from_utf8` is relied on for. */
module Utf8Check {
  import opened Lex
  import opened Utf8
  import opened HighBits
  import opened Wrappers

  /** How many bytes a character's first byte announces, none for a byte that starts no character. */
  function Announced(b: byte): nat {
    if b < 0x80 then 1 else if b < 0xC2 then 0 else if b < 0xE0 then 2 else if b < 0xF0 then 3
    else if b < 0xF5 then 4 else 0
  }

  /** The number the payload bits of `u` spell. */
  function Payload(u: seq<byte>): nat
    requires 1 <= |u| <= 4
  {
    if |u| == 1 then u[0]
    else if |u| == 2 then u[0] as int % 0x20 * 64 + u[1] as int % 64
    else if |u| == 3 then (u[0] as int % 0x10 * 64 + u[1] as int % 64) * 64 + u[2] as int % 64
    else ((u[0] as int % 8 * 64 + u[1] as int % 64) * 64 + u[2] as int % 64) * 64 + u[3] as int % 64
  }

  /** The character at the front of `s`: one whose shortest encoding, and no other, stands there. */
  function FirstChar(s: seq<byte>): Option<Scalar>
    requires s != []
  {
    var n := Announced(s[0]);
    if n == 0 || n > |s| then None
    else
      var c := Payload(s[..n]);
      if IsScalar(c) && Encode(c) == s[..n] then Some(c) else None
  }

  lemma PayloadEncoded(c: Scalar)
    ensures Announced(Encode(c)[0]) == |Encode(c)|
    ensures Payload(Encode(c)) == c
  {
    hide Payload;
    var c0: int := c;
    var c1 := c0 / 64;
    var c2 := c1 / 64;
    assert c0 == c1 * 64 + c0 % 64 && c1 == c2 * 64 + c1 % 64;
    if c0 < 0x80 {
      PayloadOfOne(c0);
    } else if c0 < 0x800 {
      PayloadOfTwo(c1, c0 % 64);
    } else if c0 < 0x1_0000 {
      PayloadOfThree(c2, c1 % 64, c0 % 64);
    } else {
      assert c2 == c2 / 64 * 64 + c2 % 64;
      PayloadOfFour(c2 / 64, c2 % 64, c1 % 64, c0 % 64);
    }
  }

  lemma PayloadOfOne(a: byte)
    ensures Payload([a]) == a
  {
  }

  lemma PayloadOfTwo(a: nat, b: nat)
    requires a < 0x20 && b < 64
    ensures Payload([0xC0 + a, 0x80 + b]) == a * 64 + b
  {
  }

  lemma PayloadOfThree(a: nat, b: nat, c: nat)
    requires a < 0x10 && b < 64 && c < 64
    ensures Payload([0xE0 + a, 0x80 + b, 0x80 + c]) == (a * 64 + b) * 64 + c
  {
    LowSix(b);
    LowSix(c);
  }

  lemma PayloadOfFour(a: nat, b: nat, c: nat, d: nat)
    requires a < 8 && b < 64 && c < 64 && d < 64
    ensures Payload([0xF0 + a, 0x80 + b, 0x80 + c, 0x80 + d]) == ((a * 64 + b) * 64 + c) * 64 + d
  {
    assert (0xF0 + a) % 8 == a;
    LowSix(b);
    LowSix(c);
    LowSix(d);
  }

  lemma LowSix(b: nat)
    requires b < 64
    ensures (0x80 + b) % 64 == b
  {
  }

  /** A character is found exactly where its encoding stands. */
  lemma FirstCharIff(s: seq<byte>, c: Scalar)
    requires s != []
    ensures FirstChar(s) == Some(c) <==> Encode(c) <= s
  {
    hide Encode, Payload, Announced;
    if Encode(c) <= s {
      PayloadEncoded(c);
      assert s[0] == Encode(c)[0] && s[..|Encode(c)|] == Encode(c);
    }
  }

  /** The characters `s` spells, where it is UTF-8. */
  function Characters(s: seq<byte>): Option<Key> {
    if s == [] then Some([])
    else match FirstChar(s)
      case None => None
      case Some(c) =>
        match Characters(s[|Encode(c)|..])
        case None => None
        case Some(rest) => Some([c] + rest)
  }

  predicate IsText(s: seq<byte>) {
    Characters(s).Some?
  }

  /** The characters found are those the bytes are the encoding of: there are some exactly where the
      bytes are UTF-8. */
  lemma {:induction false} CharactersIff(s: seq<byte>, key: Key)
    ensures Characters(s) == Some(key) <==> Text(key) == s
    decreases |s|
  {
    hide Encode, FirstChar;
    if Text(key) == s && key != [] {
      FirstCharIff(s, key[0]);
      var rest := s[|Encode(key[0])|..];
      assert rest == Text(key[1..]);
      CharactersIff(rest, key[1..]);
      assert key == [key[0]] + key[1..];
    }
    if Characters(s) == Some(key) && s != [] {
      var c := FirstChar(s).value;
      FirstCharIff(s, c);
      var rest := s[|Encode(c)|..];
      CharactersIff(rest, key[1..]);
      assert key[0] == c && Text(key) == Encode(c) + rest;
    }
  }

  /** Bytes below 0x80 are UTF-8, each its own character: what lets a pure ASCII key skip the check. */
  lemma {:induction false} AsciiIsText(s: seq<byte>)
    requires forall i :: 0 <= i < |s| ==> s[i] < 0x80
    ensures IsText(s)
  {
    if s != [] {
      var c := s[0] as Scalar;
      assert Encode(c) == [s[0]] && s[..1] == [s[0]];
      FirstCharIff(s, c);
      AsciiIsText(s[1..]);
    }
  }

  /** The check as the arena makes it, ASCII first. */
  function Checked(s: seq<byte>): Option<seq<byte>> {
    if AllAscii(s) || IsText(s) then Some(s) else None
  }

  /** It passes exactly UTF-8. */
  lemma CheckedIff(s: seq<byte>)
    ensures Checked(s) == if IsText(s) then Some(s) else None
    ensures Checked(s).Some? <==> exists key :: Text(key) == s
  {
    AllAsciiIff(s);
    if AllAscii(s) {
      AsciiIsText(s);
    }
    if IsText(s) {
      CharactersIff(s, Characters(s).value);
    }
    if key :| Text(key) == s {
      CharactersIff(s, key);
    }
  }

  // ----- the grammar

  predicate Utf8Tail(b: byte) {
    0x80 <= b <= 0xBF
  }

  /** One character of the grammar of RFC 3629, section 4. */
  predicate OneChar(u: seq<byte>) {
    || (|u| == 1 && u[0] <= 0x7F)
    || (|u| == 2 && 0xC2 <= u[0] <= 0xDF && Utf8Tail(u[1]))
    || (|u| == 3 && u[0] == 0xE0 && 0xA0 <= u[1] <= 0xBF && Utf8Tail(u[2]))
    || (|u| == 3 && (0xE1 <= u[0] <= 0xEC || 0xEE <= u[0] <= 0xEF) && Utf8Tail(u[1]) && Utf8Tail(u[2]))
    || (|u| == 3 && u[0] == 0xED && 0x80 <= u[1] <= 0x9F && Utf8Tail(u[2]))
    || (|u| == 4 && u[0] == 0xF0 && 0x90 <= u[1] <= 0xBF && Utf8Tail(u[2]) && Utf8Tail(u[3]))
    || (|u| == 4 && 0xF1 <= u[0] <= 0xF3 && Utf8Tail(u[1]) && Utf8Tail(u[2]) && Utf8Tail(u[3]))
    || (|u| == 4 && u[0] == 0xF4 && 0x80 <= u[1] <= 0x8F && Utf8Tail(u[2]) && Utf8Tail(u[3]))
  }

  /** A string of it. */
  ghost predicate Octets(s: seq<byte>)
    decreases |s|
  {
    s == [] || exists n :: 1 <= n <= |s| && OneChar(s[..n]) && Octets(s[n..])
  }

  /** A character's encoding is in the grammar, and what is in the grammar is the encoding of the number its
      payload spells. */
  lemma EncodedIsOneChar(c: Scalar)
    ensures OneChar(Encode(c))
  {
  }

  lemma EncodeOfTwo(a: nat, b: nat)
    requires 2 <= a < 0x20 && b < 64
    ensures Encode(a * 64 + b) == [0xC0 + a, 0x80 + b]
  {
  }

  lemma EncodeOfThree(a: nat, b: nat, c: nat)
    requires a < 0x10 && b < 64 && c < 64 && (a > 0 || b >= 0x20) && (a == 0xD ==> b < 0x20)
    ensures IsScalar((a * 64 + b) * 64 + c) && Encode((a * 64 + b) * 64 + c) == [0xE0 + a, 0x80 + b, 0x80 + c]
  {
    var n := (a * 64 + b) * 64 + c;
    assert n / 64 == a * 64 + b && n % 64 == c;
    assert (a * 64 + b) / 64 == a && (a * 64 + b) % 64 == b;
  }

  lemma EncodeOfFour(a: nat, b: nat, c: nat, d: nat)
    requires a < 5 && b < 64 && c < 64 && d < 64 && (a > 0 || b >= 0x10) && (a == 4 ==> b < 0x10)
    ensures IsScalar(((a * 64 + b) * 64 + c) * 64 + d)
    ensures Encode(((a * 64 + b) * 64 + c) * 64 + d) == [0xF0 + a, 0x80 + b, 0x80 + c, 0x80 + d]
  {
    var n := ((a * 64 + b) * 64 + c) * 64 + d;
    assert n / 64 == (a * 64 + b) * 64 + c && n % 64 == d;
    assert n / 64 / 64 == a * 64 + b && n / 64 % 64 == c;
    assert n / 64 / 64 / 64 == a && n / 64 / 64 % 64 == b;
  }

  lemma OneCharIsEncoded(u: seq<byte>)
    requires OneChar(u)
    ensures IsScalar(Payload(u)) && Encode(Payload(u)) == u
  {
    hide Encode, Payload;
    var a: int := u[0];
    if |u| == 1 {
      EncodeOfOne(a);
      assert u == [a];
      PayloadOfOne(a);
    } else if |u| == 2 {
      var b := u[1] as int - 0x80;
      EncodeOfTwo(a - 0xC0, b);
      PayloadOfTwo(a - 0xC0, b);
      assert u == [0xC0 + (a - 0xC0), 0x80 + b];
    } else if |u| == 3 {
      var b, c := u[1] as int - 0x80, u[2] as int - 0x80;
      EncodeOfThree(a - 0xE0, b, c);
      PayloadOfThree(a - 0xE0, b, c);
      assert u == [0xE0 + (a - 0xE0), 0x80 + b, 0x80 + c];
    } else {
      var b, c, d := u[1] as int - 0x80, u[2] as int - 0x80, u[3] as int - 0x80;
      EncodeOfFour(a - 0xF0, b, c, d);
      PayloadOfFour(a - 0xF0, b, c, d);
      assert u == [0xF0 + (a - 0xF0), 0x80 + b, 0x80 + c, 0x80 + d];
    }
  }

  lemma EncodeOfOne(a: nat)
    requires a < 0x80
    ensures Encode(a) == [a]
  {
  }

  /** A character is encoded by what the grammar has for it and by nothing else. */
  lemma EncodedIff(u: seq<byte>)
    ensures OneChar(u) <==> exists c: Scalar :: Encode(c) == u
  {
    hide Encode, Payload, OneChar;
    if OneChar(u) {
      OneCharIsEncoded(u);
    }
    if c: Scalar :| Encode(c) == u {
      EncodedIsOneChar(c);
    }
  }

  /** The check passes exactly the strings of the grammar. */
  lemma {:induction false} TextIsOctets(s: seq<byte>)
    ensures IsText(s) <==> Octets(s)
    decreases |s|
  {
    hide Encode, OneChar, FirstChar;
    if s != [] && IsText(s) {
      var c := FirstChar(s).value;
      FirstCharIff(s, c);
      EncodedIsOneChar(c);
      var n := |Encode(c)|;
      TextIsOctets(s[n..]);
      assert s[..n] == Encode(c) && Octets(s[n..]);
    }
    if s != [] && Octets(s) {
      var n :| 1 <= n <= |s| && OneChar(s[..n]) && Octets(s[n..]);
      EncodedIff(s[..n]);
      var c: Scalar :| Encode(c) == s[..n];
      FirstCharIff(s, c);
      TextIsOctets(s[n..]);
    }
  }

  /** Of all the ways to spell a number in up to four bytes, overlong ones among them, the encoding has the
      fewest. */
  lemma EncodedIsShortest(u: seq<byte>, c: Scalar)
    requires 1 <= |u| <= 4 && Payload(u) == c
    requires match |u|
      case 1 => u[0] < 0x80
      case 2 => 0xC0 <= u[0] < 0xE0
      case 3 => 0xE0 <= u[0] < 0xF0
      case _ => 0xF0 <= u[0] < 0xF8
    ensures |Encode(c)| <= |u|
  {
  }
}
