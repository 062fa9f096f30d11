/** Words instead of bytes: the bytes past ASCII counted with one multiply to a word, and their absence told
    from overlapping words. Both are shown to say what a walk over the bytes one at a time does. */
module HighBits {
  import opened Lex
  import opened Bits

  /** `x & y`. */
  function And(x: nat, y: nat): (z: nat)
    ensures z <= x && z <= y
  {
    if x == 0 || y == 0 then 0 else (if x % 2 == 1 && y % 2 == 1 then 1 else 0) + 2 * And(x / 2, y / 2)
  }

  /** How many of `s` are past ASCII, a byte at a time. */
  function High(s: seq<byte>): (n: nat)
    ensures n <= |s|
    ensures n == 0 <==> forall i :: 0 <= i < |s| ==> s[i] < 0x80
  {
    if s == [] then 0 else High(s[..|s| - 1]) + if s[|s| - 1] >= 0x80 then 1 else 0
  }

  lemma {:induction false} HighConcat(a: seq<byte>, b: seq<byte>)
    ensures High(a + b) == High(a) + High(b)
  {
    if b == [] {
      assert a + b == a;
    } else {
      assert (a + b)[..|a + b| - 1] == a + b[..|b| - 1];
      HighConcat(a, b[..|b| - 1]);
    }
  }

  /** `k` bytes of `v`. */
  function Repeat(v: byte, k: nat): (s: seq<byte>)
    ensures |s| == k
  {
    if k == 0 then [] else [v] + Repeat(v, k - 1)
  }

  /** The top bit of each byte. */
  function Tops(s: seq<byte>): (t: seq<byte>)
    ensures |t| == |s| && forall i :: 0 <= i < |s| ==> t[i] == s[i] / 0x80
  {
    if s == [] then [] else [s[0] as int / 0x80] + Tops(s[1..])
  }

  // ----- picking out the top bits

  /** A mask whose low bits are clear picks from what lies above them. */
  lemma {:induction false} AndAbove(x: nat, m: nat, n: nat)
    ensures And(x, Shl(m, n)) == Shl(And(Shr(x, n), m), n)
  {
    if n > 0 {
      AndAbove(x / 2, m, n - 1);
      assert Shl(m, n) / 2 == Shl(m, n - 1);
    }
  }

  lemma SevenShifted(x: nat)
    ensures Shl(x, 7) == 128 * x && Shr(x, 7) == x / 128
  {
    FourBits(x, x, 3);
    TwoBits(x, x / 16, 1);
    assert Shl(x, 1) == 2 * x && Shr(x / 16 / 4, 1) == x / 16 / 4 / 2;
  }

  lemma AndOfTop(x: nat, m: nat)
    ensures And(x, 128 * m) == 128 * And(x / 128, m)
  {
    hide And;
    AndAbove(x, m, 7);
    SevenShifted(m);
    SevenShifted(x);
    SevenShifted(And(x / 128, m));
  }

  lemma AndOdd(top: nat, rest: nat, m: nat)
    requires top <= 1
    ensures And(top + 2 * rest, 1 + 2 * m) == top + 2 * And(rest, m)
  {
  }

  lemma ValCons(v: byte, s: seq<byte>)
    ensures Val([v] + s) == v as int + 256 * Val(s)
  {
    assert ([v] + s)[1..] == s;
  }

  /** `(w >> 7) & ONES`, whatever lies above: a one where a byte is past ASCII. */
  lemma {:induction false} TopsPicked(s: seq<byte>)
    ensures And(Val(s) / 128, Val(Repeat(1, |s|))) == Val(Tops(s))
  {
    if s != [] {
      var rest, ones := Val(s[1..]), Val(Repeat(1, |s| - 1));
      TopsPicked(s[1..]);
      ValCons(1, Repeat(1, |s| - 1));
      ValCons(s[0] as int / 0x80, Tops(s[1..]));
      OnePicked(s[0], rest, ones);
    }
  }

  lemma OnePicked(b: byte, rest: nat, ones: nat)
    ensures And((b as int + 256 * rest) / 128, 1 + 256 * ones) == b as int / 128 + 256 * And(rest / 128, ones)
  {
    hide And;
    assert (b as int + 256 * rest) / 128 == b as int / 128 + 2 * rest;
    AndOdd(b as int / 128, rest, 128 * ones);
    AndOfTop(rest, ones);
  }

  // ----- the multiply

  /** A number of eight bytes, spelled out. */
  lemma EightSpelled(t: seq<byte>)
    requires |t| == 8
    ensures Val(t) == t[0] as int + 0x100 * t[1] as int + 0x1_0000 * t[2] as int + 0x100_0000 * t[3] as int
      + 0x1_0000_0000 * t[4] as int + 0x100_0000_0000 * t[5] as int + 0x1_0000_0000_0000 * t[6] as int
      + 0x100_0000_0000_0000 * t[7] as int
  {
    FourSpelled(t[..4]);
    FourSpelled(t[4..]);
    assert t == t[..4] + t[4..];
    ValConcat(t[..4], t[4..]);
    WordPowers();
    ShlIsTimes(Val(t[4..]));
  }

  lemma ShlIsTimes(x: nat)
    ensures Shl(x, 32) == 0x1_0000_0000 * x
  {
    hide Shl, Shr, Low, Pow2;
    ShlNone(x);
    ByteShifts(x, 0, 0);
    ByteShifts(x, 0, 8);
    ByteShifts(x, 0, 16);
    ByteShifts(x, 0, 24);
  }

  lemma FourSpelled(t: seq<byte>)
    requires |t| == 4
    ensures Val(t) == t[0] as int + 0x100 * t[1] as int + 0x1_0000 * t[2] as int + 0x100_0000 * t[3] as int
  {
    var a, b, c := t[1..], t[2..], t[3..];
    assert a[1..] == b && b[1..] == c && c[1..] == [];
    assert a[0] == t[1] && b[0] == t[2] && c[0] == t[3];
    assert Val(c) == c[0] as int && Val(b) == b[0] as int + 256 * Val(c) && Val(a) == a[0] as int + 256 * Val(b);
  }

  /** Ones multiplied by a one in every byte: the running sums, none past a byte, the last the total. */
  lemma SumInTopByte(a: nat, b: nat, c: nat, d: nat, e: nat, f: nat, g: nat, h: nat)
    requires a <= 1 && b <= 1 && c <= 1 && d <= 1 && e <= 1 && f <= 1 && g <= 1 && h <= 1
    ensures var t := a + 0x100 * b + 0x1_0000 * c + 0x100_0000 * d + 0x1_0000_0000 * e + 0x100_0000_0000 * f
                     + 0x1_0000_0000_0000 * g + 0x100_0000_0000_0000 * h;
      t * 0x0101_0101_0101_0101 % 0x1_0000_0000_0000_0000 / 0x100_0000_0000_0000 == a + b + c + d + e + f + g + h
  {
    var t := a + 0x100 * b + 0x1_0000 * c + 0x100_0000 * d + 0x1_0000_0000 * e + 0x100_0000_0000 * f
             + 0x1_0000_0000_0000 * g + 0x100_0000_0000_0000 * h;
    var low := a + 0x100 * (a + b) + 0x1_0000 * (a + b + c) + 0x100_0000 * (a + b + c + d)
               + 0x1_0000_0000 * (a + b + c + d + e) + 0x100_0000_0000 * (a + b + c + d + e + f)
               + 0x1_0000_0000_0000 * (a + b + c + d + e + f + g);
    var high := (b + c + d + e + f + g + h) + 0x100 * (c + d + e + f + g + h) + 0x1_0000 * (d + e + f + g + h)
                + 0x100_0000 * (e + f + g + h) + 0x1_0000_0000 * (f + g + h) + 0x100_0000_0000 * (g + h)
                + 0x1_0000_0000_0000 * h;
    TopByte(low, a + b + c + d + e + f + g + h, high, t * 0x0101_0101_0101_0101);
  }

  lemma TopByte(low: nat, sum: nat, high: nat, product: nat)
    requires low < 0x100_0000_0000_0000 && sum <= 8
    requires product == low + 0x100_0000_0000_0000 * sum + 0x1_0000_0000_0000_0000 * high
    ensures product % 0x1_0000_0000_0000_0000 / 0x100_0000_0000_0000 == sum
  {
    assert product % 0x1_0000_0000_0000_0000 == low + 0x100_0000_0000_0000 * sum;
  }

  /** Leave of each byte only its sign, as a one or a zero; a wrapping product then adds the eight up. */
  function Count(w: nat): nat {
    And(w / 128, 0x0101_0101_0101_0101) * 0x0101_0101_0101_0101 % 0x1_0000_0000_0000_0000 / 0x100_0000_0000_0000
  }

  lemma OnesSpelled()
    ensures Val(Repeat(1, 8)) == 0x0101_0101_0101_0101
  {
    var r := Repeat(1, 8);
    assert r == [1, 1, 1, 1, 1, 1, 1, 1];
    EightSpelled(r);
  }

  lemma EightTops(s: seq<byte>)
    requires |s| == 8
    ensures var t := Tops(s);
      High(s) == t[0] as int + t[1] as int + t[2] as int + t[3] as int + t[4] as int + t[5] as int + t[6] as int + t[7] as int
  {
    HighOfFour(s[..4]);
    HighOfFour(s[4..]);
    assert s == s[..4] + s[4..];
    HighConcat(s[..4], s[4..]);
  }

  lemma HighOfFour(s: seq<byte>)
    requires |s| == 4
    ensures High(s) == s[0] as int / 0x80 + s[1] as int / 0x80 + s[2] as int / 0x80 + s[3] as int / 0x80
  {
    var a, b, c := s[..3], s[..2], s[..1];
    assert a[..2] == b && b[..1] == c && c[..0] == [];
    assert High(c) == s[0] as int / 0x80 && High(b) == High(c) + s[1] as int / 0x80 && High(a) == High(b) + s[2] as int / 0x80;
  }

  /** A word's count is of its eight bytes. */
  lemma CountIsHigh(s: seq<byte>)
    requires |s| == 8
    ensures Count(Val(s)) == High(s)
  {
    hide Val, And;
    var t := Tops(s);
    TopsPicked(s);
    OnesSpelled();
    EightSpelled(t);
    EightTops(s);
    SumInTopByte(t[0], t[1], t[2], t[3], t[4], t[5], t[6], t[7]);
  }

  /** Fewer bytes than a word, folded in one after another: the same bytes, the last lowest. */
  function Folded(s: seq<byte>): nat {
    if s == [] then 0 else Or(Shl(Folded(s[..|s| - 1]), 8), s[|s| - 1])
  }

  function Reversed(s: seq<byte>): (r: seq<byte>)
    ensures |r| == |s|
  {
    if s == [] then [] else [s[|s| - 1]] + Reversed(s[..|s| - 1])
  }

  lemma {:induction false} OrCommutes(x: nat, y: nat)
    ensures Or(x, y) == Or(y, x)
  {
    if x != 0 && y != 0 {
      OrCommutes(x / 2, y / 2);
    }
  }

  lemma {:induction false} FoldedIsReversed(s: seq<byte>)
    ensures Folded(s) == Val(Reversed(s))
  {
    if s != [] {
      var before, last: nat := Folded(s[..|s| - 1]), s[|s| - 1];
      FoldedIsReversed(s[..|s| - 1]);
      OrCommutes(Shl(before, 8), last);
      assert Pow2(8) == 256;
      OrAbove(last, before, 8);
      ByteShifts(before, 0, 0);
      assert Shl(before, 0) == before;
      ValCons(s[|s| - 1], Reversed(s[..|s| - 1]));
    }
  }

  lemma {:induction false} HighReversed(s: seq<byte>)
    ensures High(Reversed(s)) == High(s)
  {
    if s != [] {
      HighReversed(s[..|s| - 1]);
      HighConcat([s[|s| - 1]], Reversed(s[..|s| - 1]));
      assert [s[|s| - 1]][..0] == [];
    }
  }

  lemma {:induction false} ZerosAbove(s: seq<byte>, k: nat)
    ensures Val(s + Repeat(0, k)) == Val(s) && High(s + Repeat(0, k)) == High(s)
  {
    ZerosCount(k);
    ValConcat(s, Repeat(0, k));
    HighConcat(s, Repeat(0, k));
  }

  lemma {:induction false} ZerosCount(k: nat)
    ensures Val(Repeat(0, k)) == 0 && High(Repeat(0, k)) == 0
  {
    if k > 0 {
      ZerosCount(k - 1);
      ValCons(0, Repeat(0, k - 1));
    }
  }

  lemma TailCount(s: seq<byte>)
    requires |s| < 8
    ensures Count(Folded(s)) == High(s)
  {
    hide Count, High, Reversed, Repeat, Folded, Val;
    var r := Reversed(s);
    FoldedIsReversed(s);
    HighReversed(s);
    ZerosAbove(r, 8 - |s|);
    CountIsHigh(r + Repeat(0, 8 - |s|));
  }

  /** The count by words, with what is left past the last one folded into a word of its own. */
  method HighBytes(key: seq<byte>) returns (n: nat)
    ensures n == High(key)
  {
    hide Count, High, Val, Or;
    n := 0;
    var at := 0;
    NothingHigh(key);
    while |key| - at >= 8
      invariant 0 <= at <= |key| && n == High(key[..at])
    {
      CountIsHigh(key[at..at + 8]);
      assert key[..at + 8] == key[..at] + key[at..at + 8];
      HighConcat(key[..at], key[at..at + 8]);
      n := n + Count(Val(key[at..at + 8]));
      at := at + 8;
    }
    assert key == key[..at] + key[at..];
    HighConcat(key[..at], key[at..]);
    TailCount(key[at..]);
    var tail: nat := 0;
    for k := at to |key|
      invariant tail == Folded(key[at..k])
    {
      assert key[at..k + 1][..k - at] == key[at..k];
      tail := Or(Shl(tail, 8), key[k]);
    }
    assert key[at..|key|] == key[at..];
    n := n + Count(tail);
  }

  lemma NothingHigh(key: seq<byte>)
    ensures High(key[..0]) == 0
  {
  }

  // ----- no byte past ASCII

  const HIGH := 0x8080_8080_8080_8080

  /** The eight and the four bytes at `at`. */
  function Eight(b: seq<byte>, at: nat): nat
    requires at + 8 <= |b|
  {
    Val(b[at..at + 8])
  }

  function Four(b: seq<byte>, at: nat): nat
    requires at + 4 <= |b|
  {
    Val(b[at..at + 4])
  }

  /** The whole sixteens of `b` from `at` on, or-ed into `any`. */
  function Sixteens(b: seq<byte>, at: nat, any: nat): nat
    requires at <= |b|
    decreases |b| - at
  {
    if |b| - at < 16 then any else Sixteens(b, at + 16, Or(Or(any, Eight(b, at)), Eight(b, at + 8)))
  }

  /** Whether no byte is past ASCII: the last word read backs up over the one before rather than stop short. */
  function AllAscii(b: seq<byte>): bool {
    var n := |b|;
    var any :=
      if n >= 16 then Sixteens(b, 0, Or(Eight(b, n - 16), Eight(b, n - 8)))
      else if n >= 8 then Or(Eight(b, 0), Eight(b, n - 8))
      else if n >= 4 then Or(Four(b, 0), Four(b, n - 4))
      else if n > 0 then Or(Or(b[0], b[n / 2]), b[n - 1])
      else 0;
    And(any, HIGH) == 0
  }

  lemma {:induction false} AndOfOr(x: nat, y: nat, m: nat)
    ensures And(Or(x, y), m) == 0 <==> And(x, m) == 0 && And(y, m) == 0
  {
    if x != 0 && y != 0 && m != 0 {
      AndOfOr(x / 2, y / 2, m / 2);
      assert Or(x, y) / 2 == Or(x / 2, y / 2);
    }
  }

  /** A word keeps clear of the mask exactly where each of its bytes is ASCII. */
  lemma {:induction false} MaskedClear(s: seq<byte>, k: nat)
    requires |s| <= k
    ensures And(Val(s), Val(Repeat(0x80, k))) == 0 <==> High(s) == 0
  {
    if s != [] {
      MaskedClear(s[1..], k - 1);
      ValCons(0x80, Repeat(0x80, k - 1));
      assert s == [s[0]] + s[1..];
      HighConcat([s[0]], s[1..]);
      assert [s[0]][..0] == [];
      ByteMasked(s[0], Val(s[1..]), Val(Repeat(0x80, k - 1)));
    }
  }

  lemma ByteMasked(b: byte, rest: nat, mask: nat)
    ensures And(b as int + 256 * rest, 0x80 + 256 * mask) == 0 <==> b < 0x80 && And(rest, mask) == 0
  {
    hide And;
    var x: nat := b as int + 256 * rest;
    AndOfTop(x, 1 + 2 * mask);
    AndOdd(b as int / 128, rest, mask);
    assert x / 128 == b as int / 128 + 2 * rest;
  }

  lemma HighSpelled()
    ensures Val(Repeat(0x80, 8)) == HIGH
  {
    var r := Repeat(0x80, 8);
    assert r == [0x80, 0x80, 0x80, 0x80, 0x80, 0x80, 0x80, 0x80];
    EightSpelled(r);
  }

  /** Whether the bytes of `b` from `from` to `to` are ASCII. */
  predicate Clear(b: seq<byte>, from: nat, to: nat)
    requires to <= |b|
  {
    forall i :: from <= i < to ==> b[i] < 0x80
  }

  lemma WordClear(b: seq<byte>, at: nat, w: nat)
    requires at + w <= |b| && w <= 8
    ensures And(Val(b[at..at + w]), HIGH) == 0 <==> Clear(b, at, at + w)
  {
    hide And, Val;
    HighSpelled();
    MaskedClear(b[at..at + w], 8);
    assert forall i :: at <= i < at + w ==> b[i] == b[at..at + w][i - at];
  }

  lemma {:induction false} SixteensClear(b: seq<byte>, at: nat, any: nat)
    requires at <= |b|
    ensures And(Sixteens(b, at, any), HIGH) == 0
      <==> And(any, HIGH) == 0 && Clear(b, at, |b| - (|b| - at) % 16)
    decreases |b| - at
  {
    hide And, Or, Eight;
    if |b| - at >= 16 {
      var lo := Or(any, Eight(b, at));
      EightClear(b, at);
      EightClear(b, at + 8);
      AndOfOr(any, Eight(b, at), HIGH);
      AndOfOr(lo, Eight(b, at + 8), HIGH);
      SixteensClear(b, at + 16, Or(lo, Eight(b, at + 8)));
    }
  }

  lemma EightClear(b: seq<byte>, at: nat)
    requires at + 8 <= |b|
    ensures And(Eight(b, at), HIGH) == 0 <==> Clear(b, at, at + 8)
  {
    WordClear(b, at, 8);
  }

  lemma FourClear(b: seq<byte>, at: nat)
    requires at + 4 <= |b|
    ensures And(Four(b, at), HIGH) == 0 <==> Clear(b, at, at + 4)
  {
    WordClear(b, at, 4);
  }

  lemma OneClear(b: seq<byte>, at: nat)
    requires at < |b|
    ensures And(b[at], HIGH) == 0 <==> b[at] < 0x80
  {
    WordClear(b, at, 1);
    assert b[at..at + 1] == [b[at]];
    ValCons(b[at], []);
    assert Val([]) == 0;
  }

  /** It tells exactly whether every byte is ASCII, at every length. */
  lemma AllAsciiIff(b: seq<byte>)
    ensures AllAscii(b) <==> forall i :: 0 <= i < |b| ==> b[i] < 0x80
  {
    hide And, Or, Eight, Four, Sixteens;
    var n := |b|;
    if n >= 16 {
      EightClear(b, n - 16);
      EightClear(b, n - 8);
      AndOfOr(Eight(b, n - 16), Eight(b, n - 8), HIGH);
      SixteensClear(b, 0, Or(Eight(b, n - 16), Eight(b, n - 8)));
    } else if n >= 8 {
      EightClear(b, 0);
      EightClear(b, n - 8);
      AndOfOr(Eight(b, 0), Eight(b, n - 8), HIGH);
    } else if n >= 4 {
      FourClear(b, 0);
      FourClear(b, n - 4);
      AndOfOr(Four(b, 0), Four(b, n - 4), HIGH);
    } else if n > 0 {
      OneClear(b, 0);
      OneClear(b, n / 2);
      OneClear(b, n - 1);
      AndOfOr(b[0], b[n / 2], HIGH);
      AndOfOr(Or(b[0], b[n / 2]), b[n - 1], HIGH);
    } else {
      NothingAnd();
    }
  }

  lemma NothingAnd()
    ensures And(0, HIGH) == 0
  {
  }
}
