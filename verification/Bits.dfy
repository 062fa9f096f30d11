/** Shifts, masks and bitwise or on natural numbers, a bit at a time, and little-endian byte strings as
    numbers. Defined by recursion on the bits so that proofs about packed tables stay linear: a shift
    is repeated doubling, a field the low bits of what is left after a shift, and `n * k` a sum. A
    stretch of bytes is then a field of the number the whole string spells. */
module Bits {
  import opened Lex

  function Pow2(n: nat): (p: nat)
    ensures p >= 1
  {
    if n == 0 then 1 else 2 * Pow2(n - 1)
  }

  /** `x << n`. */
  function Shl(x: nat, n: nat): (y: nat)
    ensures x == 0 ==> y == 0
  {
    if n == 0 then x else 2 * Shl(x, n - 1)
  }

  /** `x >> n`. */
  function Shr(x: nat, n: nat): (y: nat)
    ensures y <= x
  {
    if n == 0 then x else Shr(x / 2, n - 1)
  }

  /** The low `n` bits of `x`: `x & ((1 << n) - 1)`. */
  function Low(x: nat, n: nat): (y: nat)
    ensures y < Pow2(n) && y <= x
  {
    if n == 0 then 0 else x % 2 + 2 * Low(x / 2, n - 1)
  }

  /** The `width` bits of `x` from bit `at` up: `(x >> at) & mask`. */
  function Field(x: nat, at: nat, width: nat): (f: nat)
    ensures f < Pow2(width)
  {
    Low(Shr(x, at), width)
  }

  /** Bits in `v`: a word's width less its leading zeros. */
  function BitLength(v: nat): nat {
    if v == 0 then 0 else 1 + BitLength(v / 2)
  }

  /** `x | y`. */
  function Or(x: nat, y: nat): (z: nat) {
    if x == 0 then y
    else if y == 0 then x
    else (if x % 2 == 1 || y % 2 == 1 then 1 else 0) + 2 * Or(x / 2, y / 2)
  }

  // ----- products

  /** `n * k`, added up so that proofs about it stay linear: where item `n` of `k` bits or bytes starts. */
  function Times(n: nat, k: nat): nat {
    if n == 0 then 0 else k + Times(n - 1, k)
  }

  lemma {:induction false} MulMonotone(a: int, b: int, k: nat)
    requires a <= b
    ensures a * k <= b * k
  {
    if k > 0 {
      MulMonotone(a, b, k - 1);
    }
  }

  lemma {:induction false} TimesIsProduct(n: nat, k: nat)
    ensures Times(n, k) == n * k
  {
    if n > 0 {
      TimesIsProduct(n - 1, k);
      assert n * k == k + (n - 1) * k;
    }
  }

  lemma {:induction false} TimesMonotone(a: nat, b: nat, k: nat)
    requires a <= b
    ensures Times(a, k) <= Times(b, k)
  {
    if a < b {
      TimesMonotone(a, b - 1, k);
    }
  }

  lemma {:induction false} TimesBytes(n: nat, k: nat)
    ensures Times(n, 8 * k) == 8 * Times(n, k)
    ensures Times(n, 1) == n && Times(n, 2) == 2 * n
    ensures Times(n, 4) == 4 * n && Times(n, 8) == 8 * n
  {
    if n > 0 {
      TimesBytes(n - 1, k);
    }
  }

  lemma {:induction false} TimesAdd(a: nat, b: nat, k: nat)
    ensures Times(a + b, k) == Times(a, k) + Times(b, k)
  {
    if b > 0 {
      TimesAdd(a, b - 1, k);
    }
  }

  // ----- shifts

  lemma {:induction false} Pow2Monotone(a: nat, b: nat)
    requires a <= b
    ensures Pow2(a) <= Pow2(b)
    ensures a < b ==> Pow2(a) < Pow2(b)
  {
    if a < b {
      Pow2Monotone(a, b - 1);
    }
  }

  lemma ShlNone(x: nat)
    ensures Shl(x, 0) == x
  {
  }

  lemma {:induction false} ShlOne(n: nat)
    ensures Shl(1, n) == Pow2(n)
  {
    if n > 0 {
      ShlOne(n - 1);
    }
  }

  lemma {:induction false} ShlAdd(x: nat, y: nat, n: nat)
    ensures Shl(x + y, n) == Shl(x, n) + Shl(y, n)
  {
    if n > 0 {
      ShlAdd(x, y, n - 1);
    }
  }

  lemma {:induction false} ShlMonotone(x: nat, y: nat, n: nat)
    requires x <= y
    ensures Shl(x, n) <= Shl(y, n)
    ensures x < y ==> Shl(x, n) + Pow2(n) <= Shl(y, n)
  {
    if n > 0 {
      ShlMonotone(x, y, n - 1);
    }
  }

  lemma {:induction false} ShlShl(x: nat, a: nat, b: nat)
    ensures Shl(Shl(x, a), b) == Shl(x, a + b)
  {
    if b > 0 {
      ShlShl(x, a, b - 1);
    }
  }

  lemma {:induction false} ShrShr(x: nat, a: nat, b: nat)
    ensures Shr(Shr(x, a), b) == Shr(x, a + b)
  {
    if a > 0 {
      ShrShr(x / 2, a - 1, b);
    }
  }

  /** The low bits are the remainder. */
  lemma {:induction false} LowIsRemainder(x: nat, n: nat)
    ensures Low(x, n) == x % Pow2(n)
  {
    if n > 0 {
      LowIsRemainder(x / 2, n - 1);
      Halved(x, Pow2(n - 1));
    }
  }

  /** A shift down is the quotient. */
  lemma {:induction false} ShrIsQuotient(x: nat, n: nat)
    ensures Shr(x, n) == x / Pow2(n)
  {
    if n > 0 {
      ShrIsQuotient(x / 2, n - 1);
      Halved(x, Pow2(n - 1));
    }
  }

  /** A shift up is the product. */
  lemma {:induction false} ShlIsProduct(x: nat, n: nat)
    ensures Shl(x, n) == x * Pow2(n)
  {
    if n > 0 {
      ShlIsProduct(x, n - 1);
    }
  }

  /** Numbers share their low bits exactly where they leave the same remainder. */
  lemma SameLowBits(x: nat, y: nat, n: nat)
    ensures Low(x, n) == Low(y, n) <==> x % Pow2(n) == y % Pow2(n)
  {
    hide Low, Pow2;
    LowIsRemainder(x, n);
    LowIsRemainder(y, n);
  }

  lemma Halved(x: nat, p: nat)
    requires p >= 1
    ensures x % (2 * p) == x % 2 + 2 * (x / 2 % p)
    ensures x / (2 * p) == x / 2 / p
  {
    var h, r := x / 2, x / 2 % p;
    assert h == h / p * p + r;
    assert x == 2 * (h / p * p + r) + x % 2 == h / p * (2 * p) + (2 * r + x % 2);
    DivisionOf(x, h / p, 2 * p, 2 * r + x % 2);
  }

  lemma DivisionOf(x: nat, q: nat, p: nat, r: nat)
    requires x == q * p + r && r < p
    ensures x / p == q && x % p == r
  {
    var d := x / p;
    assert x == d * p + x % p;
    if d < q {
      ProductsApart(d, q, p);
    } else if q < d {
      ProductsApart(q, d, p);
    }
  }

  lemma {:induction false} ProductsApart(a: nat, b: nat, p: nat)
    requires a < b
    ensures a * p + p <= b * p
  {
    assert b * p == (b - 1) * p + p;
    if a < b - 1 {
      ProductsApart(a, b - 1, p);
    }
  }

  lemma {:induction false} LowOfSmall(x: nat, n: nat)
    requires x < Pow2(n)
    ensures Low(x, n) == x && Shr(x, n) == 0
  {
    if n > 0 {
      LowOfSmall(x / 2, n - 1);
    }
  }

  /** A number is what its low bits and the rest make. */
  lemma {:induction false} LowAndRest(x: nat, n: nat)
    ensures x == Low(x, n) + Shl(Shr(x, n), n)
  {
    if n > 0 {
      LowAndRest(x / 2, n - 1);
    }
  }

  /** And only they do. */
  lemma {:induction false} LowAndRestUnique(low: nat, rest: nat, n: nat)
    requires low < Pow2(n)
    ensures Low(low + Shl(rest, n), n) == low && Shr(low + Shl(rest, n), n) == rest
  {
    if n > 0 {
      LowAndRestUnique(low / 2, rest, n - 1);
      assert (low + Shl(rest, n)) / 2 == low / 2 + Shl(rest, n - 1);
    }
  }

  lemma {:induction false} LowOfLow(x: nat, n: nat, m: nat)
    requires m <= n
    ensures Low(Low(x, n), m) == Low(x, m)
  {
    if m > 0 {
      LowOfLow(x / 2, n - 1, m - 1);
    }
  }

  lemma {:induction false} ShrOfLow(x: nat, n: nat, m: nat)
    requires m <= n
    ensures Shr(Low(x, n), m) == Low(Shr(x, m), n - m)
  {
    if m > 0 {
      ShrOfLow(x / 2, n - 1, m - 1);
    }
  }

  /** A field of a field is a field. */
  lemma FieldOfField(x: nat, at: nat, width: nat, at2: nat, width2: nat)
    requires at2 + width2 <= width
    ensures Field(Field(x, at, width), at2, width2) == Field(x, at + at2, width2)
  {
    var q := Shr(x, at);
    ShrOfLow(q, width, at2);
    ShrShr(x, at, at2);
    LowOfLow(Shr(q, at2), width - at2, width2);
  }

  /** What a number made of three parts holds in the middle one. */
  lemma FieldOfParts(low: nat, f: nat, high: nat, at: nat, width: nat)
    requires low < Pow2(at) && f < Pow2(width)
    ensures Field(low + Shl(f + Shl(high, width), at), at, width) == f
  {
    LowAndRestUnique(low, f + Shl(high, width), at);
    LowAndRestUnique(f, high, width);
  }

  // ----- bitwise or of numbers with no bit in common

  predicate Disjoint(x: nat, y: nat) {
    x == 0 || y == 0 || (!(x % 2 == 1 && y % 2 == 1) && Disjoint(x / 2, y / 2))
  }

  lemma {:induction false} OrOfDisjoint(x: nat, y: nat)
    requires Disjoint(x, y)
    ensures Or(x, y) == x + y
  {
    if x != 0 && y != 0 {
      OrOfDisjoint(x / 2, y / 2);
    }
  }

  lemma {:induction false} OrBound(x: nat, y: nat, n: nat)
    requires x < Pow2(n) && y < Pow2(n)
    ensures Or(x, y) < Pow2(n)
  {
    if x != 0 && y != 0 {
      OrBound(x / 2, y / 2, n - 1);
    }
  }

  lemma {:induction false} DisjointLow(x: nat, y: nat, n: nat)
    requires Disjoint(x, y)
    ensures Disjoint(Low(x, n), Low(y, n)) && Disjoint(Shr(x, n), Shr(y, n))
  {
    if n > 0 {
      DisjointHalves(x, y);
      DisjointLow(x / 2, y / 2, n - 1);
    }
  }

  lemma DisjointHalves(x: nat, y: nat)
    requires Disjoint(x, y)
    ensures Disjoint(x / 2, y / 2) && !(x % 2 == 1 && y % 2 == 1)
  {
  }

  /** A number with nothing in a field has no bit in common with what fits the field. */
  lemma {:induction false} DisjointField(x: nat, at: nat, width: nat, f: nat)
    requires Field(x, at, width) == 0 && f < Pow2(width)
    ensures Disjoint(x, Shl(f, at))
    decreases at, width
  {
    if at > 0 {
      DisjointField(x / 2, at - 1, width, f);
    } else if width > 0 {
      assert Low(x, width) == x % 2 + 2 * Low(x / 2, width - 1);
      DisjointField(x / 2, 0, width - 1, f / 2);
    }
  }

  /** `x | y << n` below and above the `n`-th bit. */
  lemma {:induction false} OrAbove(x: nat, y: nat, n: nat)
    requires x < Pow2(n)
    ensures Or(x, Shl(y, n)) == x + Shl(y, n)
  {
    if n > 0 && x > 0 && y > 0 {
      OrAbove(x / 2, y, n - 1);
      assert Shl(y, n) / 2 == Shl(y, n - 1);
    } else {
      assert y == 0 ==> Shl(y, n) == 0;
    }
  }

  // ----- bytes as numbers

  /** The number `s` spells, its first byte the least significant. */
  function Val(s: seq<byte>): (v: nat) {
    if s == [] then 0 else (s[0] as int) + 256 * Val(s[1..])
  }

  /** The low `k` bytes of `x`: `x.to_le_bytes()[..k]`. */
  function ToLe(x: nat, k: nat): (s: seq<byte>)
    ensures |s| == k
    decreases k
  {
    if k == 0 then [] else [x % 256] + ToLe(x / 256, k - 1)
  }

  lemma ByteShifts(x: nat, y: nat, n: nat)
    ensures Shl(x, n + 8) == 256 * Shl(x, n)
    ensures Pow2(n + 8) == 256 * Pow2(n)
    ensures Shr(y, n + 8) == Shr(y / 256, n)
    ensures Low(y, n + 8) == y % 256 + 256 * Low(y / 256, n)
  {
    var y1 := y / 2;
    var y2 := y1 / 2;
    var y3 := y2 / 2;
    var y4 := y3 / 2;
    FourBits(x, y, n + 4);
    FourBits(x, y4, n);
    assert y4 == y / 16 && y4 / 16 == y / 256;
  }

  lemma FourBits(x: nat, y: nat, n: nat)
    ensures Shl(x, n + 4) == 16 * Shl(x, n)
    ensures Pow2(n + 4) == 16 * Pow2(n)
    ensures Shr(y, n + 4) == Shr(y / 16, n)
    ensures Low(y, n + 4) == y % 16 + 16 * Low(y / 16, n)
  {
    TwoBits(x, y, n + 2);
    TwoBits(x, y / 4, n);
    assert y / 4 / 4 == y / 16;
  }

  lemma TwoBits(x: nat, y: nat, n: nat)
    ensures Shl(x, n + 2) == 4 * Shl(x, n)
    ensures Pow2(n + 2) == 4 * Pow2(n)
    ensures Shr(y, n + 2) == Shr(y / 4, n)
    ensures Low(y, n + 2) == y % 4 + 4 * Low(y / 4, n)
  {
    assert Shl(x, n + 2) == 2 * Shl(x, n + 1) && Pow2(n + 2) == 2 * Pow2(n + 1);
    assert Shr(y, n + 2) == Shr(y / 2, n + 1) == Shr(y / 2 / 2, n);
    assert Low(y, n + 2) == y % 2 + 2 * Low(y / 2, n + 1);
    assert Low(y / 2, n + 1) == y / 2 % 2 + 2 * Low(y / 2 / 2, n);
    assert y / 2 / 2 == y / 4;
  }

  lemma WordPowers()
    ensures Pow2(8) == 0x100 && Pow2(16) == 0x1_0000
    ensures Pow2(32) == 0x1_0000_0000 && Pow2(64) == 0x1_0000_0000_0000_0000
  {
    ByteShifts(0, 0, 0);
    ByteShifts(0, 0, 8);
    ByteShifts(0, 0, 16);
    ByteShifts(0, 0, 24);
    ByteShifts(0, 0, 32);
    ByteShifts(0, 0, 40);
    ByteShifts(0, 0, 48);
    ByteShifts(0, 0, 56);
  }

  lemma {:induction false} ValBound(s: seq<byte>)
    ensures Val(s) < Pow2(8 * |s|)
  {
    if s != [] {
      ValBound(s[1..]);
      ByteShifts(0, 0, 8 * (|s| - 1));
    }
  }

  /** The bytes of a number spell its low bits. */
  lemma {:induction false} ValToLe(x: nat, k: nat)
    ensures Val(ToLe(x, k)) == Low(x, 8 * k)
    decreases k
  {
    if k > 0 {
      ByteShifts(0, x, 8 * (k - 1));
      ValToLe(x / 256, k - 1);
      assert ToLe(x, k)[1..] == ToLe(x / 256, k - 1);
    }
  }

  /** A number of at most `k` bytes comes back from its bytes. */
  lemma ToLeReadsBack(x: nat, k: nat)
    requires x < Pow2(8 * k)
    ensures Val(ToLe(x, k)) == x
  {
    ValToLe(x, k);
    LowOfSmall(x, 8 * k);
  }

  lemma {:induction false} ToLeVal(s: seq<byte>)
    ensures ToLe(Val(s), |s|) == s
  {
    if s != [] {
      ToLeVal(s[1..]);
      var t: int := s[0];
      assert Val(s) % 256 == t && Val(s) / 256 == Val(s[1..]);
    }
  }

  lemma {:induction false} ValConcat(a: seq<byte>, b: seq<byte>)
    ensures Val(a + b) == Val(a) + Shl(Val(b), 8 * |a|)
  {
    if a == [] {
      assert a + b == b;
    } else {
      assert (a + b)[1..] == a[1..] + b;
      ValConcat(a[1..], b);
      ByteShifts(Val(b), 0, 8 * (|a| - 1));
    }
  }

  /** The bytes of `s` from `i` to `j` are a field of what it spells. */
  lemma ValSlice(s: seq<byte>, i: nat, j: nat)
    requires i <= j <= |s|
    ensures Val(s[i..j]) == Field(Val(s), 8 * i, 8 * (j - i))
  {
    hide Val, Field, Shr, Low, Shl, Pow2;
    assert s == s[..i] + (s[i..j] + s[j..]);
    ValMiddle(s[..i], s[i..j], s[j..]);
  }

  lemma ValMiddle(a: seq<byte>, b: seq<byte>, c: seq<byte>)
    ensures Val(b) == Field(Val(a + (b + c)), 8 * |a|, 8 * |b|)
  {
    ValConcat(a, b + c);
    ValConcat(b, c);
    ValBound(a);
    ValBound(b);
    FieldOfParts(Val(a), Val(b), Val(c), 8 * |a|, 8 * |b|);
  }
}
