/** Lexicographic order on sequences, and codes that keep it: where one character's codeword is below
    another's whenever the character is, and neither starts with the other, the order and the prefix
    relation of whole keys carry over to their codes. Every order-keeping result about codes and encodings
    rests on this one. */
module Lex {

  type byte = b: int | 0 <= b < 256

  /** A Unicode scalar value: what the source's `char` holds. */
  predicate IsScalar(c: int) {
    0 <= c < 0xD800 || 0xE000 <= c < 0x11_0000
  }

  type Scalar = c: int | 0 <= c < 0xD800 || 0xE000 <= c < 0x11_0000

  type Key = seq<Scalar>

  /** `a` sorts strictly before `b`. */
  predicate Less(a: seq<int>, b: seq<int>) {
    && b != []
    && (a == [] || a[0] < b[0] || (a[0] == b[0] && Less(a[1..], b[1..])))
  }

  /** `a` sorts before `b` and stays there however either is extended. */
  predicate Below(a: seq<int>, b: seq<int>) {
    && a != [] && b != []
    && (a[0] < b[0] || (a[0] == b[0] && Below(a[1..], b[1..])))
  }

  lemma {:induction false} LessTotal(a: seq<int>, b: seq<int>)
    ensures Less(a, b) || a == b || Less(b, a)
    ensures !(Less(a, b) && Less(b, a))
    ensures !Less(a, a)
  {
    if a != [] {
      LessTotal(a[1..], a[1..]);
    }
    if a != [] && b != [] && a[0] == b[0] {
      LessTotal(a[1..], b[1..]);
      if a[1..] == b[1..] {
        assert a == [a[0]] + a[1..] && b == [b[0]] + b[1..];
      }
    }
  }

  lemma {:induction false} LessTransitive(a: seq<int>, b: seq<int>, c: seq<int>)
    requires Less(a, b) && Less(b, c)
    ensures Less(a, c)
  {
    if a != [] && a[0] == b[0] && b[0] == c[0] {
      LessTransitive(a[1..], b[1..], c[1..]);
    }
  }

  /** `a` and `b` agree before place `i`, where `a` is the lower. */
  ghost predicate LowerAt(a: seq<int>, b: seq<int>, i: nat) {
    i < |a| && i < |b| && a[..i] == b[..i] && a[i] < b[i]
  }

  /** One sequence sorts before another exactly where it is a shorter prefix of it or lower at the first place
      they differ. */
  lemma {:induction false} LessIff(a: seq<int>, b: seq<int>)
    ensures Less(a, b) <==> a < b || exists i: nat :: LowerAt(a, b, i)
  {
    if a != [] && b != [] {
      var s, t := a[1..], b[1..];
      LessIff(s, t);
      assert a == [a[0]] + s && b == [b[0]] + t;
      if a[0] < b[0] {
        assert LowerAt(a, b, 0);
      }
      if a[0] == b[0] && exists i: nat :: LowerAt(s, t, i) {
        var i: nat :| LowerAt(s, t, i);
        assert a[..i + 1] == [a[0]] + s[..i] && b[..i + 1] == [b[0]] + t[..i];
        assert LowerAt(a, b, i + 1);
      }
      if exists i: nat :: LowerAt(a, b, i) && i > 0 {
        var i: nat :| LowerAt(a, b, i) && i > 0;
        assert a[0] == a[..i][0] == b[..i][0] == b[0];
        assert s[..i - 1] == a[..i][1..] && t[..i - 1] == b[..i][1..];
        assert LowerAt(s, t, i - 1);
      }
    }
  }

  /** A common prefix does not decide. */
  lemma {:induction false} LessAfterPrefix(p: seq<int>, a: seq<int>, b: seq<int>)
    ensures Less(p + a, p + b) == Less(a, b)
    ensures (p + a <= p + b) == (a <= b)
  {
    if p == [] {
      assert p + a == a && p + b == b;
    } else {
      LessAfterPrefix(p[1..], a, b);
      assert (p + a)[1..] == p[1..] + a && (p + b)[1..] == p[1..] + b;
      assert (p + a)[0] == p[0] && (p + b)[0] == p[0];
      if a <= b {
        assert p + b == (p + a) + b[|a|..];
      }
      if p + a <= p + b {
        assert b[..|a|] == (p + b)[|p|..|p| + |a|] == (p + a)[|p|..] == a;
      }
    }
  }

  lemma PrefixTail(x: seq<int>, y: seq<int>)
    requires x != [] && y != []
    ensures x <= y ==> x[1..] <= y[1..]
  {
  }

  lemma {:induction false} BelowDecides(u: seq<int>, v: seq<int>, a: seq<int>, b: seq<int>)
    requires Below(u, v)
    ensures Less(u + a, v + b) && !Less(v + b, u + a)
    ensures !(u + a <= v + b) && !(v + b <= u + a)
  {
    var x, y := u + a, v + b;
    assert x[0] == u[0] && y[0] == v[0];
    if u[0] == v[0] {
      BelowDecides(u[1..], v[1..], a, b);
      assert x[1..] == u[1..] + a && y[1..] == v[1..] + b;
      PrefixTail(x, y);
      PrefixTail(y, x);
    }
  }

  /** What `f` makes of a whole key. */
  function Flat(f: Scalar -> seq<byte>, key: Key): seq<byte> {
    if key == [] then [] else f(key[0]) + Flat(f, key[1..])
  }

  lemma {:induction false} FlatConcat(f: Scalar -> seq<byte>, a: Key, b: Key)
    ensures Flat(f, a + b) == Flat(f, a) + Flat(f, b)
  {
    if a == [] {
      assert a + b == b;
    } else {
      assert (a + b)[1..] == a[1..] + b;
      FlatConcat(f, a[1..], b);
    }
  }

  lemma FlatOne(f: Scalar -> seq<byte>, c: Scalar)
    ensures Flat(f, [c]) == f(c)
  {
    assert Flat(f, [c]) == f(c) + Flat(f, []);
  }

  /** `f` codes the characters of `spelt` in ascending codewords, none a prefix of another. */
  ghost predicate Ordered(f: Scalar -> seq<byte>, spelt: iset<Scalar>) {
    && (forall c <- spelt :: f(c) != [])
    && (forall c <- spelt, d <- spelt :: c < d ==> Below(f(c), f(d)))
  }

  ghost predicate Over(key: Key, spelt: iset<Scalar>) {
    forall i :: 0 <= i < |key| ==> key[i] in spelt
  }

  /** An ordered code keeps the order of keys, tells keys apart and keeps prefixes, both ways. */
  lemma {:induction false} OrderedCodeKeepsOrder(f: Scalar -> seq<byte>, spelt: iset<Scalar>, a: Key, b: Key)
    requires Ordered(f, spelt) && Over(a, spelt) && Over(b, spelt)
    ensures Less(Flat(f, a), Flat(f, b)) <==> Less(a, b)
    ensures Flat(f, a) == Flat(f, b) <==> a == b
    ensures Flat(f, a) <= Flat(f, b) <==> a <= b
  {
    if a == [] || b == [] {
      if a != [] { assert f(a[0]) != []; }
      if b != [] { assert f(b[0]) != []; }
    } else if a[0] == b[0] {
      OrderedCodeKeepsOrder(f, spelt, a[1..], b[1..]);
      LessAfterPrefix(f(a[0]), Flat(f, a[1..]), Flat(f, b[1..]));
      LessAfterPrefix([a[0]], a[1..], b[1..]);
      assert a == [a[0]] + a[1..] && b == [a[0]] + b[1..];
      if Flat(f, a) == Flat(f, b) {
        assert Flat(f, a[1..]) == Flat(f, a)[|f(a[0])|..] == Flat(f, b)[|f(a[0])|..] == Flat(f, b[1..]);
      }
    } else if a[0] < b[0] {
      BelowDecides(f(a[0]), f(b[0]), Flat(f, a[1..]), Flat(f, b[1..]));
      LessTotal(Flat(f, a), Flat(f, b));
    } else {
      BelowDecides(f(b[0]), f(a[0]), Flat(f, b[1..]), Flat(f, a[1..]));
      LessTotal(Flat(f, a), Flat(f, b));
    }
  }
}
