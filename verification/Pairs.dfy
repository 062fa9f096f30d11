/** Pairs of 64-bit hashes, their order, and sorted and strictly sorted sequences of them. A strictly
    sorted sequence is settled by its elements, so every way of sorting and deduplicating the same pairs
    gives the same sequence. */
module Pairs {

  type u64 = x: int | 0 <= x < 0x1_0000_0000_0000_0000

  /** A key's two hashes: the one that places it and the one that tells it apart. */
  type Pair = (u64, u64)

  predicate PairLess(a: Pair, b: Pair) {
    a.0 < b.0 || (a.0 == b.0 && a.1 < b.1)
  }

  predicate PairAtMost(a: Pair, b: Pair) {
    a.0 < b.0 || (a.0 == b.0 && a.1 <= b.1)
  }

  ghost predicate Sorted(s: seq<Pair>) {
    forall i, j :: 0 <= i < j < |s| ==> PairAtMost(s[i], s[j])
  }

  ghost predicate Strict(s: seq<Pair>) {
    forall i, j :: 0 <= i < j < |s| ==> PairLess(s[i], s[j])
  }

  ghost function Elements(s: seq<Pair>): set<Pair> {
    set i | 0 <= i < |s| :: s[i]
  }

  /** A set has one ascending listing, so whatever lists it in order lists it the same. */
  lemma {:induction false} StrictIsUnique(a: seq<Pair>, b: seq<Pair>)
    requires Strict(a) && Strict(b) && Elements(a) == Elements(b)
    ensures a == b
    decreases |a|
  {
    HeadIn(a);
    HeadIn(b);
    if a != [] && b != [] {
      assert a[0] in Elements(b) && b[0] in Elements(a);
      assert a[0] == b[0];
      TailElements(a);
      TailElements(b);
      StrictIsUnique(a[1..], b[1..]);
      assert a == [a[0]] + a[1..] && b == [b[0]] + b[1..];
    }
  }

  lemma HeadIn(a: seq<Pair>)
    ensures if a == [] then Elements(a) == {} else a[0] in Elements(a)
  {
  }

  lemma TailElements(a: seq<Pair>)
    requires Strict(a) && a != []
    ensures Elements(a[1..]) == Elements(a) - {a[0]}
  {
    forall x
      ensures x in Elements(a[1..]) <==> x in Elements(a) - {a[0]}
    {
      if x in Elements(a[1..]) {
        var i :| 0 <= i < |a[1..]| && a[1..][i] == x;
        assert a[i + 1] == x;
      }
      if x in Elements(a) - {a[0]} {
        var i :| 0 <= i < |a| && a[i] == x;
        assert a[1..][i - 1] == x;
      }
    }
  }

  lemma ElementsConcat(a: seq<Pair>, b: seq<Pair>)
    ensures Elements(a + b) == Elements(a) + Elements(b)
  {
    forall x
      ensures x in Elements(a + b) <==> x in Elements(a) + Elements(b)
    {
      if x in Elements(a) {
        var i :| 0 <= i < |a| && a[i] == x;
        assert (a + b)[i] == x;
      }
      if x in Elements(b) {
        var i :| 0 <= i < |b| && b[i] == x;
        assert (a + b)[|a| + i] == x;
      }
    }
  }

  /** An insertion sort, standing for the library's: all that is used of it is its contract. */
  function Insert(x: Pair, s: seq<Pair>): (r: seq<Pair>)
    ensures |r| == |s| + 1
    ensures multiset(r) == multiset{x} + multiset(s)
  {
    if s == [] then [x]
    else if PairAtMost(x, s[0]) then
      [x] + s
    else
      assert s == [s[0]] + s[1..];
      [s[0]] + Insert(x, s[1..])
  }

  function Sort(s: seq<Pair>): (r: seq<Pair>)
    ensures |r| == |s|
    ensures multiset(r) == multiset(s)
  {
    if s == [] then []
    else
      assert s == [s[0]] + s[1..];
      Insert(s[0], Sort(s[1..]))
  }

  lemma {:induction false} InsertSorts(x: Pair, s: seq<Pair>)
    requires Sorted(s)
    ensures Sorted(Insert(x, s))
  {
    if s != [] && !PairAtMost(x, s[0]) {
      InsertSorts(x, s[1..]);
      var r := Insert(x, s[1..]);
      forall j | 0 <= j < |r|
        ensures PairAtMost(s[0], r[j])
      {
        assert r[j] in multiset(r);
        if r[j] != x {
          assert r[j] in multiset(s[1..]);
          assert r[j] in s[1..];
        }
      }
    }
  }

  lemma {:induction false} SortSorts(s: seq<Pair>)
    ensures Sorted(Sort(s))
  {
    if s != [] {
      SortSorts(s[1..]);
      InsertSorts(s[0], Sort(s[1..]));
    }
  }

  /** `Vec::dedup`: of equal neighbours the first is kept. */
  function Dedup(s: seq<Pair>): (r: seq<Pair>) {
    if |s| <= 1 then s
    else if s[|s| - 1] == s[|s| - 2] then Dedup(s[..|s| - 1])
    else Dedup(s[..|s| - 1]) + [s[|s| - 1]]
  }

  /** Of a sorted sequence it leaves the ascending listing of the same elements. */
  lemma {:induction false} DedupSorted(s: seq<Pair>)
    requires Sorted(s)
    ensures Strict(Dedup(s)) && Elements(Dedup(s)) == Elements(s)
    ensures s != [] ==> Dedup(s) != [] && Dedup(s)[|Dedup(s)| - 1] == s[|s| - 1]
  {
    if |s| > 1 {
      var front, last := s[..|s| - 1], s[|s| - 1];
      DedupSorted(front);
      assert s == front + [last];
      ElementsConcat(front, [last]);
      assert Elements([last]) == {last} by {
        assert [last][0] in Elements([last]);
      }
      if last == s[|s| - 2] {
        assert front[|front| - 1] in Elements(front);
      } else {
        ElementsConcat(Dedup(front), [last]);
        var d := Dedup(front);
        assert forall i :: 0 <= i < |d| - 1 ==> PairLess(d[i], d[|d| - 1]);
      }
    }
  }

  /** What a stream of pairs comes to: sorted, each once. */
  function Canonical(s: seq<Pair>): seq<Pair> {
    Dedup(Sort(s))
  }

  lemma CanonicalIs(s: seq<Pair>)
    ensures Strict(Canonical(s)) && Elements(Canonical(s)) == Elements(s)
  {
    SortSorts(s);
    DedupSorted(Sort(s));
    SameElements(Sort(s), s);
  }

  lemma SameElements(a: seq<Pair>, b: seq<Pair>)
    requires multiset(a) == multiset(b)
    ensures Elements(a) == Elements(b)
  {
    forall x
      ensures x in Elements(a) <==> x in multiset(a)
      ensures x in Elements(b) <==> x in multiset(b)
    {
    }
  }

  /** Pairs that share their hash with the one before. */
  function SameHash(s: seq<Pair>): nat {
    if |s| <= 1 then 0
    else SameHash(s[..|s| - 1]) + if s[|s| - 1].0 == s[|s| - 2].0 then 1 else 0
  }

  lemma {:induction false} SameHashConcat(a: seq<Pair>, b: seq<Pair>)
    requires a != [] && b != [] ==> a[|a| - 1].0 != b[0].0
    ensures SameHash(a + b) == SameHash(a) + SameHash(b)
  {
    if b == [] {
      assert a + b == a;
    } else if |b| == 1 {
      assert (a + b)[..|a + b| - 1] == a;
    } else {
      assert (a + b)[..|a + b| - 1] == a + b[..|b| - 1];
      SameHashConcat(a, b[..|b| - 1]);
    }
  }
}
