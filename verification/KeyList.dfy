/** Ascending lists of keys: a set of keys has one strict listing, whatever order they came in and
    however often. */
module KeyLists {
  import opened Lex

  type Bytes = seq<byte>

  predicate AtMost(a: Bytes, b: Bytes) {
    a == b || Less(a, b)
  }

  lemma AtMostTotal(a: Bytes, b: Bytes)
    ensures AtMost(a, b) || AtMost(b, a)
    ensures AtMost(a, b) && AtMost(b, a) ==> a == b
    ensures !Less(a, a)
  {
    LessTotal(a, b);
    LessTotal(a, a);
  }

  lemma AtMostTransitive(a: Bytes, b: Bytes, c: Bytes)
    requires AtMost(a, b) && AtMost(b, c)
    ensures AtMost(a, c)
    ensures Less(a, b) || Less(b, c) ==> Less(a, c)
  {
    if a != b && b != c {
      LessTransitive(a, b, c);
    }
  }

  /** Each key at most the next. */
  ghost predicate Ascending(s: seq<Bytes>) {
    forall i :: 0 < i < |s| ==> AtMost(s[i - 1], s[i])
  }

  /** Each key below the next. */
  ghost predicate Strict(s: seq<Bytes>) {
    forall i :: 0 < i < |s| ==> Less(s[i - 1], s[i])
  }

  lemma {:induction false} AscendingFar(s: seq<Bytes>, i: nat, j: nat)
    requires Ascending(s) && i <= j < |s|
    ensures AtMost(s[i], s[j])
  {
    if i < j {
      AscendingFar(s, i, j - 1);
      AtMostTransitive(s[i], s[j - 1], s[j]);
    }
  }

  lemma {:induction false} StrictFar(s: seq<Bytes>, i: nat, j: nat)
    requires Strict(s) && i < j < |s|
    ensures Less(s[i], s[j])
  {
    if i + 1 < j {
      StrictFar(s, i, j - 1);
      LessTransitive(s[i], s[j - 1], s[j]);
    }
  }

  /** A set of keys has one ascending listing. */
  lemma {:induction false} StrictIsUnique(a: seq<Bytes>, b: seq<Bytes>)
    requires Strict(a) && Strict(b)
    requires forall x :: x in a <==> x in b
    ensures a == b
    decreases |a|
  {
    if a != [] && b != [] {
      var la, lb := a[|a| - 1], b[|b| - 1];
      LastIsGreatest(a, lb);
      LastIsGreatest(b, la);
      AtMostTotal(la, lb);
      assert la == lb;
      FrontElements(a);
      FrontElements(b);
      var fa, fb := a[..|a| - 1], b[..|b| - 1];
      forall x
        ensures x in fa <==> x in fb
      {
        assert x in a <==> x in b;
      }
      StrictIsUnique(fa, fb);
      assert a == a[..|a| - 1] + [la] && b == b[..|b| - 1] + [lb];
    } else {
      HeadIn(a);
      HeadIn(b);
    }
  }

  lemma HeadIn(a: seq<Bytes>)
    ensures a != [] ==> a[0] in a
  {
  }

  lemma LastIsGreatest(a: seq<Bytes>, x: Bytes)
    requires Strict(a) && a != [] && x in a
    ensures AtMost(x, a[|a| - 1])
  {
    var i :| 0 <= i < |a| && a[i] == x;
    if i < |a| - 1 {
      StrictFar(a, i, |a| - 1);
    }
  }

  lemma FrontElements(a: seq<Bytes>)
    requires Strict(a) && a != []
    ensures Strict(a[..|a| - 1])
    ensures forall x :: x in a[..|a| - 1] <==> x in a && x != a[|a| - 1]
  {
    forall x
      ensures x in a[..|a| - 1] <==> x in a && x != a[|a| - 1]
    {
      if x in a[..|a| - 1] {
        var i :| 0 <= i < |a| - 1 && a[..|a| - 1][i] == x;
        StrictFar(a, i, |a| - 1);
        AtMostTotal(x, x);
      }
      if x in a && x != a[|a| - 1] {
        var i :| 0 <= i < |a| && a[i] == x;
        assert a[..|a| - 1][i] == x;
      }
    }
  }

  lemma SnocAscending(s: seq<Bytes>, x: Bytes)
    requires Ascending(s) && (s != [] ==> AtMost(s[|s| - 1], x))
    ensures Ascending(s + [x])
  {
    var t := s + [x];
    forall i | 0 < i < |t|
      ensures AtMost(t[i - 1], t[i])
    {
      if i < |s| {
        assert AtMost(s[i - 1], s[i]);
      }
    }
  }

  lemma SnocStrict(s: seq<Bytes>, x: Bytes)
    requires Strict(s) && (s != [] ==> Less(s[|s| - 1], x))
    ensures Strict(s + [x])
  {
    var t := s + [x];
    forall i | 0 < i < |t|
      ensures Less(t[i - 1], t[i])
    {
      if i < |s| {
        assert Less(s[i - 1], s[i]);
      }
    }
  }

  lemma {:induction false} AscendingConcat(a: seq<Bytes>, b: seq<Bytes>)
    requires Ascending(a) && Ascending(b) && (a != [] && b != [] ==> AtMost(a[|a| - 1], b[0]))
    ensures Ascending(a + b)
  {
    if b == [] {
      assert a + b == a;
    } else {
      var front := b[..|b| - 1];
      assert a + b == (a + front) + [b[|b| - 1]];
      assert forall i :: 0 < i < |front| ==> AtMost(b[i - 1], b[i]);
      AscendingConcat(a, front);
      if |b| > 1 {
        assert AtMost(b[|b| - 2], b[|b| - 1]);
      }
      SnocAscending(a + front, b[|b| - 1]);
    }
  }

  /** A key put where it belongs. */
  lemma InsertedAscends(keys: seq<Bytes>, at: nat, key: Bytes)
    requires Ascending(keys) && at <= |keys|
    requires at > 0 ==> AtMost(keys[at - 1], key)
    requires at < |keys| ==> AtMost(key, keys[at])
    ensures Ascending(keys[..at] + [key] + keys[at..])
  {
    assert forall i :: 0 < i < at ==> AtMost(keys[i - 1], keys[i]);
    var after := keys[at..];
    forall i | 0 < i < |after|
      ensures AtMost(after[i - 1], after[i])
    {
      assert AtMost(keys[at + i - 1], keys[at + i]);
    }
    SnocAscending(keys[..at], key);
    AscendingConcat(keys[..at] + [key], after);
  }

  lemma AscendingIfStrict(s: seq<Bytes>)
    requires Strict(s)
    ensures Ascending(s)
  {
  }

  method DropRepeats(s: seq<Bytes>) returns (out: seq<Bytes>)
    requires Ascending(s)
    ensures Strict(out) && forall x :: x in out <==> x in s
  {
    out := [];
    for k := 0 to |s|
      invariant Strict(out) && forall x :: x in out <==> x in s[..k]
      invariant k > 0 ==> out != [] && out[|out| - 1] == s[k - 1]
      invariant k == 0 ==> out == []
    {
      assert s[..k + 1] == s[..k] + [s[k]];
      if out != [] && out[|out| - 1] == s[k] {
        continue;
      }
      if k > 0 {
        assert AtMost(s[k - 1], s[k]);
      }
      SnocStrict(out, s[k]);
      out := out + [s[k]];
    }
    assert s[..|s|] == s;
  }

  /** The distinct keys of `items`, ascending. */
  ghost predicate DistinctKeys(keys: seq<Bytes>, items: seq<Bytes>) {
    Strict(keys) && forall x :: x in keys <==> x in items
  }

  /** There is one such stream: replayed under any budget and fan-in, spilled or not, and from the keys in
      any order and however often repeated, it is the same. */
  lemma OneStream(a: seq<Bytes>, b: seq<Bytes>, items: seq<Bytes>, others: seq<Bytes>)
    requires DistinctKeys(a, items) && DistinctKeys(b, others) && forall x :: x in items <==> x in others
    ensures a == b
  {
    StrictIsUnique(a, b);
  }
}
