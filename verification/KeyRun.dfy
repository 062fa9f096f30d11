/** One run in memory: key bytes end to end and a span of two 32-bit numbers a key, sorted and
    deduplicated where they lie. */
module KeyRuns {
  import opened Lex
  import opened Wrappers
  import opened Utf8Check
  import opened KeyLists
  import opened RunFiles

  type U32 = x: nat | x < U32_END

  type Span = (U32, U32)

  /** What is left of a key once its length is cut to 32 bits. */
  function Cut(key: Bytes): Bytes {
    key[..|key| % 0x1_0000_0000]
  }

  lemma CutShort(key: Bytes)
    ensures Short(key) ==> Cut(key) == key
  {
  }

  ghost predicate Within(bytes: Bytes, spans: seq<Span>) {
    forall i :: 0 <= i < |spans| ==> spans[i].0 + spans[i].1 <= |bytes|
  }

  function KeyAt(bytes: Bytes, span: Span): Bytes
    requires span.0 + span.1 <= |bytes|
  {
    bytes[span.0..span.0 + span.1]
  }

  /** A span read back: none where its end passes 32 bits, which no slice survives. */
  function KeyRead(bytes: Bytes, span: Span): Option<Bytes>
    requires span.0 + span.1 <= |bytes|
  {
    if span.0 + span.1 < 0x1_0000_0000 then Some(KeyAt(bytes, span)) else None
  }

  function KeysOf(bytes: Bytes, spans: seq<Span>): (keys: seq<Bytes>)
    requires Within(bytes, spans)
    ensures |keys| == |spans|
  {
    seq(|spans|, i requires 0 <= i < |spans| => KeyAt(bytes, spans[i]))
  }

  /** Every span's end fits 32 bits. */
  predicate Readable(spans: seq<Span>) {
    forall i :: 0 <= i < |spans| ==> spans[i].0 as int + spans[i].1 as int < 0x1_0000_0000
  }

  class Run {
    var bytes: Bytes
    var spans: seq<Span>
    const budget: nat

    ghost predicate Valid()
      reads this
    {
      Within(bytes, spans)
    }

    ghost function Keys(): (keys: seq<Bytes>)
      requires Valid()
      reads this
    {
      KeysOf(bytes, spans)
    }

    constructor (budget: nat)
      ensures Valid() && Keys() == [] && bytes == [] && spans == [] && this.budget == budget
    {
      this.budget := budget;
      bytes, spans := [], [];
    }

    /** Whether the budget has room for the key's bytes and for one more span. */
    predicate Fits(key: Bytes)
      reads this
    {
      |bytes| + |key| <= budget && |spans| < budget / 8
    }

    /** The key's bytes go in whole, its span cut to 32 bits. The span reads back the key exactly where
        the bytes, the key's among them, are fewer than 4 GiB; a key alone in its run leaves what its
        length is cut to. */
    method Push(key: Bytes)
      requires Valid()
      modifies this
      ensures Valid()
      ensures bytes == old(bytes) + key
      ensures spans == old(spans) + [(old(|bytes|) % 0x1_0000_0000, |key| % 0x1_0000_0000)]
      ensures Keys() == old(Keys()) + [KeyAt(bytes, spans[|spans| - 1])]
      ensures old(|bytes|) < 0x1_0000_0000 ==>
        (KeyRead(bytes, spans[|spans| - 1]) == Some(key) <==> |bytes| < 0x1_0000_0000)
      ensures old(bytes) == [] || |bytes| < 0x1_0000_0000 ==>
        KeyRead(bytes, spans[|spans| - 1]) == Some(Cut(key)) && Keys() == old(Keys()) + [Cut(key)]
    {
      var span: Span := (|bytes| % U32_END, |key| % U32_END);
      PushedSpan(bytes, spans, span, key);
      spans := spans + [span];
      bytes := bytes + key;
    }

    /** Sort the spans, drop repeats and read the keys out: which comes off exactly where every span's end fits
        32 bits and every key read is UTF-8. */
    method Sorted() returns (ok: bool)
      requires Valid()
      modifies this`spans
      ensures Valid() && |spans| <= old(|spans|)
      ensures ok <==> old(Readable(spans)) && forall x <- old(Keys()) :: IsText(x)
      ensures ok ==> Readable(spans) && Strict(Keys()) && forall x :: x in Keys() <==> x in old(Keys())
    {
      hide IsText;
      if !Readable(spans) {
        return false;
      }
      var sorted := SortSpans(bytes, spans);
      KeysOfPermutation(bytes, spans, sorted);
      assert forall span <- sorted :: span in multiset(sorted) && span in multiset(spans);
      spans := DedupSpans(bytes, sorted);
      ReadableAmong(spans, old(spans));
      var keys := KeysOf(bytes, spans);
      for i := 0 to |keys|
        invariant forall j :: 0 <= j < i ==> IsText(keys[j])
      {
        if !IsText(keys[i]) {
          assert keys[i] in keys;
          return false;
        }
      }
      ok := true;
    }

    method Clear()
      modifies this
      ensures Valid() && Keys() == [] && bytes == [] && spans == []
    {
      bytes, spans := [], [];
    }
  }

  lemma ReadableAmong(some: seq<Span>, all: seq<Span>)
    requires Readable(all) && forall span <- some :: span in all
    ensures Readable(some)
  {
    forall i | 0 <= i < |some|
      ensures some[i].0 + some[i].1 < U32_END
    {
      assert some[i] in all;
    }
  }

  lemma PushedSpan(bytes: Bytes, spans: seq<Span>, span: Span, key: Bytes)
    requires Within(bytes, spans) && span == (|bytes| % U32_END, |key| % U32_END)
    ensures Within(bytes + key, spans + [span])
    ensures KeysOf(bytes + key, spans + [span]) == KeysOf(bytes, spans) + [KeyAt(bytes + key, span)]
    ensures |bytes| < U32_END ==> (KeyRead(bytes + key, span) == Some(key) <==> |bytes + key| < U32_END)
    ensures bytes == [] || |bytes + key| < U32_END ==> KeyRead(bytes + key, span) == Some(Cut(key))
  {
    forall i | 0 <= i < |spans|
      ensures KeyAt(bytes + key, spans[i]) == KeyAt(bytes, spans[i])
    {
      assert (bytes + key)[..|bytes|] == bytes;
    }
    var all := bytes + key;
    assert |KeyAt(all, span)| == |key| % U32_END;
    if |all| < U32_END {
      assert all[|bytes|..] == key && KeyAt(all, span) == all[|bytes|..];
      assert Cut(key) == key;
    }
    if bytes == [] {
      assert all == key && KeyAt(all, span) == Cut(key);
    }
  }

  /** The spans sorted by their keys, by insertion: what is used of it is its contract. */
  method SortSpans(bytes: Bytes, spans: seq<Span>) returns (sorted: seq<Span>)
    requires Within(bytes, spans)
    ensures multiset(sorted) == multiset(spans)
    ensures |sorted| == |spans| && Within(bytes, sorted)
    ensures Ascending(KeysOf(bytes, sorted))
  {
    sorted := [];
    for k := 0 to |spans|
      invariant multiset(sorted) == multiset(spans[..k]) && |sorted| == k
      invariant Within(bytes, sorted)
      invariant Ascending(KeysOf(bytes, sorted))
    {
      assert spans[..k + 1] == spans[..k] + [spans[k]];
      sorted := InsertSpan(bytes, sorted, spans[k]);
    }
    assert spans[..|spans|] == spans;
  }

  method InsertSpan(bytes: Bytes, sorted0: seq<Span>, span: Span) returns (sorted: seq<Span>)
    requires span.0 + span.1 <= |bytes| && Within(bytes, sorted0)
    requires Ascending(KeysOf(bytes, sorted0))
    ensures multiset(sorted) == multiset(sorted0) + multiset{span} && |sorted| == |sorted0| + 1
    ensures Within(bytes, sorted)
    ensures Ascending(KeysOf(bytes, sorted))
  {
    var at := PlaceFor(bytes, sorted0, KeyAt(bytes, span));
    sorted := sorted0[..at] + [span] + sorted0[at..];
    assert sorted0 == sorted0[..at] + sorted0[at..];
    InsertedSpan(bytes, sorted0, at, span);
  }

  lemma InsertedSpan(bytes: Bytes, spans: seq<Span>, at: nat, span: Span)
    requires span.0 + span.1 <= |bytes| && Within(bytes, spans) && at <= |spans|
    requires Ascending(KeysOf(bytes, spans))
    requires at > 0 ==> AtMost(KeysOf(bytes, spans)[at - 1], KeyAt(bytes, span))
    requires at < |spans| ==> AtMost(KeyAt(bytes, span), KeysOf(bytes, spans)[at])
    ensures var more := spans[..at] + [span] + spans[at..];
      Within(bytes, more) && Ascending(KeysOf(bytes, more))
  {
    var was, more := KeysOf(bytes, spans), spans[..at] + [span] + spans[at..];
    InsertedAscends(was, at, KeyAt(bytes, span));
    assert KeysOf(bytes, more) == was[..at] + [KeyAt(bytes, span)] + was[at..];
  }

  method PlaceFor(bytes: Bytes, sorted: seq<Span>, key: Bytes) returns (at: nat)
    requires Within(bytes, sorted)
    ensures at <= |sorted|
    ensures at > 0 ==> AtMost(KeysOf(bytes, sorted)[at - 1], key)
    ensures at < |sorted| ==> AtMost(key, KeysOf(bytes, sorted)[at])
  {
    at := |sorted|;
    while at > 0 && Less(key, KeyAt(bytes, sorted[at - 1]))
      invariant 0 <= at <= |sorted|
      invariant at < |sorted| ==> Less(key, KeyAt(bytes, sorted[at]))
    {
      at := at - 1;
    }
    if at > 0 {
      LessTotal(key, KeyAt(bytes, sorted[at - 1]));
    }
  }

  lemma KeysOfPermutation(bytes: Bytes, a: seq<Span>, b: seq<Span>)
    requires multiset(a) == multiset(b)
    requires Within(bytes, a)
    requires Within(bytes, b)
    ensures forall x :: x in KeysOf(bytes, a) <==> x in KeysOf(bytes, b)
  {
    forall x
      ensures x in KeysOf(bytes, a) ==> x in KeysOf(bytes, b)
    {
      KeyInPermutation(bytes, a, b, x);
    }
    forall x
      ensures x in KeysOf(bytes, b) ==> x in KeysOf(bytes, a)
    {
      KeyInPermutation(bytes, b, a, x);
    }
  }

  lemma KeyInPermutation(bytes: Bytes, a: seq<Span>, b: seq<Span>, x: Bytes)
    requires multiset(a) == multiset(b)
    requires Within(bytes, a)
    requires Within(bytes, b)
    ensures x in KeysOf(bytes, a) ==> x in KeysOf(bytes, b)
  {
    if x in KeysOf(bytes, a) {
      var i :| 0 <= i < |a| && KeysOf(bytes, a)[i] == x;
      assert a[i] in multiset(a);
      assert a[i] in b;
      var j :| 0 <= j < |b| && b[j] == a[i];
      assert KeysOf(bytes, b)[j] == x;
    }
  }

  /** Of each key, the first span alone. */
  method DedupSpans(bytes: Bytes, spans: seq<Span>) returns (out: seq<Span>)
    requires Within(bytes, spans)
    requires Ascending(KeysOf(bytes, spans))
    ensures |out| <= |spans| && Within(bytes, out) && forall span <- out :: span in spans
    ensures Strict(KeysOf(bytes, out))
    ensures forall x :: x in KeysOf(bytes, out) <==> x in KeysOf(bytes, spans)
  {
    hide Less, U32_END;
    out := [];
    ghost var keys := KeysOf(bytes, spans);
    for k := 0 to |spans|
      invariant |out| <= k && Within(bytes, out) && forall span <- out :: span in spans
      invariant Strict(KeysOf(bytes, out))
      invariant forall x :: x in KeysOf(bytes, out) <==> x in keys[..k]
      invariant k > 0 ==> out != [] && KeyAt(bytes, out[|out| - 1]) == keys[k - 1]
      invariant k == 0 ==> out == []
    {
      assert keys[..k + 1] == keys[..k] + [keys[k]];
      if k > 0 && KeyAt(bytes, out[|out| - 1]) == KeyAt(bytes, spans[k]) {
        assert keys[..k][k - 1] == keys[k];
        continue;
      }
      assert KeysOf(bytes, out + [spans[k]]) == KeysOf(bytes, out) + [keys[k]];
      if k > 0 {
        assert AtMost(keys[k - 1], keys[k]);
      }
      SnocStrict(KeysOf(bytes, out), keys[k]);
      out := out + [spans[k]];
    }
    assert keys[..|spans|] == keys;
  }

  /** A run filled to exactly 4 GiB, as its budget allows, by a letter and a key that takes up the rest: both
      fit, and reading them out panics, for the second span ends at 2^32. */
  method FillToFourGiB() returns (fit: bool, ok: bool)
    ensures fit && !ok
  {
    var run := new Run(U32_END);
    var letter: Bytes, rest: Bytes := [97], seq(U32_END - 1, _ => 97);
    fit := run.Fits(letter);
    run.Push(letter);
    fit := fit && run.Fits(rest);
    run.Push(rest);
    assert run.spans[1] == (1, U32_END - 1);
    ok := run.Sorted();
  }
}
