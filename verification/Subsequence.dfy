/** Character-level subsequence matching a byte at a time: one integer of state, and it accepts exactly
    the haystacks that hold the query's characters in order. */
module Subsequence {
  import opened Lex
  import opened Utf8

  /** Offset of the character byte `pos` of the query belongs to. */
  function StartOf(query: seq<byte>, pos: nat): (start: nat)
    requires pos < |query|
    ensures start <= pos
    ensures start == 0 || !Continuation(query[start])
    ensures forall i :: start < i <= pos ==> Continuation(query[i])
  {
    if pos > 0 && Continuation(query[pos]) then StartOf(query, pos - 1) else pos
  }

  /** The walk back over continuation bytes. */
  method CharStart(query: seq<byte>, pos: nat) returns (start: nat)
    requires pos < |query|
    ensures start == StartOf(query, pos)
  {
    start := pos;
    while start > 0 && Continuation(query[start])
      invariant start <= pos && StartOf(query, start) == StartOf(query, pos)
    {
      start := start - 1;
    }
  }

  /** The state after one more byte: how many of the query's bytes are matched, all of them for good. */
  function Accept(query: seq<byte>, state: nat, b: byte): (next: nat)
    requires state <= |query|
    ensures next <= |query|
  {
    if state == |query| then state
    else if b == query[state] then state + 1
    else StartOf(query, state)
  }

  predicate IsMatch(query: seq<byte>, state: nat) {
    state == |query|
  }

  function Run(query: seq<byte>, state: nat, hay: seq<byte>): (end: nat)
    requires state <= |query|
    ensures end <= |query|
    decreases |hay|
  {
    if hay == [] then state else Run(query, Accept(query, state, hay[0]), hay[1..])
  }

  lemma {:induction false} RunConcat(query: seq<byte>, state: nat, a: seq<byte>, b: seq<byte>)
    requires state <= |query|
    ensures Run(query, state, a + b) == Run(query, Run(query, state, a), b)
    decreases |a|
  {
    if a == [] {
      assert a + b == b;
    } else {
      assert (a + b)[1..] == a[1..] + b;
      RunConcat(query, Accept(query, state, a[0]), a[1..], b);
    }
  }

  // ----- inside one character

  /** `u` sits in the query at `s`. */
  ghost predicate At(query: seq<byte>, s: nat, u: seq<byte>) {
    s + |u| <= |query| && query[s..s + |u|] == u
  }

  lemma AtByte(query: seq<byte>, s: nat, u: seq<byte>, i: nat)
    requires At(query, s, u) && i < |u|
    ensures query[s + i] == u[i]
  {
    assert query[s..s + |u|][i] == u[i];
  }

  /** Bytes that match carry the state along. */
  lemma {:induction false} RunMatches(query: seq<byte>, s: nat, u: seq<byte>)
    requires At(query, s, u)
    ensures Run(query, s, u) == s + |u|
    decreases |u|
  {
    if u != [] {
      AtByte(query, s, u, 0);
      assert query[s + 1..s + |u|] == query[s..s + |u|][1..];
      RunMatches(query, s + 1, u[1..]);
    }
  }

  /** A mismatch anywhere in a character rewinds to its first byte. */
  lemma MismatchRewinds(query: seq<byte>, s: nat, d: Scalar, i: nat)
    requires At(query, s, Encode(d)) && i < |Encode(d)|
    ensures StartOf(query, s + i) == s
  {
    AtByte(query, s, Encode(d), 0);
    OnlyTheFirstByteLeads(d, 0);
    assert !Continuation(query[s + 0]);
    var start := StartOf(query, s + i);
    if start > s {
      AtByte(query, s, Encode(d), start - s);
      OnlyTheFirstByteLeads(d, start - s);
    }
  }

  /** At a character's first byte, continuation bytes change nothing. */
  lemma {:induction false} ContinuationsStay(query: seq<byte>, s: nat, d: Scalar, rest: seq<byte>)
    requires At(query, s, Encode(d))
    requires forall i :: 0 <= i < |rest| ==> Continuation(rest[i])
    ensures Run(query, s, rest) == s
  {
    if rest != [] {
      AtByte(query, s, Encode(d), 0);
      OnlyTheFirstByteLeads(d, 0);
      MismatchRewinds(query, s, d, 0);
      ContinuationsStay(query, s, d, rest[1..]);
    }
  }

  /** A whole haystack character against a query character at its boundary: past it if they are the
      same, at the same boundary if not. */
  lemma CharacterStep(query: seq<byte>, s: nat, d: Scalar, c: Scalar)
    requires At(query, s, Encode(d))
    ensures Run(query, s, Encode(c)) == if c == d then s + |Encode(d)| else s
  {
    if c == d {
      RunMatches(query, s, Encode(d));
    } else {
      var i := Differ(d, c);
      var v := Encode(c);
      assert v == v[..i] + ([v[i]] + v[i + 1..]);
      forall j | i < j < |v|
        ensures Continuation(v[j])
      {
        OnlyTheFirstByteLeads(c, j);
      }
      MismatchedCharacter(query, s, d, v[..i], v[i], v[i + 1..]);
    }
  }

  /** A character that agrees as far as `same`, then differs in `b`. */
  lemma MismatchedCharacter(query: seq<byte>, s: nat, d: Scalar, same: seq<byte>, b: byte, rest: seq<byte>)
    requires At(query, s, Encode(d))
    requires |same| < |Encode(d)| && same == Encode(d)[..|same|] && b != Encode(d)[|same|]
    requires forall j :: 0 <= j < |rest| ==> Continuation(rest[j])
    ensures Run(query, s, same + ([b] + rest)) == s
  {
    var i := |same|;
    RunConcat(query, s, same, [b] + rest);
    assert query[s..s + i] == query[s..s + |Encode(d)|][..i];
    RunMatches(query, s, same);
    AtByte(query, s, Encode(d), i);
    MismatchRewinds(query, s, d, i);
    assert ([b] + rest)[1..] == rest;
    ContinuationsStay(query, s, d, rest);
  }

  lemma Differ(d: Scalar, c: Scalar) returns (i: nat)
    requires c != d
    ensures i < |Encode(d)| && i < |Encode(c)|
    ensures Encode(d)[..i] == Encode(c)[..i] && Encode(d)[i] != Encode(c)[i]
  {
    if c < d {
      EncodeAscends(c, d);
      i := FirstDifference(Encode(c), Encode(d));
    } else {
      EncodeAscends(d, c);
      i := FirstDifference(Encode(d), Encode(c));
    }
  }

  // ----- over a haystack

  /** The query's characters stand in the haystack, in order, at the places `at`. */
  ghost predicate Embeds(q: Key, h: Key, at: seq<nat>) {
    && |at| == |q|
    && (forall i :: 0 <= i < |at| ==> at[i] < |h| && h[at[i]] == q[i])
    && (forall i, j :: 0 <= i < j < |at| ==> at[i] < at[j])
  }

  ghost predicate IsSubsequence(q: Key, h: Key) {
    exists at: seq<nat> :: Embeds(q, h, at)
  }

  /** The characters of `q` matched, from the `m`-th on, taking each at its first chance. */
  function Greedy(q: Key, m: nat, h: Key): (n: nat)
    requires m <= |q|
    ensures m <= n <= |q|
    decreases |h|
  {
    if h == [] then m
    else Greedy(q, if m < |q| && h[0] == q[m] then m + 1 else m, h[1..])
  }

  lemma TextSplits(q: Key, m: nat)
    requires m < |q|
    ensures At(Text(q), |Text(q[..m])|, Encode(q[m]))
    ensures |Text(q[..m + 1])| == |Text(q[..m])| + |Encode(q[m])|
  {
    assert q == q[..m] + ([q[m]] + q[m + 1..]);
    assert q[..m + 1] == q[..m] + [q[m]];
    FlatConcat(Encode, q[..m], [q[m]] + q[m + 1..]);
    FlatConcat(Encode, [q[m]], q[m + 1..]);
    FlatConcat(Encode, q[..m], [q[m]]);
    FlatOne(Encode, q[m]);
    var a, u, b := Text(q[..m]), Encode(q[m]), Text(q[m + 1..]);
    assert Text(q) == a + (u + b);
    assert (a + (u + b))[|a|..|a| + |u|] == u;
  }

  /** At every character boundary of the haystack the state is a character boundary of the query: the
      one greedy matching has reached. */
  lemma {:induction false} StateIsABoundary(q: Key, m: nat, h: Key)
    requires m <= |q|
    ensures |Text(q[..m])| <= |Text(q)|
    ensures Run(Text(q), |Text(q[..m])|, Text(h)) == |Text(q[..Greedy(q, m, h)])|
    decreases |h|
  {
    BoundaryWithin(q, m);
    if h != [] {
      RunConcat(Text(q), |Text(q[..m])|, Encode(h[0]), Text(h[1..]));
      if m < |q| {
        TextSplits(q, m);
        CharacterStep(Text(q), |Text(q[..m])|, q[m], h[0]);
      } else {
        assert q[..m] == q;
        AcceptedStays(Text(q), Encode(h[0]));
      }
      StateIsABoundary(q, if m < |q| && h[0] == q[m] then m + 1 else m, h[1..]);
    }
  }

  lemma BoundaryWithin(q: Key, m: nat)
    requires m <= |q|
    ensures |Text(q[..m])| <= |Text(q)|
    ensures |Text(q[..m])| == |Text(q)| <==> m == |q|
  {
    assert q == q[..m] + q[m..];
    FlatConcat(Encode, q[..m], q[m..]);
    if m < |q| {
      assert Text(q[m..]) == Encode(q[m..][0]) + Text(q[m..][1..]);
    }
  }

  lemma {:induction false} AcceptedStays(query: seq<byte>, hay: seq<byte>)
    ensures Run(query, |query|, hay) == |query|
  {
    if hay != [] {
      AcceptedStays(query, hay[1..]);
    }
  }

  /** Greedy matching finishes exactly where some embedding exists. */
  lemma {:induction false} GreedyIsComplete(q: Key, m: nat, h: Key)
    requires m <= |q|
    ensures Greedy(q, m, h) == |q| <==> IsSubsequence(q[m..], h)
    decreases |h|
  {
    if h == [] {
      if m == |q| {
        assert Embeds(q[m..], h, []);
      } else {
        forall at: seq<nat>
          ensures !Embeds(q[m..], h, at)
        {
          assert |at| == |q[m..]| ==> 0 < |at|;
        }
      }
    } else {
      var n := if m < |q| && h[0] == q[m] then m + 1 else m;
      GreedyIsComplete(q, n, h[1..]);
      if IsSubsequence(q[n..], h[1..]) {
        var at :| Embeds(q[n..], h[1..], at);
        ShiftUp(q, m, n, h, at);
      }
      if IsSubsequence(q[m..], h) {
        var at :| Embeds(q[m..], h, at);
        ShiftDown(q, m, n, h, at);
      }
    }
  }

  lemma ShiftUp(q: Key, m: nat, n: nat, h: Key, at: seq<nat>)
    requires m <= n <= |q| && h != [] && n == (if m < |q| && h[0] == q[m] then m + 1 else m)
    requires Embeds(q[n..], h[1..], at)
    ensures IsSubsequence(q[m..], h)
  {
    var up := seq(|at|, i requires 0 <= i < |at| => at[i] + 1);
    Moved(q[n..], h, at, up);
    if n == m {
      assert Embeds(q[m..], h, up);
    } else {
      assert q[m..][1..] == q[n..];
      Placed(q[m..], h, up);
      assert Embeds(q[m..], h, [0] + up);
    }
  }

  lemma Moved(q: Key, h: Key, at: seq<nat>, up: seq<nat>)
    requires h != [] && Embeds(q, h[1..], at)
    requires |up| == |at| && forall i :: 0 <= i < |at| ==> up[i] == at[i] + 1
    ensures Embeds(q, h, up) && forall i :: 0 <= i < |up| ==> up[i] > 0
  {
    forall i | 0 <= i < |up|
      ensures h[up[i]] == q[i]
    {
      assert h[1..][at[i]] == h[at[i] + 1];
    }
  }

  lemma Placed(q: Key, h: Key, up: seq<nat>)
    requires q != [] && h != [] && h[0] == q[0] && Embeds(q[1..], h, up)
    requires forall i :: 0 <= i < |up| ==> up[i] > 0
    ensures Embeds(q, h, [0] + up)
  {
    forall i | 0 < i < |q|
      ensures h[([0] + up)[i]] == q[i]
    {
      assert q[1..][i - 1] == q[i];
    }
  }

  lemma ShiftDown(q: Key, m: nat, n: nat, h: Key, at: seq<nat>)
    requires m <= n <= |q| && h != [] && n == (if m < |q| && h[0] == q[m] then m + 1 else m)
    requires Embeds(q[m..], h, at)
    ensures IsSubsequence(q[n..], h[1..])
  {
    if n == m {
      // The first haystack character serves no query character, so no place is the first.
      assert at != [] ==> h[at[0]] == q[m..][0];
      assert forall i :: 0 <= i < |at| ==> at[i] > 0;
      var down := seq(|at|, i requires 0 <= i < |at| => at[i] - 1);
      assert Embeds(q[n..], h[1..], down);
    } else {
      assert forall i :: 1 <= i < |at| ==> at[0] < at[i];
      var down := seq(|at| - 1, i requires 0 <= i < |at| - 1 => at[i + 1] - 1);
      assert forall i :: 0 <= i < |down| ==> q[n..][i] == q[m..][i + 1];
      assert Embeds(q[n..], h[1..], down);
    }
  }

  /** Run over a whole haystack, the automaton accepts exactly the haystacks the query's characters are
      a subsequence of. */
  lemma AcceptsExactlySubsequences(q: Key, h: Key)
    ensures IsMatch(Text(q), Run(Text(q), 0, Text(h))) <==> IsSubsequence(q, h)
  {
    assert q[..0] == [] && q[0..] == q;
    StateIsABoundary(q, 0, h);
    GreedyIsComplete(q, 0, h);
    BoundaryWithin(q, Greedy(q, 0, h));
  }
}
