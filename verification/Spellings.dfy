/** What a character code says: who has a codeword, in what order, and where a query that is no key belongs. */
module Spellings {
  import opened Lex
  import opened Utf8
  import opened Wrappers

  /** Leads a code may use. */
  const LEADS := 128

  datatype Mode = Seven | Eight {
    /** Where the leads start among the bytes. */
    function Base(): (b: byte)
      ensures b == 0 || b == 0x80
    {
      if Seven? then 0 else 0x80
    }

    /** How many characters a lead with a second byte can tell apart. */
    function Page(): nat {
      if Seven? then 128 else 256
    }
  }

  ghost predicate Ascending(s: seq<int>) {
    forall i, j :: 0 <= i < j < |s| ==> s[i] < s[j]
  }

  /** Where `c` is in `chars`, or their number where it is not. */
  function RankOf(chars: Key, c: Scalar): (r: nat)
    ensures r <= |chars|
    ensures r < |chars| ==> chars[r] == c
    ensures r == |chars| ==> c !in chars
  {
    if chars == [] then 0 else if chars[0] == c then 0 else 1 + RankOf(chars[1..], c)
  }

  /** The last entry of `firsts` that is at most `r`: the lead rank `r` is spelled under. */
  function LeadOf(firsts: seq<nat>, r: nat): (l: nat)
    requires |firsts| > 0
    ensures l < |firsts|
  {
    if |firsts| > 1 && firsts[|firsts| - 1] > r then LeadOf(firsts[..|firsts| - 1], r) else |firsts| - 1
  }

  lemma LeadOfIs(firsts: seq<nat>, r: nat, l: nat)
    requires Ascending(firsts)
    requires l + 1 < |firsts| && firsts[l] <= r < firsts[l + 1]
    ensures LeadOf(firsts, r) == l
  {
    if |firsts| == l + 2 {
    } else {
      LeadOfIs(firsts[..|firsts| - 1], r, l);
    }
  }

  /** A character code: its mode, the alphabet in order, and the ranks its leads start at, closed by the size
      of the alphabet. */
  datatype Spelling = Spelling(mode: Mode, chars: Key, firsts: seq<nat>) {

    ghost predicate Valid() {
      && Ascending(chars)
      && 1 <= |firsts| <= LEADS + 1
      && firsts[0] == 0 && firsts[|firsts| - 1] == |chars|
      && (forall l :: 0 <= l < |firsts| - 1 ==> firsts[l] < firsts[l + 1] <= firsts[l] + mode.Page())
      && (mode.Eight? ==> forall i :: 0 <= i < |chars| ==> chars[i] >= 0x80)
    }

    /** Rank `r`'s codeword: a lead of one character alone, else the lead and the place on its page. */
    function CodewordOf(r: nat): seq<byte>
    {
      if |firsts| == 0 then [] else
        var l := LeadOf(firsts, r);
        if l + 1 >= |firsts| || l >= LEADS || r < firsts[l] || r - firsts[l] >= 256 then []
        else if firsts[l + 1] == firsts[l] + 1 then [mode.Base() as int + l]
        else [mode.Base() as int + l, r - firsts[l]]
    }

    /** The character's codeword; empty where it has none. */
    function Spell(c: Scalar): seq<byte> {
      if RankOf(chars, c) < |chars| then CodewordOf(RankOf(chars, c))
      else if mode.Eight? && c < 0x80 then [c as int as byte]
      else []
    }

    ghost function Spelt(): iset<Scalar> {
      iset c: Scalar | Spell(c) != []
    }

    /** A key's whole code. */
    function Code(key: Key): seq<byte> {
      Flat(this.Spell, key)
    }

    ghost predicate Spells(key: Key) {
      Over(key, Spelt())
    }
  }

  lemma {:induction false} FirstsAscend(sp: Spelling)
    requires sp.Valid()
    ensures Ascending(sp.firsts)
  {
    forall i, j | 0 <= i < j < |sp.firsts|
      ensures sp.firsts[i] < sp.firsts[j]
    {
      FirstsApart(sp, i, j);
    }
  }

  lemma {:induction false} FirstsApart(sp: Spelling, i: nat, j: nat)
    requires sp.Valid() && i <= j < |sp.firsts|
    ensures sp.firsts[i] + (j - i) <= sp.firsts[j]
  {
    if i < j {
      FirstsApart(sp, i, j - 1);
    }
  }

  /** Every rank is under a lead. */
  lemma LeadBounds(sp: Spelling, r: nat)
    requires sp.Valid() && r < |sp.chars|
    ensures var l := LeadOf(sp.firsts, r);
      && l + 1 < |sp.firsts| && sp.firsts[l] <= r < sp.firsts[l + 1]
      && r - sp.firsts[l] < 256
      && sp.CodewordOf(r) == if sp.firsts[l + 1] == sp.firsts[l] + 1 then [sp.mode.Base() as int + l]
        else [sp.mode.Base() as int + l, r - sp.firsts[l]]
  {
    FirstsAscend(sp);
    var l := FindLead(sp, r, |sp.firsts| - 1);
    LeadOfIs(sp.firsts, r, l);
  }

  lemma FindLead(sp: Spelling, r: nat, hi: nat) returns (l: nat)
    requires sp.Valid() && hi < |sp.firsts| && r < sp.firsts[hi]
    ensures l + 1 < |sp.firsts| && sp.firsts[l] <= r < sp.firsts[l + 1]
  {
    if sp.firsts[hi - 1] <= r {
      l := hi - 1;
    } else {
      l := FindLead(sp, r, hi - 1);
    }
  }

  lemma RankOfIs(chars: Key, r: nat)
    requires Ascending(chars) && r < |chars|
    ensures RankOf(chars, chars[r]) == r
  {
    var k := RankOf(chars, chars[r]);
    assert chars[r] in chars;
  }

  lemma SpeltIff(sp: Spelling, c: Scalar)
    requires sp.Valid()
    ensures sp.Spell(c) != [] <==> c in sp.chars || (sp.mode.Eight? && c < 0x80)
  {
    if RankOf(sp.chars, c) < |sp.chars| {
      LeadBounds(sp, RankOf(sp.chars, c));
    }
  }

  /** A character's codeword, from where its lead starts: the lead's byte, counted from zero or from `0x80`, and
      the place under the lead where others share it. */
  lemma CodewordIs(sp: Spelling, l: nat, r: nat)
    requires sp.Valid() && l + 1 < |sp.firsts| && sp.firsts[l] <= r < sp.firsts[l + 1]
    ensures r < |sp.chars|
    ensures sp.Spell(sp.chars[r]) == [(if sp.mode.Seven? then l else 128 + l)]
        + if sp.firsts[l + 1] - sp.firsts[l] == 1 then [] else [r - sp.firsts[l]]
  {
    FirstsAscend(sp);
    LeadOfIs(sp.firsts, r, l);
    RankOfIs(sp.chars, r);
    LeadBounds(sp, r);
  }

  /** A codeword is a byte or two. A seven-bit code's are below `0x80`; the other code leaves ASCII as it is, and
      what it spells of the rest starts at `0x80` or above. */
  lemma CodewordBytes(sp: Spelling, c: Scalar)
    requires sp.Valid() && sp.Spell(c) != []
    ensures |sp.Spell(c)| <= 2
    ensures sp.mode.Seven? ==> forall i :: 0 <= i < |sp.Spell(c)| ==> sp.Spell(c)[i] < 0x80
    ensures sp.mode.Eight? && c < 0x80 ==> sp.Spell(c) == [c as int]
    ensures sp.mode.Eight? && c >= 0x80 ==> sp.Spell(c)[0] >= 0x80
  {
    if c in sp.chars {
      LeadBounds(sp, RankOf(sp.chars, c));
    }
  }

  /** The first byte of a codeword says how many it has. */
  lemma LeadTellsLength(sp: Spelling, c: Scalar, d: Scalar)
    requires sp.Valid() && sp.Spell(c) != [] && sp.Spell(d) != [] && sp.Spell(c)[0] == sp.Spell(d)[0]
    ensures |sp.Spell(c)| == |sp.Spell(d)|
  {
    if c in sp.chars {
      LeadBounds(sp, RankOf(sp.chars, c));
    }
    if d in sp.chars {
      LeadBounds(sp, RankOf(sp.chars, d));
    }
  }

  /** No byte of a key in a seven-bit code is above `0x7f`. */
  lemma {:induction false} SevenBitCode(sp: Spelling, key: Key)
    requires sp.Valid() && sp.mode.Seven?
    ensures forall i :: 0 <= i < |sp.Code(key)| ==> sp.Code(key)[i] < 0x80
  {
    if key != [] {
      SevenBitCode(sp, key[1..]);
      if sp.Spell(key[0]) != [] {
        CodewordBytes(sp, key[0]);
      }
      assert sp.Code(key) == sp.Spell(key[0]) + sp.Code(key[1..]);
    }
  }

  /** An ASCII key is its own code where the mode leaves ASCII as it is. */
  lemma {:induction false} EightKeepsAscii(sp: Spelling, key: Key)
    requires sp.Valid() && sp.mode.Eight? && forall i :: 0 <= i < |key| ==> key[i] < 0x80
    ensures sp.Code(key) == key
  {
    if key != [] {
      SpeltIff(sp, key[0]);
      CodewordBytes(sp, key[0]);
      EightKeepsAscii(sp, key[1..]);
    }
  }

  /** A code holds 128 pages: of 128 characters in seven bits, of 256 past ASCII. */
  lemma Holds(sp: Spelling)
    requires sp.Valid()
    ensures |sp.chars| <= if sp.mode.Seven? then 16384 else 32768
  {
    PagesHold(sp, |sp.firsts| - 1);
  }

  lemma {:induction false} PagesHold(sp: Spelling, l: nat)
    requires sp.Valid() && l < |sp.firsts|
    ensures sp.firsts[l] <= l * if sp.mode.Seven? then 128 else 256
  {
    if l > 0 {
      PagesHold(sp, l - 1);
    }
  }

  /** A lower character's codeword is below a higher one's at a byte they both have. */
  lemma SpellAscends(sp: Spelling, c: Scalar, d: Scalar)
    requires sp.Valid() && c < d && sp.Spell(c) != [] && sp.Spell(d) != []
    ensures Below(sp.Spell(c), sp.Spell(d))
  {
    var r, s := RankOf(sp.chars, c), RankOf(sp.chars, d);
    if r < |sp.chars| {
      LeadBounds(sp, r);
      if s < |sp.chars| {
        LeadBounds(sp, s);
        FirstsAscend(sp);
        var l, m := LeadOf(sp.firsts, r), LeadOf(sp.firsts, s);
        assert r < s;
        assert l <= m;
        if l == m {
          BelowByte(sp.Spell(c), sp.Spell(d), 1);
        }
      }
    } else if s < |sp.chars| {
      LeadBounds(sp, s);
    }
  }

  lemma SpellOrdered(sp: Spelling)
    requires sp.Valid()
    ensures Ordered(sp.Spell, sp.Spelt())
  {
    forall c <- sp.Spelt(), d <- sp.Spelt() | c < d
      ensures Below(sp.Spell(c), sp.Spell(d))
    {
      SpellAscends(sp, c, d);
    }
  }

  /** Coded keys sort as the keys' UTF-8 does, are told apart as the keys are, and one is a prefix of
      another exactly where the key is. */
  lemma CodedKeysSortAsKeysDo(sp: Spelling, a: Key, b: Key)
    requires sp.Valid() && sp.Spells(a) && sp.Spells(b)
    ensures Less(sp.Code(a), sp.Code(b)) <==> Less(Text(a), Text(b))
    ensures sp.Code(a) == sp.Code(b) <==> Text(a) == Text(b)
    ensures sp.Code(a) <= sp.Code(b) <==> Text(a) <= Text(b)
  {
    SpellOrdered(sp);
    OrderedCodeKeepsOrder(sp.Spell, sp.Spelt(), a, b);
    TextKeepsOrder(a, b);
  }

  // ----- probes

  datatype Probe = Exact | Absent | Last

  /** How many of the query's first characters have a codeword before the first that has none. */
  function SpeltPrefix(sp: Spelling, query: Key): (k: nat)
    ensures k <= |query|
    ensures k < |query| ==> sp.Spell(query[k]) == []
    ensures forall i :: 0 <= i < k ==> sp.Spell(query[i]) != []
  {
    if query == [] || sp.Spell(query[0]) == [] then 0 else 1 + SpeltPrefix(sp, query[1..])
  }

  /** Characters of the alphabet below `c`. */
  function BelowCount(chars: Key, c: Scalar): (n: nat)
    ensures n <= |chars|
  {
    if chars == [] || chars[0] >= c then 0 else 1 + BelowCount(chars[1..], c)
  }

  lemma BelowCountIs(chars: Key, c: Scalar, n: nat)
    requires n <= |chars|
    requires forall i :: 0 <= i < n ==> chars[i] < c
    requires n < |chars| ==> chars[n] >= c
    ensures BelowCount(chars, c) == n
  {
    if n > 0 {
      BelowCountIs(chars[1..], c, n - 1);
    }
  }

  lemma BelowCountSplits(chars: Key, c: Scalar)
    requires Ascending(chars)
    ensures forall i :: 0 <= i < BelowCount(chars, c) ==> chars[i] < c
    ensures forall i :: BelowCount(chars, c) <= i < |chars| ==> chars[i] >= c
  {
    if chars != [] && chars[0] < c {
      BelowCountSplits(chars[1..], c);
      assert forall i :: 1 <= i < |chars| ==> chars[i] == chars[1..][i - 1];
    }
  }

  /** The place of the last byte that is not `0xff`, as one past it; zero where there is none. */
  function LastBumpable(s: seq<byte>): (n: nat)
    ensures n <= |s|
    ensures n > 0 ==> s[n - 1] != 0xFF
    ensures forall i :: n <= i < |s| ==> s[i] == 0xFF
  {
    if s == [] then 0
    else if s[|s| - 1] != 0xFF then |s|
    else LastBumpable(s[..|s| - 1])
  }

  /** The first string past all that start with `s`: trailing `0xFF`s taken off and the byte before them
      raised. */
  function Bump(s: seq<byte>): Option<seq<byte>> {
    var n := LastBumpable(s);
    if n == 0 then None else Some(s[..n - 1] + [s[n - 1] as int + 1])
  }

  /** `Bump` exactly: a string is below it when it is below `s` or extends it, and where there is no
      bump, every string is. */
  lemma {:induction false} BumpIsTheBoundary(s: seq<byte>, x: seq<byte>)
    ensures Bump(s).Some? ==> (Less(x, Bump(s).value) <==> Less(x, s) || s <= x)
    ensures Bump(s).None? ==> Less(x, s) || s <= x
  {
    if s == [] {
    } else if x == [] {
      assert Less(x, s);
    } else {
      BumpTail(s);
      BumpIsTheBoundary(s[1..], x[1..]);
      PrefixCons(s, x);
      if Bump(s).Some? {
        var b := Bump(s).value;
        if Bump(s[1..]).Some? {
          assert b[0] == s[0] && b[1..] == Bump(s[1..]).value;
        } else {
          assert b[0] == s[0] as int + 1 && b[1..] == [];
          assert !Less(x[1..], []);
        }
      }
    }
  }

  lemma PrefixCons(s: seq<int>, x: seq<int>)
    requires s != [] && x != []
    ensures s <= x <==> s[0] == x[0] && s[1..] <= x[1..]
  {
    assert s == [s[0]] + s[1..] && x == [x[0]] + x[1..];
  }

  lemma {:induction false} BumpTail(s: seq<byte>)
    requires s != []
    ensures match Bump(s[1..])
      case Some(b) => Bump(s) == Some([s[0]] + b)
      case None => Bump(s) == if s[0] == 0xFF then None else Some([s[0] as int + 1])
  {
    LastBumpableTail(s);
    var n := LastBumpable(s[1..]);
    if n > 0 {
      assert s[..n] == [s[0]] + s[1..][..n - 1];
      assert s[..n] + [s[n] as int + 1] == [s[0]] + (s[1..][..n - 1] + [s[1..][n - 1] as int + 1]);
    } else if s[0] != 0xFF {
      assert s[..0] + [s[0] as int + 1] == [s[0] as int + 1];
    }
  }

  lemma {:induction false} LastBumpableTail(s: seq<byte>)
    requires s != []
    ensures LastBumpable(s) == if LastBumpable(s[1..]) > 0 then LastBumpable(s[1..]) + 1
      else if s[0] != 0xFF then 1 else 0
  {
    if |s| > 1 && s[|s| - 1] == 0xFF {
      LastBumpableTail(s[..|s| - 1]);
      assert s[..|s| - 1][1..] == s[1..][..|s| - 2];
    }
  }

  /** What stands for a query that starts `p` and then a character no key holds. */
  function Absentee(sp: Spelling, p: Key, c: Scalar): (Probe, seq<byte>) {
    var next := BelowCount(sp.chars, c);
    if next < |sp.chars| then (Absent, sp.Code(p) + sp.Spell(sp.chars[next]))
    else match Bump(sp.Code(p))
      case Some(b) => (Absent, b)
      case None => (Last, [])
  }

  /** What to look for in place of a query, and which of three answers it makes. */
  function Placed(sp: Spelling, query: Key): (Probe, seq<byte>) {
    var k := SpeltPrefix(sp, query);
    if k == |query| then (Exact, sp.Code(query)) else Absentee(sp, query[..k], query[k])
  }

  /** Swapping a character no key holds, and all that follows it, for the next one that keys do hold
      moves no key from one side to the other. */
  lemma {:induction false} NextSpeltStandsIn(p: Key, c: Scalar, rest: Key, next: Scalar, k: Key)
    requires c < next
    requires forall i :: 0 <= i < |k| ==> k[i] < c || k[i] >= next
    ensures Less(k, p + [next]) <==> Less(k, p + [c] + rest)
    ensures k != p + [c] + rest
  {
    var q := p + [c] + rest;
    if p == [] {
      assert q[0] == c;
      if k != [] {
        assert !Less(k[1..], [next][1..]);
      }
    } else if k != [] {
      assert q[1..] == p[1..] + [c] + rest && q[0] == p[0];
      assert (p + [next])[1..] == p[1..] + [next] && (p + [next])[0] == p[0];
      NextSpeltStandsIn(p[1..], c, rest, next, k[1..]);
    }
  }

  /** A character above all that keys hold puts the query past every key with its prefix. */
  lemma {:induction false} AboveAllPasses(p: Key, c: Scalar, rest: Key, k: Key)
    requires forall i :: 0 <= i < |k| ==> k[i] < c
    ensures Less(k, p + [c] + rest) <==> Less(k, p) || p <= k
    ensures k != p + [c] + rest
  {
    var q := p + [c] + rest;
    if p == [] {
      assert q[0] == c;
    } else if k != [] {
      assert q[1..] == p[1..] + [c] + rest && q[0] == p[0];
      AboveAllPasses(p[1..], c, rest, k[1..]);
      PrefixCons(p, k);
    }
  }

  /** Comparing a key with the probe is comparing it with the query, in each of the three answers. */
  lemma ProbeOrdersAsItsQuery(sp: Spelling, query: Key, key: Key)
    requires sp.Valid() && sp.Spells(key)
    ensures var (probe, bytes) := Placed(sp, query);
      && (probe.Exact? <==> sp.Spells(query))
      && match probe
        case Exact =>
          && (Less(sp.Code(key), bytes) <==> Less(Text(key), Text(query)))
          && (Less(bytes, sp.Code(key)) <==> Less(Text(query), Text(key)))
        case Absent =>
          && Text(key) != Text(query)
          && (Less(sp.Code(key), bytes) <==> Less(Text(key), Text(query)))
        case Last => Less(Text(key), Text(query))
  {
    hide Less, Encode, Text, Spelling.Valid;
    var k := SpeltPrefix(sp, query);
    TextKeepsOrder(key, query);
    if k == |query| {
      assert forall i :: 0 <= i < |query| ==> query[i] in sp.Spelt();
      CodedKeysSortAsKeysDo(sp, key, query);
      CodedKeysSortAsKeysDo(sp, query, key);
    } else {
      assert query[k] !in sp.Spelt();
      assert query == query[..k] + [query[k]] + query[k + 1..];
      ProbeOfAbsent(sp, query, key);
    }
  }

  /** Spelled characters lie on either side of one that is not, those above it from the alphabet's
      next on. */
  lemma SpeltAround(sp: Spelling, c: Scalar, e: Scalar)
    requires sp.Valid() && sp.Spell(c) == [] && sp.Spell(e) != []
    ensures var next := BelowCount(sp.chars, c);
      e < c || (next < |sp.chars| && e >= sp.chars[next] > c)
  {
    SpeltIff(sp, c);
    SpeltIff(sp, e);
    BelowCountSplits(sp.chars, c);
    if e in sp.chars {
      var j :| 0 <= j < |sp.chars| && sp.chars[j] == e;
    }
  }

  lemma KeyAround(sp: Spelling, c: Scalar, key: Key)
    requires sp.Valid() && sp.Spell(c) == [] && sp.Spells(key)
    ensures var next := BelowCount(sp.chars, c);
      forall i :: 0 <= i < |key| ==> key[i] < c || (next < |sp.chars| && key[i] >= sp.chars[next] > c)
  {
    forall i | 0 <= i < |key|
      ensures var next := BelowCount(sp.chars, c);
        key[i] < c || (next < |sp.chars| && key[i] >= sp.chars[next] > c)
    {
      SpeltAround(sp, c, key[i]);
    }
  }

  lemma ProbeOfAbsent(sp: Spelling, query: Key, key: Key)
    requires sp.Valid() && sp.Spells(key) && SpeltPrefix(sp, query) < |query|
    ensures var (probe, bytes) := Placed(sp, query);
      && key != query
      && (probe.Absent? ==> (Less(sp.Code(key), bytes) <==> Less(key, query)))
      && (probe.Last? ==> Less(key, query))
  {
    hide Spelling.Code, Less, Bump, BelowCount, Absentee;
    QueryParts(sp, query);
    var k := SpeltPrefix(sp, query);
    ProbeOfAbsentee(sp, query[..k], query[k], query[k + 1..], key);
  }

  lemma QueryParts(sp: Spelling, query: Key)
    requires SpeltPrefix(sp, query) < |query|
    ensures var k := SpeltPrefix(sp, query);
      query == query[..k] + [query[k]] + query[k + 1..] && sp.Spells(query[..k]) && sp.Spell(query[k]) == []
  {
    hide Spelling.CodewordOf;
  }

  lemma ProbeOfAbsentee(sp: Spelling, p: Key, c: Scalar, rest: Key, key: Key)
    requires sp.Valid() && sp.Spells(key) && sp.Spells(p) && sp.Spell(c) == []
    ensures var (query, (probe, bytes)) := (p + [c] + rest, Absentee(sp, p, c));
      && key != query
      && (probe.Absent? ==> (Less(sp.Code(key), bytes) <==> Less(key, query)))
      && (probe.Last? ==> Less(key, query))
  {
    hide Spelling.Code, Less, Bump, BelowCount;
    KeyAround(sp, c, key);
    var next := BelowCount(sp.chars, c);
    if next < |sp.chars| {
      ProbeBeforeNext(sp, p, c, rest, next, key);
    } else {
      ProbePastPrefix(sp, p, c, rest, key);
    }
  }

  lemma ProbeBeforeNext(sp: Spelling, p: Key, c: Scalar, rest: Key, next: nat, key: Key)
    requires sp.Valid() && sp.Spells(key) && sp.Spells(p)
    requires next == BelowCount(sp.chars, c) < |sp.chars| && sp.Spell(c) == []
    requires forall i :: 0 <= i < |key| ==> key[i] < c || key[i] >= sp.chars[next]
    ensures Less(sp.Code(key), sp.Code(p) + sp.Spell(sp.chars[next])) <==> Less(key, p + [c] + rest)
    ensures key != p + [c] + rest
  {
    var d := sp.chars[next];
    SpeltIff(sp, d);
    SpeltAround(sp, c, d);
    BelowCountSplits(sp.chars, c);
    NextSpeltStandsIn(p, c, rest, d, key);
    FlatConcat(sp.Spell, p, [d]);
    FlatOne(sp.Spell, d);
    SpellOrdered(sp);
    OrderedCodeKeepsOrder(sp.Spell, sp.Spelt(), key, p + [d]);
  }

  lemma ProbePastPrefix(sp: Spelling, p: Key, c: Scalar, rest: Key, key: Key)
    requires sp.Valid() && sp.Spells(key) && sp.Spells(p)
    requires forall i :: 0 <= i < |key| ==> key[i] < c
    ensures match Bump(sp.Code(p))
      case Some(b) => Less(sp.Code(key), b) <==> Less(key, p + [c] + rest)
      case None => Less(key, p + [c] + rest)
    ensures key != p + [c] + rest
  {
    AboveAllPasses(p, c, rest, key);
    BumpIsTheBoundary(sp.Code(p), sp.Code(key));
    SpellOrdered(sp);
    OrderedCodeKeepsOrder(sp.Spell, sp.Spelt(), key, p);
    OrderedCodeKeepsOrder(sp.Spell, sp.Spelt(), p, key);
  }
}
