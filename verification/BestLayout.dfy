/** What a layout is to be judged by, apart from how it is found: whom it gives a byte, where its other leads are
    cut, and what it spells a text in. */
module BestLayout {
  import opened Lex
  import opened Spellings
  import opened LeadWidths

  // ----- the promise

  /** `chars` from the most frequent in `text` down, the lower of two as frequent first. */
  ghost predicate ByFrequency(text: Key, chars: Key, ranked: Key) {
    && multiset(ranked) == multiset(chars)
    && forall i, j :: 0 <= i < j < |ranked| ==>
         || multiset(text)[ranked[i]] > multiset(text)[ranked[j]]
         || (multiset(text)[ranked[i]] == multiset(text)[ranked[j]] && ranked[i] < ranked[j])
  }

  /** How many characters of `text` are among `some`. */
  ghost function Occurring(text: Key, some: Key): nat {
    if text == [] then 0
    else Occurring(text[..|text| - 1], some) + if text[|text| - 1] in some then 1 else 0
  }

  /** Whether some code of the alphabet gives each of `some` a byte of its own. */
  ghost predicate RoomFor(mode: Mode, chars: Key, some: Key) {
    exists sp: Spelling :: sp.Valid() && sp.mode == mode && sp.chars == chars && Singles(sp, some)
  }

  ghost predicate Singles(sp: Spelling, some: Key) {
    forall c <- some :: |sp.Spell(c)| == 1
  }

  /** No more of the most frequent characters than the first `k` have room. */
  ghost predicate MostRoom(mode: Mode, chars: Key, ranked: Key, k: nat) {
    && k <= |ranked| && RoomFor(mode, chars, ranked[..k])
    && forall j :: k < j <= |ranked| ==> !RoomFor(mode, chars, ranked[..j])
  }

  /** Each of `some` has a lead to itself, and every other is a whole page unless the alphabet or one of
      `some` ends it. */
  ghost predicate CutAround(sp: Spelling, some: Key) {
    forall l :: 0 <= l < |sp.firsts| - 1 ==>
      CutWell(sp.firsts[l], sp.firsts[l + 1], MarksOf(sp.chars, some), WholePage(sp.mode))
  }

  function WholePage(mode: Mode): nat {
    if mode.Seven? then 128 else 256
  }

  ghost function MarksOf(chars: Key, some: Key): (marks: seq<bool>)
    ensures |marks| == |chars|
  {
    seq(|chars|, r requires 0 <= r < |chars| => chars[r] in some)
  }

  ghost predicate CutWell(from: nat, end: nat, marks: seq<bool>, page: nat) {
    && from < end <= |marks|
    && (forall r :: from <= r < end && marks[r] ==> end == from + 1)
    && (end == from + page || end == |marks| || marks[end] || marks[from])
  }

  /** The layout for a text: its characters, or those past ASCII, over the one mode that holds them; and as many
      of the most frequent as there is room for by themselves, if they are a tenth of the text. */
  ghost predicate LaidOutFor(text: Key, sp: Spelling) {
    && sp.Valid()
    && (sp.mode.Seven? <==> |set c: Scalar | c in text| <= 16384)
    && (forall c: Scalar :: c in sp.chars <==> c in text && (sp.mode.Seven? || c >= 0x80))
    && exists ranked, k :: ByFrequency(text, sp.chars, ranked) && MostRoom(sp.mode, sp.chars, ranked, k)
         && CutAround(sp, if Occurring(text, ranked[..k]) * 10 >= |text| then ranked[..k] else [])
  }

  // ----- the cuts the widths make

  ghost predicate AllCut(firsts: seq<nat>, marks: seq<bool>, page: nat) {
    forall l :: 0 <= l < |firsts| - 1 ==> CutWell(firsts[l], firsts[l + 1], marks, page)
  }

  lemma {:induction false} FirstsConcat(a: seq<nat>, b: seq<nat>, from: nat)
    ensures FirstsOf(a + b, from) == FirstsOf(a, from)[..|a|] + FirstsOf(b, from + Sum(a))
    ensures FirstsOf(a, from)[|a|] == from + Sum(a)
  {
    if a == [] {
      assert a + b == b;
    } else {
      assert (a + b)[0] == a[0] && (a + b)[1..] == a[1..] + b;
      FirstsConcat(a[1..], b, from + a[0]);
      var rest := FirstsOf(a[1..], from + a[0]);
      assert FirstsOf(a, from) == [from] + rest;
      assert FirstsOf(a, from)[..|a|] == [from] + rest[..|a| - 1];
    }
  }

  lemma CutBoth(a: seq<nat>, b: seq<nat>, from: nat, marks: seq<bool>, page: nat)
    requires AllCut(FirstsOf(a, from), marks, page) && AllCut(FirstsOf(b, from + Sum(a)), marks, page)
    ensures AllCut(FirstsOf(a + b, from), marks, page)
  {
    hide CutWell;
    FirstsConcat(a, b, from);
    var f, g, h := FirstsOf(a, from), FirstsOf(b, from + Sum(a)), FirstsOf(a + b, from);
    forall l | 0 <= l < |h| - 1
      ensures CutWell(h[l], h[l + 1], marks, page)
    {
      if l < |a| {
        assert h[l] == f[l] && h[l + 1] == f[l + 1];
      } else {
        assert h[l] == g[l - |a|] && h[l + 1] == g[l - |a| + 1];
      }
    }
  }

  /** A run of unmarked characters with the end or a marked one behind it. */
  lemma {:induction false} PagesCut(from: nat, end: nat, marks: seq<bool>, page: nat)
    requires page >= 1 && from <= end <= |marks| && (end == |marks| || marks[end])
    requires forall r :: from <= r < end ==> !marks[r]
    ensures AllCut(FirstsOf(Pages(end - from, page), from), marks, page)
    decreases end - from
  {
    if from < end {
      var w := if end - from < page then end - from else page;
      PagesCut(from + w, end, marks, page);
      var rest := Pages(end - from - w, page);
      assert FirstsOf([w], from) == [from, from + w] by {
        assert FirstsOf([], from + w) == [from + w];
      }
      assert Sum([w]) == w + Sum([]);
      CutBoth([w], rest, from, marks, page);
    }
  }

  lemma OneCut(at: nat, marks: seq<bool>, page: nat)
    requires at < |marks| && marks[at]
    ensures AllCut(FirstsOf([1], at), marks, page)
  {
    assert FirstsOf([1], at) == [at] + FirstsOf([], at + 1);
  }

  lemma {:induction false} WidthsCut(marks: seq<bool>, i: nat, run: nat, page: nat)
    requires page >= 1 && run <= i <= |marks| && forall r :: i - run <= r < i ==> !marks[r]
    ensures AllCut(FirstsOf(Widths(marks[i..], run, page), i - run), marks, page)
    decreases |marks| - i
  {
    hide CutWell, AllCut, FirstsOf, Widths;
    WidthsFrom(marks, i, run, page);
    if i == |marks| {
      PagesCut(i - run, i, marks, page);
    } else if marks[i] {
      WidthsCut(marks, i + 1, 0, page);
      MarkedCut(marks, i, run, Widths(marks[i + 1..], 0, page), page);
    } else {
      WidthsCut(marks, i + 1, run + 1, page);
    }
  }

  /** A run, the marked character behind it, and what is cut behind that. */
  lemma MarkedCut(marks: seq<bool>, i: nat, run: nat, rest: seq<nat>, page: nat)
    requires page >= 1 && run <= i < |marks| && marks[i] && forall r :: i - run <= r < i ==> !marks[r]
    requires AllCut(FirstsOf(rest, i + 1), marks, page)
    ensures AllCut(FirstsOf(Pages(run, page) + ([1] + rest), i - run), marks, page)
  {
    hide CutWell, AllCut, FirstsOf, Pages;
    PagesCut(i - run, i, marks, page);
    PagesSum(run, page);
    OneCut(i, marks, page);
    assert Sum([1]) == 1 + Sum([]);
    CutBoth([1], rest, i, marks, page);
    CutBoth(Pages(run, page), [1] + rest, i - run, marks, page);
  }

  // ----- no code does with fewer leads

  /** Characters that are not marked join the run waiting. */
  lemma {:induction false} WidthsSkip(marks: seq<bool>, w: nat, run: nat, page: nat)
    requires page >= 1 && w <= |marks| && forall r :: 0 <= r < w ==> !marks[r]
    ensures Widths(marks, run, page) == Widths(marks[w..], run + w, page)
  {
    if w == 0 {
      assert marks[0..] == marks;
    } else {
      assert marks[1..][w - 1..] == marks[w..];
      WidthsSkip(marks[1..], w - 1, run + 1, page);
    }
  }

  /** One lead's stretch costs the widths at most one. */
  lemma StretchCosts(marks: seq<bool>, from: nat, end: nat, page: nat)
    requires page >= 1 && from < end <= |marks| && end <= from + page
    requires forall r :: from <= r < end && marks[r] ==> end == from + 1
    ensures |Widths(marks[from..], 0, page)| <= 1 + |Widths(marks[end..], 0, page)|
  {
    var rest := marks[from..];
    assert rest[end - from..] == marks[end..];
    if marks[from] {
      assert rest[0] && rest[1..] == marks[end..];
      assert Pages(0, page) == [];
    } else {
      assert forall r :: from <= r < end ==> !marks[r];
      WidthsSkip(rest, end - from, 0, page);
      RunSplits(marks[end..], end - from, 0, page);
      assert Pages(end - from, page) == [end - from] + Pages(0, page);
    }
  }

  /** Every marked character is a lead of its own. */
  ghost predicate MarkedAlone(sp: Spelling, marks: seq<bool>) {
    forall k, r {:trigger sp.firsts[k], marks[r]} ::
      0 <= k < |sp.firsts| - 1 && sp.firsts[k] <= r < sp.firsts[k + 1] && r < |marks| && marks[r] ==>
        sp.firsts[k + 1] == sp.firsts[k] + 1
  }

  /** From lead `l` on, a code that gives every marked character a lead has at least as many as the widths. */
  lemma {:induction false} NoFewerFrom(sp: Spelling, marks: seq<bool>, l: nat)
    requires sp.Valid() && l < |sp.firsts| && |marks| == |sp.chars| && sp.firsts[l] <= |marks| && MarkedAlone(sp, marks)
    ensures |Widths(marks[sp.firsts[l]..], 0, WholePage(sp.mode))| <= |sp.firsts| - 1 - l
    decreases |sp.firsts| - l
  {
    hide Widths;
    FirstsAscend(sp);
    if l == |sp.firsts| - 1 {
      assert marks[sp.firsts[l]..] == [];
      NothingCut(WholePage(sp.mode));
    } else {
      assert sp.firsts[l + 1] <= |marks|;
      NoFewerFrom(sp, marks, l + 1);
      StretchCosts(marks, sp.firsts[l], sp.firsts[l + 1], WholePage(sp.mode));
    }
  }

  lemma NothingCut(page: nat)
    requires page >= 1
    ensures Widths([], 0, page) == []
  {
  }

  lemma SingleIsALead(sp: Spelling, some: Key, k: nat, r: nat)
    requires sp.Valid() && Singles(sp, some) && k < |sp.firsts| - 1 && sp.firsts[k] <= r < sp.firsts[k + 1]
    requires r < |sp.chars| && sp.chars[r] in some
    ensures sp.firsts[k + 1] == sp.firsts[k] + 1
  {
    RankOfIs(sp.chars, r);
    LeadBounds(sp, r);
    FirstsAscend(sp);
    LeadOfIs(sp.firsts, r, k);
  }

  lemma NoFewerLeads(sp: Spelling, some: Key)
    requires sp.Valid() && Singles(sp, some)
    ensures |Widths(MarksOf(sp.chars, some), 0, WholePage(sp.mode))| <= |sp.firsts| - 1
  {
    var marks := MarksOf(sp.chars, some);
    forall k, r {:trigger sp.firsts[k], marks[r]} |
      0 <= k < |sp.firsts| - 1 && sp.firsts[k] <= r < sp.firsts[k + 1] && r < |marks| && marks[r]
      ensures sp.firsts[k + 1] == sp.firsts[k] + 1
    {
      SingleIsALead(sp, some, k, r);
    }
    assert MarkedAlone(sp, marks);
    assert marks[sp.firsts[0]..] == marks;
    NoFewerFrom(sp, marks, 0);
  }

  // ----- the layout the widths make

  ghost function WidthsLayout(mode: Mode, chars: Key, some: Key): Spelling {
    Spelling(mode, chars, FirstsOf(Widths(MarksOf(chars, some), 0, WholePage(mode)), 0))
  }

  /** The widths' layout around some of the alphabet, where its leads fit. */
  lemma WidthsLayoutIs(mode: Mode, chars: Key, some: Key)
    requires Ascending(chars) && (mode.Eight? ==> forall i :: 0 <= i < |chars| ==> chars[i] >= 0x80)
    requires |Widths(MarksOf(chars, some), 0, WholePage(mode))| <= LEADS
    ensures var sp := WidthsLayout(mode, chars, some); sp.Valid() && CutAround(sp, some)
  {
    hide CutWell, Widths;
    var marks, page := MarksOf(chars, some), WholePage(mode);
    assert mode.Page() == page;
    assert marks[0..] == marks;
    WidthsSum(marks, 0, page);
    FirstsSum(Widths(marks, 0, page), 0, page);
    WidthsCut(marks, 0, 0, page);
  }

  lemma CutAroundSingles(sp: Spelling, some: Key)
    requires sp.Valid() && CutAround(sp, some) && forall c <- some :: c in sp.chars
    ensures Singles(sp, some)
  {
    forall c <- some
      ensures |sp.Spell(c)| == 1
    {
      var r := RankOf(sp.chars, c);
      LeadBounds(sp, r);
      var l := LeadOf(sp.firsts, r);
      assert CutWell(sp.firsts[l], sp.firsts[l + 1], MarksOf(sp.chars, some), WholePage(sp.mode));
      assert MarksOf(sp.chars, some)[r];
    }
  }

  /** There is room for some of the alphabet exactly where the widths around them are no more than the leads. */
  lemma RoomIff(mode: Mode, chars: Key, some: Key)
    requires Ascending(chars) && (mode.Eight? ==> forall i :: 0 <= i < |chars| ==> chars[i] >= 0x80)
    requires forall c <- some :: c in chars
    ensures RoomFor(mode, chars, some) <==> |Widths(MarksOf(chars, some), 0, WholePage(mode))| <= LEADS
  {
    hide Widths, CutAround, Singles, Spelling.Valid;
    if RoomFor(mode, chars, some) {
      var sp: Spelling :| sp.Valid() && sp.mode == mode && sp.chars == chars && Singles(sp, some);
      NoFewerLeads(sp, some);
      LeadsBound(sp);
    }
    if |Widths(MarksOf(chars, some), 0, WholePage(mode))| <= LEADS {
      WidthsLayoutIs(mode, chars, some);
      CutAroundSingles(WidthsLayout(mode, chars, some), some);
    }
  }

  lemma LeadsBound(sp: Spelling)
    requires sp.Valid()
    ensures |sp.firsts| - 1 <= LEADS
  {
  }

  // ----- sums over a text

  /** Over the characters of `text` among `some`, the sum of `f`. */
  ghost function Weighed(text: Key, some: Key, f: Scalar -> nat): nat {
    if text == [] then 0
    else
      var c := text[|text| - 1];
      Weighed(text[..|text| - 1], some, f) + if c in some then f(c) else 0
  }

  /** A list of characters, each once, with a number to each. */
  ghost function ListSum(chars: Key, times: seq<nat>, f: Scalar -> nat): nat
    requires |times| == |chars|
  {
    if chars == [] then 0
    else ListSum(chars[..|chars| - 1], times[..|chars| - 1], f) + times[|chars| - 1] * f(chars[|chars| - 1])
  }

  lemma {:induction false} ListSumFront(chars: Key, times: seq<nat>, f: Scalar -> nat)
    requires |times| == |chars| > 0
    ensures ListSum(chars, times, f) == times[0] * f(chars[0]) + ListSum(chars[1..], times[1..], f)
  {
    var n := |chars| - 1;
    if n > 0 {
      ListSumFront(chars[..n], times[..n], f);
      assert chars[..n][1..] == chars[1..][..n - 1] && times[..n][1..] == times[1..][..n - 1];
    }
  }

  ghost predicate Once(chars: Key) {
    forall i, j :: 0 <= i < j < |chars| ==> chars[i] != chars[j]
  }

  ghost function TimesIn(text: Key, chars: Key): (times: seq<nat>)
    ensures |times| == |chars|
  {
    seq(|chars|, i requires 0 <= i < |chars| => multiset(text)[chars[i]])
  }

  lemma {:induction false} NoTimes(chars: Key, f: Scalar -> nat)
    ensures ListSum(chars, TimesIn([], chars), f) == 0
  {
    if chars != [] {
      var n := |chars| - 1;
      assert TimesIn([], chars)[..n] == TimesIn([], chars[..n]);
      NoTimes(chars[..n], f);
    }
  }

  /** One more character at the end of the text adds its weight, if it is listed. */
  lemma {:induction false} OneMoreListed(chars: Key, text: Key, c: Scalar, f: Scalar -> nat)
    requires Once(chars)
    ensures ListSum(chars, TimesIn(text + [c], chars), f)
         == ListSum(chars, TimesIn(text, chars), f) + if c in chars then f(c) else 0
  {
    if chars != [] {
      var n := |chars| - 1;
      var front, last := chars[..n], chars[n];
      OneMoreListed(front, text, c, f);
      assert TimesIn(text + [c], chars)[..n] == TimesIn(text + [c], front);
      assert TimesIn(text, chars)[..n] == TimesIn(text, front);
      assert chars == front + [last];
      if c == last {
        assert c !in front;
        var m := multiset(text)[last];
        assert multiset(text + [c])[last] == m + 1;
        assert (m + 1) * f(c) == m * f(c) + f(c);
      } else {
        assert multiset(text + [c])[last] == multiset(text)[last];
      }
    }
  }

  /** A sum over a list with each character's occurrences is one over the text. */
  lemma {:induction false} ListSumIsWeighed(chars: Key, text: Key, f: Scalar -> nat)
    requires Once(chars)
    ensures ListSum(chars, TimesIn(text, chars), f) == Weighed(text, chars, f)
  {
    if text == [] {
      NoTimes(chars, f);
    } else {
      var n := |text| - 1;
      assert text == text[..n] + [text[n]];
      ListSumIsWeighed(chars, text[..n], f);
      OneMoreListed(chars, text[..n], text[n], f);
    }
  }

  lemma {:induction false} WeighedByOne(text: Key, some: Key)
    ensures Weighed(text, some, _ => 1) == Occurring(text, some)
  {
    if text != [] {
      WeighedByOne(text[..|text| - 1], some);
    }
  }

  lemma {:induction false} AllOccur(text: Key, chars: Key)
    requires forall c <- text :: c in chars
    ensures Occurring(text, chars) == |text|
  {
    if text != [] {
      AllOccur(text[..|text| - 1], chars);
    }
  }

  /** What a text is coded in is the sum of its characters' codewords. */
  lemma {:induction false} WeighedByCode(sp: Spelling, text: Key, chars: Key)
    requires forall c <- text :: c in chars
    ensures Weighed(text, chars, c => |sp.Spell(c)|) == |sp.Code(text)|
  {
    if text != [] {
      var n := |text| - 1;
      assert text == text[..n] + [text[n]];
      WeighedByCode(sp, text[..n], chars);
      FlatConcat(sp.Spell, text[..n], [text[n]]);
      FlatOne(sp.Spell, text[n]);
    }
  }

  // ----- lists of distinct characters

  lemma {:induction false} OnceCounted(chars: Key, c: Scalar)
    requires Once(chars)
    ensures multiset(chars)[c] == if c in chars then 1 else 0
  {
    if chars != [] {
      var front, last := chars[..|chars| - 1], chars[|chars| - 1];
      OnceCounted(front, c);
      assert chars == front + [last];
      assert c == last ==> c !in front;
    }
  }

  lemma SameOnce(a: Key, b: Key)
    requires Once(a) && Once(b) && forall c: Scalar :: c in a <==> c in b
    ensures multiset(a) == multiset(b)
  {
    forall c: Scalar
      ensures multiset(a)[c] == multiset(b)[c]
    {
      OnceCounted(a, c);
      OnceCounted(b, c);
    }
  }

  lemma {:induction false} SetOfOnce(chars: Key, s: set<Scalar>)
    requires Once(chars) && forall c: Scalar :: c in s <==> c in chars
    ensures |s| == |chars|
  {
    if chars == [] {
      assert s == {};
    } else {
      var front, last := chars[..|chars| - 1], chars[|chars| - 1];
      assert chars == front + [last];
      SetOfOnce(front, s - {last});
    }
  }
}
