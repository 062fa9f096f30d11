/** What a set of single-byte characters costs in leads, and the most of them there is room for: a search
    finds it because no set costs less for having more in it. */
module LeadWidths {
  import opened Spellings

  /** A run of characters cut into pages, the last one short. */
  function Pages(run: nat, page: nat): (ws: seq<nat>)
    requires page >= 1
    ensures forall i :: 0 <= i < |ws| ==> 1 <= ws[i] <= page
  {
    if run == 0 then [] else
      var w := if run < page then run else page;
      [w] + Pages(run - w, page)
  }

  /** The widths of the leads: one for a single, and the pages of each run between singles; `run`
      characters are waiting before the first of `single`. */
  function Widths(single: seq<bool>, run: nat, page: nat): (ws: seq<nat>)
    requires page >= 1
    ensures forall i :: 0 <= i < |ws| ==> 1 <= ws[i] <= page
  {
    if single == [] then Pages(run, page)
    else if single[0] then Pages(run, page) + [1] + Widths(single[1..], 0, page)
    else Widths(single[1..], run + 1, page)
  }

  function Sum(ws: seq<nat>): nat {
    if ws == [] then 0 else ws[0] + Sum(ws[1..])
  }

  lemma {:induction false} SumConcat(a: seq<nat>, b: seq<nat>)
    ensures Sum(a + b) == Sum(a) + Sum(b)
  {
    if a == [] {
      assert a + b == b;
    } else {
      assert (a + b)[1..] == a[1..] + b;
      SumConcat(a[1..], b);
    }
  }

  lemma {:induction false} PagesSum(run: nat, page: nat)
    requires page >= 1
    ensures Sum(Pages(run, page)) == run
  {
    if run > 0 {
      PagesSum(run - if run < page then run else page, page);
    }
  }

  /** The leads cover the characters exactly. */
  lemma {:induction false} WidthsSum(single: seq<bool>, run: nat, page: nat)
    requires page >= 1
    ensures Sum(Widths(single, run, page)) == run + |single|
  {
    PagesSum(run, page);
    if single != [] {
      if single[0] {
        WidthsSum(single[1..], 0, page);
        SumConcat(Pages(run, page) + [1], Widths(single[1..], 0, page));
        SumConcat(Pages(run, page), [1]);
      } else {
        WidthsSum(single[1..], run + 1, page);
      }
    }
  }

  /** Running sums of the widths: where each lead starts in the alphabet, and its end. */
  function FirstsOf(ws: seq<nat>, from: nat): (firsts: seq<nat>)
    ensures |firsts| == |ws| + 1 && firsts[0] == from
  {
    if ws == [] then [from] else [from] + FirstsOf(ws[1..], from + ws[0])
  }

  lemma {:induction false} FirstsSum(ws: seq<nat>, from: nat, page: nat)
    requires forall i :: 0 <= i < |ws| ==> 1 <= ws[i] <= page
    ensures var firsts := FirstsOf(ws, from);
      && firsts[|ws|] == from + Sum(ws)
      && forall l :: 0 <= l < |ws| ==> firsts[l] < firsts[l + 1] <= firsts[l] + page
  {
    if ws != [] {
      FirstsSum(ws[1..], from + ws[0], page);
      var rest := FirstsOf(ws[1..], from + ws[0]);
      var firsts := FirstsOf(ws, from);
      assert firsts[1..] == rest;
      forall l | 0 <= l < |ws|
        ensures firsts[l] < firsts[l + 1] <= firsts[l] + page
      {
        if l > 0 {
          assert firsts[l] == rest[l - 1] && firsts[l + 1] == rest[l];
        }
      }
    }
  }

  lemma {:induction false} PagesMonotone(a: nat, b: nat, page: nat)
    requires page >= 1 && a <= b
    ensures |Pages(a, page)| <= |Pages(b, page)|
  {
    if page < a {
      PagesMonotone(a - page, b - page, page);
    }
  }

  /** Cutting one run into two costs at least as many pages. */
  lemma {:induction false} PagesSubadditive(a: nat, b: nat, page: nat)
    requires page >= 1
    ensures |Pages(a + b, page)| <= |Pages(a, page)| + |Pages(b, page)|
  {
    if a == 0 {
    } else if a <= page {
      PagesMonotone(a + b - (if a + b < page then a + b else page), b, page);
    } else {
      PagesSubadditive(a - page, b, page);
    }
  }

  lemma {:induction false} RunSplits(single: seq<bool>, a: nat, b: nat, page: nat)
    requires page >= 1
    ensures |Widths(single, a + b, page)| <= |Pages(a, page)| + |Widths(single, b, page)|
  {
    PagesSubadditive(a, b, page);
    if single != [] && !single[0] {
      RunSplits(single[1..], a, b + 1, page);
    }
  }

  /** More singles never need fewer leads. */
  lemma {:induction false} WidthsMonotone(s: seq<bool>, t: seq<bool>, run: nat, page: nat)
    requires page >= 1 && |s| == |t|
    requires forall i :: 0 <= i < |s| && s[i] ==> t[i]
    ensures |Widths(s, run, page)| <= |Widths(t, run, page)|
  {
    if s != [] {
      if s[0] {
        WidthsMonotone(s[1..], t[1..], 0, page);
      } else if !t[0] {
        WidthsMonotone(s[1..], t[1..], run + 1, page);
      } else {
        RunSplits(s[1..], run + 1, 0, page);
        PagesSubadditive(run, 1, page);
        assert |Pages(1, page)| == 1;
        WidthsMonotone(s[1..], t[1..], 0, page);
      }
    }
  }

  /** Pages alone fit when the alphabet does. */
  lemma {:induction false} PagesFit(run: nat, page: nat, leads: nat)
    requires page >= 1 && run <= leads * page
    ensures |Pages(run, page)| <= leads
  {
    if run > 0 {
      assert leads >= 1;
      if run > page {
        assert (leads - 1) * page == leads * page - page;
        PagesFit(run - page, page, leads - 1);
      }
    }
  }

  lemma {:induction false} WidthsOfNone(single: seq<bool>, run: nat, page: nat)
    requires page >= 1 && forall i :: 0 <= i < |single| ==> !single[i]
    ensures Widths(single, run, page) == Pages(run + |single|, page)
  {
    if single != [] {
      WidthsOfNone(single[1..], run + 1, page);
    }
  }

  /** The pass that cuts the widths: a run grows until a single or the end flushes it. */
  lemma WidthsFrom(single: seq<bool>, i: nat, run: nat, page: nat)
    requires page >= 1 && i <= |single|
    ensures Widths(single[i..], run, page)
         == if i == |single| then Pages(run, page)
            else if single[i] then Pages(run, page) + ([1] + Widths(single[i + 1..], 0, page))
            else Widths(single[i + 1..], run + 1, page)
  {
    if i < |single| {
      assert single[i..][0] == single[i] && single[i..][1..] == single[i + 1..];
    }
  }

  method CutWidths(single: seq<bool>, page: nat) returns (out: seq<nat>)
    requires page >= 1
    ensures out == Widths(single, 0, page)
  {
    hide Widths, Pages;
    out := [];
    var run := 0;
    assert single[0..] == single;
    for i := 0 to |single|
      invariant out + Widths(single[i..], run, page) == Widths(single, 0, page)
    {
      WidthsFrom(single, i, run, page);
      if single[i] {
        ghost var rest := Widths(single[i + 1..], 0, page);
        assert out + (Pages(run, page) + ([1] + rest)) == out + Pages(run, page) + [1] + rest;
        out := Flush(run, page, out);
        out := out + [1];
        run := 0;
      } else {
        run := run + 1;
      }
    }
    WidthsFrom(single, |single|, run, page);
    out := Flush(run, page, out);
  }

  method Flush(run0: nat, page: nat, out0: seq<nat>) returns (out: seq<nat>)
    requires page >= 1
    ensures out == out0 + Pages(run0, page)
  {
    out := out0;
    var run := run0;
    while run > 0
      invariant 0 <= run
      invariant out + Pages(run, page) == out0 + Pages(run0, page)
    {
      var w := if run < page then run else page;
      assert out + ([w] + Pages(run - w, page)) == (out + [w]) + Pages(run - w, page);
      out := out + [w];
      run := run - w;
    }
  }

  // ----- the search

  /** The first `k` of `ranked` marked. */
  function Marked(n: nat, ranked: seq<nat>, k: nat): seq<bool>
    requires k <= |ranked|
  {
    seq(n, i => i in ranked[..k])
  }

  method Mark(n: nat, ranked: seq<nat>, k: nat) returns (single: seq<bool>)
    requires k <= |ranked| && forall i :: 0 <= i < |ranked| ==> ranked[i] < n
    ensures single == Marked(n, ranked, k)
  {
    single := seq(n, _ => false);
    for j := 0 to k
      invariant |single| == n
      invariant forall i :: 0 <= i < n ==> single[i] == (i in ranked[..j])
    {
      assert ranked[..j + 1] == ranked[..j] + [ranked[j]];
      single := single[ranked[j] := true];
    }
  }

  ghost predicate Fits(n: nat, ranked: seq<nat>, k: nat, page: nat)
    requires page >= 1 && k <= |ranked|
  {
    |Widths(Marked(n, ranked, k), 0, page)| <= LEADS
  }

  lemma FitsDownward(n: nat, ranked: seq<nat>, j: nat, k: nat, page: nat)
    requires page >= 1 && j <= k <= |ranked| && Fits(n, ranked, k, page)
    ensures Fits(n, ranked, j, page)
  {
    assert ranked[..j] == ranked[..k][..j];
    WidthsMonotone(Marked(n, ranked, j), Marked(n, ranked, k), 0, page);
  }

  /** The largest number of the highest-ranked characters that can have a byte of their own. */
  method MostSingles(n: nat, ranked: seq<nat>, page: nat) returns (k: nat)
    requires page >= 1 && n <= LEADS * page
    requires |ranked| == n && forall i :: 0 <= i < n ==> ranked[i] < n
    ensures k <= n && Fits(n, ranked, k, page)
    ensures forall j :: k < j <= n ==> !Fits(n, ranked, j, page)
  {
    var lo, hi := 0, n;
    WidthsOfNone(Marked(n, ranked, 0), 0, page);
    PagesFit(n, page, LEADS);
    while lo < hi
      invariant 0 <= lo <= hi <= n
      invariant Fits(n, ranked, lo, page)
      invariant forall j :: hi < j <= n ==> !Fits(n, ranked, j, page)
    {
      var mid := (lo + hi + 1) / 2;
      var single := Mark(n, ranked, mid);
      var ws := CutWidths(single, page);
      if |ws| <= LEADS {
        lo := mid;
      } else {
        forall j | mid <= j <= n
          ensures !Fits(n, ranked, j, page)
        {
          if Fits(n, ranked, j, page) {
            FitsDownward(n, ranked, mid, j, page);
          }
        }
        hi := mid - 1;
      }
    }
    k := lo;
  }
}
