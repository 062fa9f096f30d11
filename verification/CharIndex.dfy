/** Characters to codewords through two levels: a flat one below U+0800, and from there on pages of 256 whose
    codewords are narrowed to sixteen bits. */
module CharIndex {
  import opened Lex

  /** Code points one page covers. */
  const PAGE := 256
  /** Pages there are: every scalar value is below `0x1100 * 256`. */
  const PAGES := 0x1100
  /** Code points the flat level holds. */
  const LOW := 0x800

  /** A codeword packed in a word: its length on top, then its bytes; zero where there is none. */
  type Word = w: int | 0 <= w < 0x3_0000

  function OneByte(first: byte): Word {
    var f: int := first;
    0x1_0000 + 0x100 * f
  }

  function TwoBytes(first: byte, second: byte): Word {
    var f: int, s: int := first, second;
    0x2_0000 + 0x100 * f + s
  }

  /** The bytes a word writes: none for zero, and the second one only where its length says so. */
  function Bytes(w: Word): seq<byte> {
    var n: int := w;
    if n == 0 then []
    else if n / 0x1_0000 == 2 then [n / 0x100 % 0x100, n % 0x100]
    else [n / 0x100 % 0x100]
  }

  /** Zero, or a word that says how many bytes it writes. */
  predicate Sized(w: Word) {
    w == 0 || w as int >= 0x1_0000
  }

  /** Whether `w` is a codeword whose first byte carries `base` as its top bit. */
  predicate Codeword(w: Word, base: byte) {
    var n: int := w;
    && 0x1_0000 <= n
    && (n / 0x1_0000 == 1 ==> n % 0x100 == 0)
    && base <= n / 0x100 % 0x100 < base as int + 0x80
  }

  /** The narrow form of a codeword: the top bit says that there are two bytes, seven bits are the first's, and
      eight are the second's, a one standing there for want of it so that no codeword narrows to zero. */
  function Narrow(w: Word): (n: nat)
    ensures 0 < n < 0x1_0000
  {
    var v: int := w;
    var lead := v / 0x100 % 0x80;
    if v / 0x1_0000 == 2 then 0x8000 + lead * 0x100 + v % 0x100 else lead * 0x100 + 1
  }

  function Widen(n: nat, base: byte): Word
    requires n < 0x1_0000 && (base == 0 || base == 0x80)
  {
    var b: int := base;
    (1 + n / 0x8000) * 0x1_0000 + (b + n / 0x100 % 0x80) * 0x100 + n % 0x100
  }

  /** Nothing a codeword writes is lost to the narrowing. */
  lemma WidenNarrow(w: Word, base: byte)
    requires base == 0 || base == 0x80
    requires Codeword(w, base)
    ensures Bytes(Widen(Narrow(w), base)) == Bytes(w)
  {
    hide Narrow, Widen;
    var v: int := w;
    var b: int := base;
    var len, first, second := v / 0x1_0000, v / 0x100 % 0x100, v % 0x100;
    NarrowParts(w, base);
    WidenParts(Narrow(w), base);
    assert v == len * 0x1_0000 + first * 0x100 + second;
  }

  lemma NarrowParts(w: Word, base: byte)
    requires base == 0 || base == 0x80
    requires Codeword(w, base)
    ensures var n: int := Narrow(w);
      && n / 0x8000 == w as int / 0x1_0000 - 1 && n / 0x100 % 0x80 == w as int / 0x100 % 0x100 - base
      && n % 0x100 == if w as int / 0x1_0000 == 2 then w as int % 0x100 else 1
  {
    hide Sized, Widen, Bytes;
    var v: int := w;
    var lead := v / 0x100 % 0x100 - base;
    assert v / 0x100 % 0x80 == lead;
  }

  lemma WidenParts(n: nat, base: byte)
    requires base == 0 || base == 0x80
    requires 0 < n < 0x1_0000
    ensures Widen(n, base) as int == (n / 0x8000 + 1) * 0x1_0000 + (n / 0x100 % 0x80 + base) * 0x100 + n % 0x100
  {
  }

  datatype Index = Index(low: seq<Word>, pages: seq<nat>, words: seq<nat>, base: byte) {

    ghost predicate Valid() {
      && (base == 0 || base == 0x80)
      && |low| <= LOW && (forall k :: 0 <= k < |low| ==> Sized(low[k]))
      && |pages| <= PAGES
      && (forall p :: 0 <= p < |pages| ==> pages[p] * PAGE <= |words|)
      && (forall p :: 0 <= p < |pages| && p * PAGE < LOW ==> pages[p] == 0)
      && (forall k :: 0 <= k < |words| ==> words[k] < 0x1_0000)
    }

    /** Look a character up; zero says that it has no codeword. */
    function Get(c: Scalar): (w: Word)
      requires Valid()
      ensures Sized(w)
    {
      var cp: int := c;
      if cp < |low| then low[cp]
      else if cp / PAGE < |pages| && pages[cp / PAGE] != 0 then
        var n := words[(pages[cp / PAGE] - 1) * PAGE + cp % PAGE];
        if n == 0 then 0 else Widen(n, base)
      else 0
    }
  }

  /** The plain map the index stands for: the word last paired with `c`, zero where there is none. */
  function LastWord(spelt: seq<(Scalar, Word)>, c: Scalar): Word {
    if spelt == [] then 0
    else if spelt[|spelt| - 1].0 == c then spelt[|spelt| - 1].1
    else LastWord(spelt[..|spelt| - 1], c)
  }

  lemma LastWordIsPaired(spelt: seq<(Scalar, Word)>, c: Scalar)
    ensures LastWord(spelt, c) != 0 ==> (c, LastWord(spelt, c)) in spelt
  {
    if spelt != [] && spelt[|spelt| - 1].0 != c {
      LastWordIsPaired(spelt[..|spelt| - 1], c);
    }
  }

  function NonZero(pages: seq<nat>): (n: nat)
    ensures n <= |pages|
  {
    if pages == [] then 0 else (if pages[0] != 0 then 1 else 0) + NonZero(pages[1..])
  }

  lemma {:induction false} NonZeroUpdate(pages: seq<nat>, p: nat, v: nat)
    requires p < |pages| && pages[p] == 0 && v != 0
    ensures NonZero(pages[p := v]) == NonZero(pages) + 1
  {
    if p > 0 {
      NonZeroUpdate(pages[1..], p - 1, v);
      assert pages[p := v][1..] == pages[1..][p - 1 := v];
    } else {
      assert pages[p := v][1..] == pages[1..];
    }
  }

  lemma {:induction false} NonZeroPadded(pages: seq<nat>, k: nat)
    ensures NonZero(pages + seq(k, _ => 0)) == NonZero(pages)
  {
    var more := pages + seq(k, _ => 0);
    if pages != [] {
      assert more[1..] == pages[1..] + seq(k, _ => 0);
      NonZeroPadded(pages[1..], k);
    } else if k > 0 {
      assert more[1..] == [] + seq(k - 1, _ => 0);
      NonZeroPadded([], k - 1);
    }
  }

  /** What the pages hold at every slot: the narrowed word of the slot's code point, or zero. */
  ghost predicate PagesHold(pages: seq<nat>, words: seq<nat>, spelt: seq<(Scalar, Word)>) {
    forall c: Scalar :: c >= LOW ==>
      if c / PAGE < |pages| && pages[c / PAGE] != 0 then
        && pages[c / PAGE] * PAGE <= |words|
        && words[(pages[c / PAGE] - 1) * PAGE + c % PAGE] == NarrowOrZero(LastWord(spelt, c))
      else LastWord(spelt, c) == 0
  }

  function NarrowOrZero(w: Word): nat {
    if w == 0 then 0 else Narrow(w)
  }

  ghost predicate LowHolds(low: seq<Word>, spelt: seq<(Scalar, Word)>) {
    forall c: Scalar :: c < LOW ==> LastWord(spelt, c) == if c < |low| then low[c] else 0
  }

  /** The shape of the pages: one allocation each, in the order met, none below the flat level. */
  ghost predicate Laid(pages: seq<nat>, words: seq<nat>) {
    && |pages| <= PAGES
    && |words| == NonZero(pages) * PAGE
    && (forall p :: 0 <= p < |pages| ==> pages[p] <= NonZero(pages))
    && (forall p, q :: 0 <= p < q < |pages| && pages[p] != 0 ==> pages[p] != pages[q])
    && (forall p :: 0 <= p < |pages| && p * PAGE < LOW ==> pages[p] == 0)
    && (forall k :: 0 <= k < |words| ==> words[k] < 0x1_0000)
  }

  method Build(spelt: seq<(Scalar, Word)>, base: byte) returns (index: Index)
    requires base == 0 || base == 0x80
    requires forall i :: 0 <= i < |spelt| ==> spelt[i].1 != 0 && Sized(spelt[i].1)
    requires forall i :: 0 <= i < |spelt| && spelt[i].0 >= LOW ==> Codeword(spelt[i].1, base)
    ensures index.Valid() && index.base == base
    ensures forall c: Scalar :: Bytes(index.Get(c)) == Bytes(LastWord(spelt, c))
    ensures forall c: Scalar :: index.Get(c) == 0 <==> LastWord(spelt, c) == 0
  {
    hide Bytes, Index.Get, Index.Valid, Codeword, LowHolds, PagesHold, Laid, LastWord;
    var low: seq<Word>, pages: seq<nat>, words: seq<nat> := [], [], [];
    NothingPaired();
    for i := 0 to |spelt|
      invariant |low| <= LOW && Laid(pages, words)
      invariant forall k :: 0 <= k < |low| ==> Sized(low[k])
      invariant LowHolds(low, spelt[..i])
      invariant PagesHold(pages, words, spelt[..i])
    {
      var (c, w) := spelt[i];
      assert spelt[..i + 1] == spelt[..i] + [(c, w)];
      if c < LOW {
        LowStored(low, pages, words, spelt[..i], c, w);
        low := Resized(low, c as int + 1)[c := w];
      } else {
        LowKept(low, spelt[..i], c, w);
        pages, words := PlaceOnPage(pages, words, spelt[..i], c, w);
      }
    }
    assert spelt[..|spelt|] == spelt;
    index := Index(low, pages, words, base);
    LaidIsValid(index);
    AllAgree(index, spelt);
  }

  lemma NothingPaired()
    ensures Laid([], []) && LowHolds([], []) && PagesHold([], [], [])
  {
  }

  lemma LaidIsValid(index: Index)
    requires index.base == 0 || index.base == 0x80
    requires |index.low| <= LOW && (forall k :: 0 <= k < |index.low| ==> Sized(index.low[k]))
    requires Laid(index.pages, index.words)
    ensures index.Valid()
  {
  }

  lemma AllAgree(index: Index, spelt: seq<(Scalar, Word)>)
    requires index.Valid() && LowHolds(index.low, spelt) && PagesHold(index.pages, index.words, spelt)
    requires forall i :: 0 <= i < |spelt| && spelt[i].0 >= LOW ==> Codeword(spelt[i].1, index.base)
    ensures forall c: Scalar :: Bytes(index.Get(c)) == Bytes(LastWord(spelt, c))
    ensures forall c: Scalar :: index.Get(c) == 0 <==> LastWord(spelt, c) == 0
  {
    hide Bytes, Index.Get, Index.Valid, Codeword, LowHolds, PagesHold, LastWord;
    forall c: Scalar
      ensures Bytes(index.Get(c)) == Bytes(LastWord(spelt, c))
      ensures index.Get(c) == 0 <==> LastWord(spelt, c) == 0
    {
      GetAgrees(index, spelt, c);
    }
  }

  /** `s.resize(s.len().max(n), 0)`. */
  function Resized(s: seq<Word>, n: nat): seq<Word> {
    if |s| < n then s + seq(n - |s|, _ => 0) else s
  }

  /** The body of the loop for a code point past the flat level. */
  method PlaceOnPage(pages0: seq<nat>, words0: seq<nat>, ghost spelt: seq<(Scalar, Word)>, c: Scalar, w: Word)
    returns (pages: seq<nat>, words: seq<nat>)
    requires c >= LOW && w != 0
    requires Laid(pages0, words0) && PagesHold(pages0, words0, spelt)
    ensures Laid(pages, words) && PagesHold(pages, words, spelt + [(c, w)])
  {
    var cp: int := c;
    pages, words := pages0, words0;
    if |pages| <= cp / PAGE {
      PagesGrown(pages, words, spelt, cp / PAGE + 1 - |pages|);
      pages := pages + seq(cp / PAGE + 1 - |pages|, _ => 0);
    }
    if pages[cp / PAGE] == 0 {
      PageAdded(pages, words, spelt, cp / PAGE);
      words := words + seq(PAGE, _ => 0);
      pages := pages[cp / PAGE := |words| / PAGE];
    }
    WordStored(pages, words, spelt, c, w);
    words := words[(pages[cp / PAGE] - 1) * PAGE + cp % PAGE := Narrow(w)];
  }

  lemma LowStored(low: seq<Word>, pages: seq<nat>, words: seq<nat>, spelt: seq<(Scalar, Word)>, c: Scalar, w: Word)
    requires c < LOW && |low| <= LOW && LowHolds(low, spelt) && PagesHold(pages, words, spelt)
    ensures LowHolds(Resized(low, c as int + 1)[c := w], spelt + [(c, w)])
    ensures PagesHold(pages, words, spelt + [(c, w)])
  {
    LastWordAppend(spelt, c, w);
  }

  lemma LowKept(low: seq<Word>, spelt: seq<(Scalar, Word)>, c: Scalar, w: Word)
    requires c >= LOW && LowHolds(low, spelt)
    ensures LowHolds(low, spelt + [(c, w)])
  {
    LastWordAppend(spelt, c, w);
  }

  lemma GetAgrees(index: Index, spelt: seq<(Scalar, Word)>, c: Scalar)
    requires index.Valid()
    requires LowHolds(index.low, spelt) && PagesHold(index.pages, index.words, spelt)
    requires forall i :: 0 <= i < |spelt| && spelt[i].0 >= LOW ==> Codeword(spelt[i].1, index.base)
    ensures Bytes(index.Get(c)) == Bytes(LastWord(spelt, c))
    ensures index.Get(c) == 0 <==> LastWord(spelt, c) == 0
  {
    hide LastWord, Bytes;
    LastWordIsPaired(spelt, c);
    if c >= LOW && LastWord(spelt, c) != 0 {
      WidenNarrow(LastWord(spelt, c), index.base);
    }
  }

  lemma LastWordAppend(spelt: seq<(Scalar, Word)>, c: Scalar, w: Word)
    ensures forall d: Scalar :: LastWord(spelt + [(c, w)], d) == if d == c then w else LastWord(spelt, d)
  {
    assert (spelt + [(c, w)])[..|spelt|] == spelt;
  }

  lemma PagesGrown(pages: seq<nat>, words: seq<nat>, spelt: seq<(Scalar, Word)>, k: nat)
    requires Laid(pages, words) && PagesHold(pages, words, spelt) && |pages| + k <= PAGES
    ensures Laid(pages + seq(k, _ => 0), words) && PagesHold(pages + seq(k, _ => 0), words, spelt)
  {
    NonZeroPadded(pages, k);
  }

  /** A page met first gets the next 256 words, all zero; its number fits sixteen bits. */
  lemma PageAdded(pages: seq<nat>, words: seq<nat>, spelt: seq<(Scalar, Word)>, p: nat)
    requires Laid(pages, words) && PagesHold(pages, words, spelt)
    requires p < |pages| && pages[p] == 0 && p * PAGE >= LOW
    ensures var words' := words + seq(PAGE, _ => 0);
      var pages' := pages[p := |words'| / PAGE];
      pages'[p] < 0x1_0000 && Laid(pages', words') && PagesHold(pages', words', spelt)
  {
    var words' := words + seq(PAGE, _ => 0);
    NonZeroUpdate(pages, p, |words'| / PAGE);
    var pages' := pages[p := |words'| / PAGE];
    forall c: Scalar | c >= LOW && c / PAGE < |pages'| && pages'[c / PAGE] != 0
      ensures pages'[c / PAGE] * PAGE <= |words'|
      ensures words'[(pages'[c / PAGE] - 1) * PAGE + c % PAGE] == NarrowOrZero(LastWord(spelt, c))
    {
    }
  }

  lemma WordStored(pages: seq<nat>, words: seq<nat>, spelt: seq<(Scalar, Word)>, c: Scalar, w: Word)
    requires Laid(pages, words) && PagesHold(pages, words, spelt)
    requires c >= LOW && w != 0 && c / PAGE < |pages| && pages[c / PAGE] != 0
    ensures var at := (pages[c / PAGE] - 1) * PAGE + c % PAGE;
      && at < |words|
      && Laid(pages, words[at := Narrow(w)])
      && PagesHold(pages, words[at := Narrow(w)], spelt + [(c, w)])
  {
    LastWordAppend(spelt, c, w);
    var at := (pages[c / PAGE] - 1) * PAGE + c % PAGE;
    var words' := words[at := Narrow(w)];
    forall d: Scalar | d >= LOW && d / PAGE < |pages| && pages[d / PAGE] != 0
      ensures pages[d / PAGE] * PAGE <= |words'|
      ensures words'[(pages[d / PAGE] - 1) * PAGE + d % PAGE] == NarrowOrZero(LastWord(spelt + [(c, w)], d))
    {
      if d != c {
        SlotsApart(pages[d / PAGE], d % PAGE, pages[c / PAGE], c % PAGE);
      }
    }
  }

  lemma SlotsApart(p: nat, i: nat, q: nat, j: nat)
    requires p != q || i != j
    requires i < PAGE && j < PAGE
    ensures (p - 1) * PAGE + i != (q - 1) * PAGE + j
  {
  }
}
