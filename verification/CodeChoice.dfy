/** Choosing a code for a set of keys: count their characters, give single bytes to the most frequent while
    there are leads for it, and drop the code where its table costs more than it saves. */
module CodeChoice {
  import opened Lex
  import opened Utf8
  import opened Spellings
  import opened Wrappers
  import opened CodeTable
  import opened CharIndex
  import opened CharCodes
  import opened LeadWidths
  import opened BestLayout

  // ----- the alphabet of a tally

  type Counts = seq<(Scalar, nat)>

  function CharsOf(counts: Counts): (chars: Key)
    ensures |chars| == |counts|
  {
    seq(|counts|, i requires 0 <= i < |counts| => counts[i].0)
  }

  function Total(counts: Counts): nat {
    if counts == [] then 0 else counts[0].1 + Total(counts[1..])
  }

  /** Whether `a` is ranked above `b`: more frequent, or as frequent and earlier. */
  predicate Before(counts: Counts, a: nat, b: nat)
    requires a < |counts| && b < |counts|
  {
    counts[a].1 > counts[b].1 || (counts[a].1 == counts[b].1 && a < b)
  }

  ghost predicate Ranking(counts: Counts, ranked: seq<nat>) {
    && (forall i :: 0 <= i < |ranked| ==> ranked[i] < |counts|)
    && (forall i, j :: 0 <= i < j < |ranked| ==> Before(counts, ranked[i], ranked[j]))
    && (forall a :: 0 <= a < |counts| ==> a in ranked)
    && |ranked| == |counts|
  }

  /** One more character put in its place among those ranked. */
  lemma RankedIn(counts: Counts, ranked: seq<nat>, at: nat, a: nat)
    requires at <= |ranked| == a < |counts| && forall i :: 0 <= i < a ==> ranked[i] < a
    requires forall i, j :: 0 <= i < j < a ==> Before(counts, ranked[i], ranked[j])
    requires at > 0 ==> counts[ranked[at - 1]].1 >= counts[a].1
    requires forall i :: at <= i < |ranked| ==> Before(counts, a, ranked[i])
    ensures var next := ranked[..at] + [a] + ranked[at..];
      && (forall i :: 0 <= i < a + 1 ==> next[i] < a + 1)
      && forall i, j :: 0 <= i < j < a + 1 ==> Before(counts, next[i], next[j])
  {
    forall i | 0 <= i < at
      ensures Before(counts, ranked[i], a)
    {
      assert i < at - 1 ==> Before(counts, ranked[i], ranked[at - 1]);
    }
  }

  lemma AllRankedIn(ranked: seq<nat>, at: nat, a: nat)
    requires at <= |ranked| && forall b :: 0 <= b < a ==> b in ranked
    ensures forall b :: 0 <= b < a + 1 ==> b in ranked[..at] + [a] + ranked[at..]
  {
    var next := ranked[..at] + [a] + ranked[at..];
    assert next[at] == a;
    forall b | 0 <= b < a
      ensures b in next
    {
      assert b in ranked;
      var i :| 0 <= i < |ranked| && ranked[i] == b;
      assert next[if i < at then i else i + 1] == b;
    }
  }

  /** The characters by descending frequency. */
  method Rank(counts: Counts) returns (ranked: seq<nat>)
    ensures Ranking(counts, ranked)
  {
    ranked := [];
    for a := 0 to |counts|
      invariant |ranked| == a
      invariant forall i :: 0 <= i < a ==> ranked[i] < a
      invariant forall i, j :: 0 <= i < j < a ==> Before(counts, ranked[i], ranked[j])
      invariant forall b :: 0 <= b < a ==> b in ranked
    {
      var at := |ranked|;
      while at > 0 && counts[ranked[at - 1]].1 < counts[a].1
        invariant 0 <= at <= |ranked|
        invariant forall i :: at <= i < |ranked| ==> Before(counts, a, ranked[i])
      {
        at := at - 1;
      }
      RankedIn(counts, ranked, at, a);
      AllRankedIn(ranked, at, a);
      ranked := ranked[..at] + [a] + ranked[at..];
    }
  }

  /** How often the `k` highest-ranked characters occur, together. */
  function Covered(counts: Counts, ranked: seq<nat>, k: nat): nat
    requires k <= |ranked| && forall i :: 0 <= i < |ranked| ==> ranked[i] < |counts|
  {
    if k == 0 then 0 else Covered(counts, ranked, k - 1) + counts[ranked[k - 1]].1
  }

  ghost predicate CountsAscend(counts: Counts) {
    Ascending(CharsOf(counts))
  }

  /** The number of ASCII characters an alphabet begins with. */
  function AsciiCount(counts: Counts): (n: nat)
    ensures n <= |counts|
    ensures forall i :: 0 <= i < n ==> counts[i].0 < 0x80
    ensures n < |counts| ==> counts[n].0 >= 0x80
  {
    if counts == [] || counts[0].0 >= 0x80 then 0 else 1 + AsciiCount(counts[1..])
  }

  /** The mode an alphabet calls for: seven bits where 128 pages of 128 hold all of it. */
  function ModeFor(counts: Counts): Mode {
    if |counts| <= LEADS * 128 then Seven else Eight
  }

  /** What the code must spell: everything, or everything past ASCII. */
  function Spelled(counts: Counts): Counts {
    if ModeFor(counts).Seven? then counts else counts[AsciiCount(counts)..]
  }

  /** How many characters are given a byte: as many as fit, where they are a tenth of all that is
      written, and none otherwise. */
  function Granted(counts: Counts, ranked: seq<nat>, k: nat): nat
    requires k <= |ranked| && forall i :: 0 <= i < |ranked| ==> ranked[i] < |Spelled(counts)|
  {
    if Covered(Spelled(counts), ranked, k) * 10 >= Total(counts) then k else 0
  }

  /** `sp` is the code laid out over `counts`: the largest set of the most frequent characters that
      leaves no more than 128 leads has a byte each, or no character has. */
  ghost predicate LaidOut(counts: Counts, ranked: seq<nat>, k: nat, sp: Spelling) {
    var spelled := Spelled(counts);
    var page := ModeFor(counts).Page();
    && Ranking(spelled, ranked) && k <= |ranked|
    && Fits(|spelled|, ranked, k, page)
    && (forall j :: k < j <= |ranked| ==> !Fits(|spelled|, ranked, j, page))
    && sp.mode == ModeFor(counts)
    && sp.chars == CharsOf(spelled)
    && sp.firsts == FirstsOf(Widths(Marked(|spelled|, ranked, Granted(counts, ranked, k)), 0, page), 0)
  }

  /** Every layout is a well-formed code, of at most 128 leads, that spells all the characters it was
      laid out over. */
  lemma LaidOutIsACode(counts: Counts, ranked: seq<nat>, k: nat, sp: Spelling)
    requires CountsAscend(counts) && LaidOut(counts, ranked, k, sp)
    ensures sp.Valid()
    ensures forall i :: 0 <= i < |counts| ==> sp.Spell(counts[i].0) != []
  {
    var spelled := Spelled(counts);
    var page := sp.mode.Page();
    var single := Marked(|spelled|, ranked, Granted(counts, ranked, k));
    var ws := Widths(single, 0, page);
    FitsDownward(|spelled|, ranked, Granted(counts, ranked, k), k, page);
    WidthsSum(single, 0, page);
    FirstsSum(ws, 0, page);
    SpelledAscends(counts);
    assert sp.Valid();
    forall i | 0 <= i < |counts|
      ensures sp.Spell(counts[i].0) != []
    {
      SpeltIff(sp, counts[i].0);
      var a := AsciiCount(counts);
      if sp.mode.Seven? || i >= a {
        assert sp.chars[if sp.mode.Seven? then i else i - a] == counts[i].0;
      }
    }
  }

  lemma SpelledAscends(counts: Counts)
    requires CountsAscend(counts)
    ensures CountsAscend(Spelled(counts))
    ensures ModeFor(counts).Eight? ==> forall i :: 0 <= i < |Spelled(counts)| ==> Spelled(counts)[i].0 >= 0x80
  {
    hide ModeFor, AsciiCount, CountsAscend;
    var a := if ModeFor(counts).Eight? then AsciiCount(counts) else 0;
    assert counts[0..] == counts;
    TailAscends(counts, a);
    if ModeFor(counts).Eight? && a < |counts| {
      FirstPastAscii(counts);
    }
  }

  lemma TailAscends(counts: Counts, a: nat)
    requires CountsAscend(counts) && a <= |counts|
    ensures CountsAscend(counts[a..])
    ensures forall i :: a < i < |counts| ==> counts[a].0 < counts[i].0
  {
    var chars, rest := CharsOf(counts), CharsOf(counts[a..]);
    assert forall i :: 0 <= i < |rest| ==> rest[i] == chars[a + i];
    forall i | a < i < |counts|
      ensures counts[a].0 < counts[i].0
    {
      assert chars[a] < chars[i];
    }
  }

  lemma FirstPastAscii(counts: Counts)
    requires AsciiCount(counts) < |counts|
    ensures counts[AsciiCount(counts)].0 >= 0x80
  {
  }

  /** The layout for an alphabet, or nothing where no code can name its characters. */
  method LayOut(counts: Counts) returns (r: Option<Spelling>, ghost ranked: seq<nat>, ghost k: nat)
    requires CountsAscend(counts)
    ensures r.None? <==> |Spelled(counts)| > LEADS * ModeFor(counts).Page()
    ensures r.Some? ==> LaidOut(counts, ranked, k, r.value) && r.value.Valid()
  {
    ranked, k := [], 0;
    var mode := ModeFor(counts);
    var spelled := Spelled(counts);
    if |spelled| > LEADS * mode.Page() {
      return None, [], 0;
    }
    var order := Rank(spelled);
    var most := MostSingles(|spelled|, order, mode.Page());
    var covered := CountCovered(spelled, order, most);
    var single := Mark(|spelled|, order, if covered * 10 >= Total(counts) then most else 0);
    var ws := CutWidths(single, mode.Page());
    var firsts := RunningSums(ws);
    var sp := Spelling(mode, CharsOf(spelled), firsts);
    LaidOutIsACode(counts, order, most, sp);
    return Some(sp), order, most;
  }

  method CountCovered(counts: Counts, ranked: seq<nat>, k: nat) returns (n: nat)
    requires k <= |ranked| && forall i :: 0 <= i < |ranked| ==> ranked[i] < |counts|
    ensures n == Covered(counts, ranked, k)
  {
    n := 0;
    for i := 0 to k
      invariant n == Covered(counts, ranked, i)
    {
      n := n + counts[ranked[i]].1;
    }
  }

  method RunningSums(ws: seq<nat>) returns (firsts: seq<nat>)
    ensures firsts == FirstsOf(ws, 0)
  {
    firsts := [0];
    assert ws[0..] == ws;
    for l := 0 to |ws|
      invariant firsts != []
      invariant firsts[..|firsts| - 1] + FirstsOf(ws[l..], firsts[|firsts| - 1]) == FirstsOf(ws, 0)
    {
      SumsStep(firsts, ws, l);
      firsts := firsts + [firsts[|firsts| - 1] + ws[l]];
    }
    assert ws[|ws|..] == [];
    assert firsts[..|firsts| - 1] + [firsts[|firsts| - 1]] == firsts;
  }

  lemma SumsStep(firsts: seq<nat>, ws: seq<nat>, l: nat)
    requires firsts != [] && l < |ws|
    ensures var (last, next) := (firsts[|firsts| - 1], firsts + [firsts[|firsts| - 1] + ws[l]]);
      firsts[..|firsts| - 1] + FirstsOf(ws[l..], last) == next[..|next| - 1] + FirstsOf(ws[l + 1..], next[|next| - 1])
  {
    var done, last := firsts[..|firsts| - 1], firsts[|firsts| - 1];
    assert ws[l..][0] == ws[l] && ws[l..][1..] == ws[l + 1..];
    assert firsts == done + [last];
    assert FirstsOf(ws[l..], last) == [last] + FirstsOf(ws[l + 1..], last + ws[l]);
    assert (firsts + [last + ws[l]])[..|firsts|] == firsts;
  }

  // ----- the tally and the choice

  /** Bytes the counted characters take coded. */
  function CodedBytes(sp: Spelling, counts: Counts): nat {
    if counts == [] then 0 else counts[0].1 * |sp.Spell(counts[0].0)| + CodedBytes(sp, counts[1..])
  }

  /** The two bars a code must clear: the keys a tenth smaller, table included, and a twentieth of the
      saving at least the table. */
  predicate Pays(coded: nat, table: nat, bytes: nat) {
    && (coded + table) * 10 <= bytes * 9
    && table * 20 <= if bytes >= coded then bytes - coded else 0
  }

  /** What a draw's `coded` of `counted` bytes comes to over a corpus of `total`, cut to 64 bits. */
  function Scaled(coded: nat, total: nat, counted: nat): (scaled: nat)
    ensures scaled < 0x1_0000_0000_0000_0000
  {
    coded * total / (if counted == 0 then 1 else counted) % 0x1_0000_0000_0000_0000
  }

  lemma PaysIs(coded: nat, table: nat, total: nat, counted: nat)
    ensures var sampled := if counted == 0 then 1 else counted;
      var scaled := coded * total / sampled % 0x1_0000_0000_0000_0000;
      Pays(Scaled(coded, total, counted), table, total) <==>
        (scaled + table) * 10 <= total * 9 && table * 20 <= (if total > scaled then total - scaled else 0)
  {
  }

  type Page = seq<nat>

  predicate Shaped(pages: seq<Option<Page>>) {
    && |pages| == PAGES
    && forall p :: 0 <= p < PAGES && pages[p].Some? ==> |pages[p].value| == PAGE
  }

  function CountIn(pages: seq<Option<Page>>, cp: nat): nat
    requires Shaped(pages)
  {
    if cp >= PAGES * PAGE || pages[cp / PAGE].None? then 0 else pages[cp / PAGE].value[cp % PAGE]
  }

  /** A count to each character, on pages made as characters first need them. */
  class Tally {
    var bytes: nat
    var pages: seq<Option<Page>>
    /** The keys counted, one after another. */
    ghost var text: Key

    ghost predicate Valid()
      reads this
    {
      && Shaped(pages)
      && bytes == |Text(text)|
      && (forall cp: nat :: CountIn(pages, cp) > 0 ==> IsScalar(cp))
      && forall c: Scalar :: CountIn(pages, c) == multiset(text)[c]
    }

    ghost function Count(cp: nat): nat
      requires Valid()
      reads this
    {
      CountIn(pages, cp)
    }

    constructor ()
      ensures Valid() && bytes == 0 && text == []
      ensures forall cp: nat :: Count(cp) == 0
    {
      bytes := 0;
      pages := seq(PAGES, _ => None);
      text := [];
    }

    method Add(key: Key)
      requires Valid()
      modifies this
      ensures Valid() && text == old(text) + key
      ensures bytes == old(bytes) + |Text(key)|
      ensures forall c: Scalar :: Count(c) == old(Count(c)) + multiset(key)[c]
    {
      hide CountIn, Flat;
      bytes := bytes + |Text(key)|;
      for i := 0 to |key|
        invariant Shaped(pages) && text == old(text) && bytes == old(bytes) + |Text(key)|
        invariant forall cp: nat :: CountIn(pages, cp) > 0 ==> IsScalar(cp)
        invariant forall c: Scalar :: CountIn(pages, c) == multiset(old(text))[c] + multiset(key[..i])[c]
      {
        assert key[..i + 1] == key[..i] + [key[i]];
        Bump(key[i]);
      }
      assert key[..|key|] == key;
      FlatConcat(Encode, text, key);
      text := text + key;
    }

    method Bump(c: Scalar)
      requires Shaped(pages)
      modifies this`pages
      ensures Shaped(pages)
      ensures forall cp: nat :: CountIn(pages, cp) == old(CountIn(pages, cp)) + if cp == c as int then 1 else 0
    {
      var cp: int := c;
      var page := if pages[cp / PAGE].Some? then pages[cp / PAGE].value else seq(PAGE, _ => 0);
      ghost var was := pages;
      pages := pages[cp / PAGE := Some(page[cp % PAGE := page[cp % PAGE] + 1])];
      forall d: nat
        ensures CountIn(pages, d) == CountIn(was, d) + if d == cp then 1 else 0
      {
        if d < PAGES * PAGE && d / PAGE == cp / PAGE && d % PAGE == cp % PAGE {
          assert d == cp;
        }
      }
    }

    /** Two tallies made one: counts of parts of the keys come to the count of all. */
    method Merge(other: Tally)
      requires Valid() && other.Valid() && other != this
      modifies this
      ensures Valid() && text == old(text) + other.text
      ensures bytes == old(bytes) + other.bytes
      ensures forall cp: nat :: Count(cp) == old(Count(cp)) + other.Count(cp)
    {
      bytes := bytes + other.bytes;
      ghost var was := pages;
      for p := 0 to PAGES
        invariant Shaped(pages) && text == old(text)
        invariant bytes == old(bytes) + other.bytes
        invariant forall q :: p <= q < PAGES ==> pages[q] == was[q]
        invariant forall q :: 0 <= q < p ==> pages[q] == Merged(was[q], other.pages[q])
      {
        pages := pages[p := Merged(pages[p], other.pages[p])];
      }
      forall cp: nat
        ensures CountIn(pages, cp) == CountIn(was, cp) + CountIn(other.pages, cp)
      {
      }
      FlatConcat(Encode, text, other.text);
      text := text + other.text;
    }

    /** The characters counted, ascending, each with how often. */
    method Alphabet() returns (counts: Counts)
      requires Valid()
      ensures CountsAscend(counts) && CountsOf(counts, text)
      ensures forall i :: 0 <= i < |counts| ==> counts[i].1 == Count(counts[i].0) > 0
      ensures forall c: Scalar :: Count(c) > 0 ==> c in CharsOf(counts)
    {
      counts := [];
      for p := 0 to PAGES
        invariant AlphabetUpTo(counts, p * PAGE)
      {
        if pages[p].Some? {
          counts := AlphabetOfPage(p, counts);
        } else {
          assert forall cp: nat :: p * PAGE <= cp < (p + 1) * PAGE ==> cp / PAGE == p;
        }
      }
    }

    ghost predicate AlphabetUpTo(counts: Counts, end: nat)
      requires Valid()
      reads this
    {
      && CountsAscend(counts)
      && (forall i :: 0 <= i < |counts| ==> counts[i].0 < end && counts[i].1 == Count(counts[i].0) > 0)
      && (forall c: Scalar :: c < end && Count(c) > 0 ==> c in CharsOf(counts))
    }

    method AlphabetOfPage(p: nat, counts0: Counts) returns (counts: Counts)
      requires Valid() && p < PAGES && pages[p].Some? && AlphabetUpTo(counts0, p * PAGE)
      ensures AlphabetUpTo(counts, (p + 1) * PAGE)
    {
      counts := counts0;
      for i := 0 to PAGE
        invariant AlphabetUpTo(counts, p * PAGE + i)
      {
        var cp := p * PAGE + i;
        assert cp / PAGE == p && cp % PAGE == i;
        var n := pages[p].value[i];
        assert n == Count(cp);
        AlphabetOneMore(counts, cp, n);
        if n > 0 {
          counts := counts + [(cp as Scalar, n)];
        }
      }
    }

    lemma AlphabetOneMore(counts: Counts, cp: nat, n: nat)
      requires Valid() && AlphabetUpTo(counts, cp) && n == Count(cp)
      ensures n == 0 ==> AlphabetUpTo(counts, cp + 1)
      ensures n > 0 ==> IsScalar(cp) && AlphabetUpTo(counts + [(cp as Scalar, n)], cp + 1)
    {
      hide CountIn;
      if n > 0 {
        assert CharsOf(counts + [(cp as Scalar, n)]) == CharsOf(counts) + [cp as Scalar];
      }
    }

    /** Choose a code from a sample of a corpus of `total` bytes; with it the layout considered, whether or not
        it was kept, and the counts it was made from. There is a layout exactly where the text is not empty and
        one of the modes holds its characters. It is kept exactly where the coded text, scaled from the sample to
        the corpus, and the table come to at most nine tenths of the corpus, and the table to at most a twentieth
        of what coding saves. */
    method ChooseFor(total: nat) returns (r: Option<CharCode>, sp: Option<Spelling>, counts: Counts)
      requires Valid()
      ensures CountsAscend(counts) && forall c: Scalar :: c in CharsOf(counts) <==> Count(c) > 0
      ensures sp.None? <==>
        text == [] || (|set c: Scalar | c in text| > 16384 && |set c: Scalar | c in text && c >= 0x80| > 32768)
      ensures sp.Some? ==> LaidOutFor(text, sp.value)
      ensures r.Some? ==> sp.Some?
      ensures sp.Some? ==>
        var sampled := if |Text(text)| == 0 then 1 else |Text(text)|;
        var coded := |sp.value.Code(text)| * total / sampled % 0x1_0000_0000_0000_0000;
        var table := |Written(sp.value)|;
        r.Some? <==> (coded + table) * 10 <= total * 9 && table * 20 <= (if total > coded then total - coded else 0)
      ensures r.Some? ==> r.value.StandsFor(sp.value)
      ensures r.Some? ==> forall c: Scalar :: Count(c) > 0 ==> sp.value.Spell(c) != []
    {
      hide LaidOut, LaidOutFor, CountIn, Pays, Scaled;
      var alphabet := Alphabet();
      CountedIffIn(alphabet);
      AlphabetIsSet(alphabet, text);
      SpelledIsSet(alphabet, text);
      if alphabet == [] {
        return None, None, alphabet;
      }
      var laid, ranked, k := LayOut(alphabet);
      if laid.None? {
        return None, None, alphabet;
      }
      LaidOutIsACode(alphabet, ranked, k, laid.value);
      LaidOutIsForText(alphabet, ranked, k, laid.value, text);
      CharsSpelt(alphabet, laid.value);
      CodedIsCode(alphabet, laid.value, text);
      PaysIs(|laid.value.Code(text)|, |Written(laid.value)|, total, |Text(text)|);
      SerializedLenIsLength(laid.value);
      r := BuiltIfItPays(laid.value, alphabet, total, bytes);
      return r, laid, alphabet;
    }

    lemma CountedIffIn(counts: Counts)
      requires Valid()
      requires forall i :: 0 <= i < |counts| ==> counts[i].1 == Count(counts[i].0) > 0
      requires forall c: Scalar :: Count(c) > 0 ==> c in CharsOf(counts)
      ensures forall c: Scalar :: c in CharsOf(counts) <==> Count(c) > 0
    {
      forall c: Scalar | c in CharsOf(counts)
        ensures Count(c) > 0
      {
        var i :| 0 <= i < |counts| && CharsOf(counts)[i] == c;
        assert counts[i].1 == Count(counts[i].0);
      }
    }
  }

  // ----- the layout is the text's

  /** `counts` lists the characters of `text`, each with how often it occurs. */
  ghost predicate CountsOf(counts: Counts, text: Key) {
    && (forall i :: 0 <= i < |counts| ==> counts[i].1 == multiset(text)[counts[i].0] > 0)
    && (forall c <- text :: c in CharsOf(counts))
  }

  lemma AscendingOnce(chars: Key)
    requires Ascending(chars)
    ensures Once(chars)
  {
  }

  lemma InText(counts: Counts, text: Key, c: Scalar)
    requires CountsOf(counts, text)
    ensures c in CharsOf(counts) <==> c in text
  {
    if c in CharsOf(counts) {
      var i :| 0 <= i < |counts| && CharsOf(counts)[i] == c;
      assert counts[i].1 == multiset(text)[c];
      assert c in multiset(text);
    }
  }

  lemma SpelledIn(counts: Counts, c: Scalar)
    requires CountsAscend(counts)
    ensures c in CharsOf(Spelled(counts)) <==> c in CharsOf(counts) && (ModeFor(counts).Seven? || c >= 0x80)
  {
    hide ModeFor;
    SpelledAscends(counts);
    var chars, rest, a := CharsOf(counts), CharsOf(Spelled(counts)), AsciiCount(counts);
    if ModeFor(counts).Eight? {
      assert forall i :: 0 <= i < |rest| ==> rest[i] == chars[a + i];
      if c in chars && c >= 0x80 {
        var i :| 0 <= i < |chars| && chars[i] == c;
        assert i >= a;
        assert rest[i - a] == c;
      }
    } else {
      assert rest == chars;
    }
  }

  /** The alphabet counted is the set of the text's characters. */
  lemma AlphabetIsSet(counts: Counts, text: Key)
    requires CountsAscend(counts) && CountsOf(counts, text)
    ensures |set c: Scalar | c in text| == |counts|
    ensures counts == [] <==> text == []
  {
    var chars, all := CharsOf(counts), set c: Scalar | c in text;
    forall c: Scalar
      ensures c in chars <==> c in all
    {
      InText(counts, text, c);
    }
    AscendingOnce(chars);
    SetOfOnce(chars, all);
    assert text != [] ==> text[0] in all;
  }

  /** So is what must be spelled of it, past ASCII where the mode leaves ASCII as it is. */
  lemma SpelledIsSet(counts: Counts, text: Key)
    requires CountsAscend(counts) && CountsOf(counts, text)
    ensures forall c: Scalar :: c in CharsOf(Spelled(counts)) <==> c in text && (ModeFor(counts).Seven? || c >= 0x80)
    ensures ModeFor(counts).Eight? ==> |set c: Scalar | c in text && c >= 0x80| == |Spelled(counts)|
  {
    hide ModeFor, CountsOf, Spelled;
    var rest := CharsOf(Spelled(counts));
    forall c: Scalar
      ensures c in rest <==> c in text && (ModeFor(counts).Seven? || c >= 0x80)
    {
      SpelledIn(counts, c);
      InText(counts, text, c);
    }
    if ModeFor(counts).Eight? {
      SpelledAscends(counts);
      AscendingOnce(rest);
      SetOfOnce(rest, set c: Scalar | c in text && c >= 0x80);
    }
  }

  /** The characters at these places. */
  function AtPlaces(counts: Counts, ranked: seq<nat>): (chars: Key)
    requires forall i :: 0 <= i < |ranked| ==> ranked[i] < |counts|
    ensures |chars| == |ranked|
  {
    seq(|ranked|, i requires 0 <= i < |ranked| => counts[ranked[i]].0)
  }

  lemma MarksAreMarked(counts: Counts, ranked: seq<nat>, k: nat)
    requires CountsAscend(counts) && k <= |ranked| && forall i :: 0 <= i < |ranked| ==> ranked[i] < |counts|
    ensures MarksOf(CharsOf(counts), AtPlaces(counts, ranked)[..k]) == Marked(|counts|, ranked, k)
  {
    var chars, some := CharsOf(counts), AtPlaces(counts, ranked)[..k];
    forall r | 0 <= r < |counts|
      ensures chars[r] in some <==> r in ranked[..k]
    {
      if r in ranked[..k] {
        var i :| 0 <= i < k && ranked[..k][i] == r;
        assert some[i] == chars[r];
      }
      if chars[r] in some {
        var i :| 0 <= i < k && some[i] == chars[r];
        assert ranked[..k][i] == ranked[i];
        assert chars[ranked[i]] == chars[r];
        assert ranked[i] == r;
      }
    }
  }

  /** A ranking of the counts lists the alphabet by frequency. */
  lemma RankingIsByFrequency(counts: Counts, ranked: seq<nat>, text: Key)
    requires CountsAscend(counts) && Ranking(counts, ranked)
    requires forall i :: 0 <= i < |counts| ==> counts[i].1 == multiset(text)[counts[i].0]
    ensures ByFrequency(text, CharsOf(counts), AtPlaces(counts, ranked))
  {
    var chars, order := CharsOf(counts), AtPlaces(counts, ranked);
    forall i, j | 0 <= i < j < |order|
      ensures multiset(text)[order[i]] > multiset(text)[order[j]]
        || (multiset(text)[order[i]] == multiset(text)[order[j]] && order[i] < order[j])
    {
      assert Before(counts, ranked[i], ranked[j]);
      assert ranked[i] < ranked[j] ==> chars[ranked[i]] < chars[ranked[j]];
    }
    forall c: Scalar
      ensures c in chars <==> c in order
    {
      if c in chars {
        var a :| 0 <= a < |chars| && chars[a] == c;
        assert a in ranked;
        var i :| 0 <= i < |ranked| && ranked[i] == a;
        assert order[i] == c;
      }
      if c in order {
        var i :| 0 <= i < |order| && order[i] == c;
        assert chars[ranked[i]] == c;
      }
    }
    AscendingOnce(chars);
    assert Once(order);
    SameOnce(chars, order);
  }

  /** What the highest-ranked characters cover is how often they occur. */
  lemma {:induction false} CoveredOccurs(counts: Counts, ranked: seq<nat>, k: nat, text: Key)
    requires CountsAscend(counts) && Ranking(counts, ranked) && k <= |ranked|
    requires forall i :: 0 <= i < |counts| ==> counts[i].1 == multiset(text)[counts[i].0]
    ensures Covered(counts, ranked, k) == Occurring(text, AtPlaces(counts, ranked)[..k])
  {
    RankingIsByFrequency(counts, ranked, text);
    var some := AtPlaces(counts, ranked)[..k];
    assert Once(some);
    CoveredIsListSum(counts, ranked, k, text);
    ListSumIsWeighed(some, text, _ => 1);
    WeighedByOne(text, some);
  }

  lemma {:induction false} CoveredIsListSum(counts: Counts, ranked: seq<nat>, k: nat, text: Key)
    requires k <= |ranked| && forall i :: 0 <= i < |ranked| ==> ranked[i] < |counts|
    requires forall i :: 0 <= i < |counts| ==> counts[i].1 == multiset(text)[counts[i].0]
    ensures var some := AtPlaces(counts, ranked)[..k];
      Covered(counts, ranked, k) == ListSum(some, TimesIn(text, some), _ => 1)
  {
    if k > 0 {
      var some := AtPlaces(counts, ranked)[..k];
      CoveredIsListSum(counts, ranked, k - 1, text);
      assert some[..k - 1] == AtPlaces(counts, ranked)[..k - 1];
      assert TimesIn(text, some)[..k - 1] == TimesIn(text, some[..k - 1]);
    }
  }

  lemma {:induction false} TotalIsListSum(counts: Counts, text: Key)
    requires forall i :: 0 <= i < |counts| ==> counts[i].1 == multiset(text)[counts[i].0]
    ensures Total(counts) == ListSum(CharsOf(counts), TimesIn(text, CharsOf(counts)), _ => 1)
  {
    if counts != [] {
      var chars := CharsOf(counts);
      TotalIsListSum(counts[1..], text);
      assert chars[1..] == CharsOf(counts[1..]);
      assert TimesIn(text, chars)[1..] == TimesIn(text, chars[1..]);
      ListSumFront(chars, TimesIn(text, chars), _ => 1);
    }
  }

  lemma TotalIsLength(counts: Counts, text: Key)
    requires CountsAscend(counts) && CountsOf(counts, text)
    ensures Total(counts) == |text|
  {
    var chars := CharsOf(counts);
    AscendingOnce(chars);
    TotalIsListSum(counts, text);
    ListSumIsWeighed(chars, text, _ => 1);
    WeighedByOne(text, chars);
    AllOccur(text, chars);
  }

  lemma {:induction false} CodedIsListSum(counts: Counts, sp: Spelling, text: Key)
    requires forall i :: 0 <= i < |counts| ==> counts[i].1 == multiset(text)[counts[i].0]
    ensures CodedBytes(sp, counts) == ListSum(CharsOf(counts), TimesIn(text, CharsOf(counts)), c => |sp.Spell(c)|)
  {
    if counts != [] {
      var chars := CharsOf(counts);
      CodedIsListSum(counts[1..], sp, text);
      assert chars[1..] == CharsOf(counts[1..]);
      assert TimesIn(text, chars)[1..] == TimesIn(text, chars[1..]);
      ListSumFront(chars, TimesIn(text, chars), c => |sp.Spell(c)|);
    }
  }

  /** The bytes counted are those the text is coded in. */
  lemma CodedIsCode(counts: Counts, sp: Spelling, text: Key)
    requires CountsAscend(counts) && CountsOf(counts, text)
    ensures CodedBytes(sp, counts) == |sp.Code(text)|
  {
    var chars := CharsOf(counts);
    AscendingOnce(chars);
    CodedIsListSum(counts, sp, text);
    ListSumIsWeighed(chars, text, c => |sp.Spell(c)|);
    WeighedByCode(sp, text, chars);
  }

  /** There is room for as many of the ranking as its marks fit. */
  lemma RoomIsFits(counts: Counts, mode: Mode, ranked: seq<nat>, k: nat)
    requires CountsAscend(counts) && (mode.Eight? ==> forall i :: 0 <= i < |counts| ==> counts[i].0 >= 0x80)
    requires k <= |ranked| && forall i :: 0 <= i < |ranked| ==> ranked[i] < |counts|
    ensures RoomFor(mode, CharsOf(counts), AtPlaces(counts, ranked)[..k]) <==> Fits(|counts|, ranked, k, mode.Page())
  {
    hide Widths, RoomFor;
    var chars, some := CharsOf(counts), AtPlaces(counts, ranked)[..k];
    forall c <- some
      ensures c in chars
    {
      var i :| 0 <= i < k && some[i] == c;
      assert chars[ranked[i]] == c;
    }
    RoomIff(mode, chars, some);
    MarksAreMarked(counts, ranked, k);
    assert WholePage(mode) == mode.Page();
  }

  lemma MostRoomIs(counts: Counts, mode: Mode, ranked: seq<nat>, k: nat)
    requires CountsAscend(counts) && (mode.Eight? ==> forall i :: 0 <= i < |counts| ==> counts[i].0 >= 0x80)
    requires k <= |ranked| && forall i :: 0 <= i < |ranked| ==> ranked[i] < |counts|
    requires Fits(|counts|, ranked, k, mode.Page())
    requires forall j :: k < j <= |ranked| ==> !Fits(|counts|, ranked, j, mode.Page())
    ensures MostRoom(mode, CharsOf(counts), AtPlaces(counts, ranked), k)
  {
    hide RoomFor, Fits;
    RoomIsFits(counts, mode, ranked, k);
    forall j | k < j <= |ranked|
      ensures !RoomFor(mode, CharsOf(counts), AtPlaces(counts, ranked)[..j])
    {
      RoomIsFits(counts, mode, ranked, j);
    }
  }

  /** The layout found is the text's. */
  lemma LaidOutIsForText(counts: Counts, ranked: seq<nat>, k: nat, sp: Spelling, text: Key)
    requires CountsAscend(counts) && CountsOf(counts, text) && LaidOut(counts, ranked, k, sp)
    ensures LaidOutFor(text, sp)
  {
    hide Widths, Fits, MostRoom, ByFrequency, CutAround, CountsOf, Spelled, Covered;
    var spelled, chars := Spelled(counts), CharsOf(Spelled(counts));
    LaidOutIsACode(counts, ranked, k, sp);
    AlphabetIsSet(counts, text);
    SpelledIsSet(counts, text);
    SpelledAscends(counts);
    SpelledCounts(counts, text);
    RankingIsByFrequency(spelled, ranked, text);
    MostRoomIs(spelled, sp.mode, ranked, k);
    CoveredOccurs(spelled, ranked, k, text);
    TotalIsLength(counts, text);
    var order, g := AtPlaces(spelled, ranked), Granted(counts, ranked, k);
    MarksAreMarked(spelled, ranked, g);
    FitsDownward(|spelled|, ranked, g, k, sp.mode.Page());
    GrantedLaidOut(sp, chars, order[..g], |spelled|, ranked, g);
    assert order[..0] == [];
  }

  lemma SpelledCounts(counts: Counts, text: Key)
    requires CountsOf(counts, text)
    ensures forall i :: 0 <= i < |Spelled(counts)| ==> Spelled(counts)[i].1 == multiset(text)[Spelled(counts)[i].0]
  {
  }

  lemma GrantedLaidOut(sp: Spelling, chars: Key, some: Key, n: nat, ranked: seq<nat>, g: nat)
    requires sp.Valid() && sp.chars == chars && g <= |ranked| && n == |chars|
    requires MarksOf(chars, some) == Marked(n, ranked, g) && Fits(n, ranked, g, sp.mode.Page())
    requires sp.firsts == FirstsOf(Widths(Marked(n, ranked, g), 0, sp.mode.Page()), 0)
    ensures CutAround(sp, some)
  {
    hide Widths, CutAround;
    WidthsLayoutIs(sp.mode, chars, some);
    assert sp == WidthsLayout(sp.mode, chars, some);
  }

  lemma CharsSpelt(counts: Counts, sp: Spelling)
    requires forall i :: 0 <= i < |counts| ==> sp.Spell(counts[i].0) != []
    ensures forall c: Scalar :: c in CharsOf(counts) ==> sp.Spell(c) != []
  {
    forall c: Scalar | c in CharsOf(counts)
      ensures sp.Spell(c) != []
    {
      var i :| 0 <= i < |counts| && CharsOf(counts)[i] == c;
      assert counts[i].0 == c;
    }
  }

  method BuiltIfItPays(sp: Spelling, counts: Counts, total: nat, counted: nat) returns (r: Option<CharCode>)
    requires sp.Valid()
    requires forall i :: 0 <= i < |counts| ==> sp.Spell(counts[i].0) != []
    ensures r.Some? <==>
      Pays(Scaled(CodedBytes(sp, counts), total, counted), SerializedLen(sp), total)
    ensures r.Some? ==> r.value.StandsFor(sp)
  {
    var code := New(sp);
    var coded := CountCoded(code, sp, counts);
    SerializedLenIsLength(sp);
    r := if Pays(Scaled(coded, total, counted), code.len, total) then Some(code) else None;
  }

  method CountCoded(code: CharCode, ghost sp: Spelling, counts: Counts) returns (n: nat)
    requires code.StandsFor(sp)
    requires forall i :: 0 <= i < |counts| ==> sp.Spell(counts[i].0) != []
    ensures n == CodedBytes(sp, counts)
  {
    hide Spelling.Spell, Index.Get, Encode;
    n := 0;
    assert counts[0..] == counts;
    for i := 0 to |counts|
      invariant n + CodedBytes(sp, counts[i..]) == CodedBytes(sp, counts)
    {
      var (c, times) := counts[i];
      assert counts[i..][0] == counts[i] && counts[i..][1..] == counts[i + 1..];
      var w: int := code.index.Get(c);
      WordSays(code, sp, c);
      n := n + times * (w / 0x1_0000);
    }
    assert counts[|counts|..] == [];
  }

  function Merged(mine: Option<Page>, theirs: Option<Page>): Option<Page> {
    if theirs.None? then mine
    else if mine.None? then theirs
    else if |mine.value| != |theirs.value| then mine
    else Some(seq(|mine.value|, i requires 0 <= i < |mine.value| => mine.value[i] + theirs.value[i]))
  }
}
