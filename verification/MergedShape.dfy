/** The shape a merged arena is given: a width for the length fields, the lengths that escape it, and the
    bytes it all takes, which the width is chosen to make least. */
module MergedShapes {
  import opened Bits
  import opened Wrappers
  import opened FpTable
  import opened ArenaTable
  import opened ArenaBuild

  /** Bytes of a merged arena's own header, behind the tag. */
  const PARAMS := 14
  /** Zeros behind the entries, so that the last one's eight-byte read stays in them. */
  const PAD := 7
  /** Wider than this an entry could start at a bit whose eight-byte read does not reach its end. */
  const MAX_WIDTH := 57
  /** An escape's four bytes of slot and four of length. */
  const SLOT_LEN := 8
  /** Slots a `u32` numbers. */
  const MAX_SLOTS := 0x1_0000_0000
  const HALF_USIZE := 0x8000_0000_0000_0000

  /** Where a key starts in the data, and its length. */
  type Placed = (nat, nat)

  datatype MergedShape = MergedShape(minLen: nat, lenBits: nat, startBits: nat, width: nat, escaped: nat, bytes: nat)

  // ----- what each field width sends to the overflow table

  lemma {:induction false} BitLengthIff(v: nat, n: nat)
    ensures BitLength(v) <= n <==> v < Pow2(n)
  {
    if v > 0 && n > 0 {
      BitLengthIff(v / 2, n - 1);
    }
  }

  /** All ones in a field of `lenBits` bits: the mark of a length that does not fit it. */
  function Escape(lenBits: nat): nat {
    Pow2(lenBits) - 1
  }

  predicate Escapes(len: nat, minLen: nat, lenBits: nat) {
    lenBits > 0 && len >= minLen + Escape(lenBits)
  }

  /** How many of the first `k` lengths escape. */
  function Escaping(lens: seq<nat>, minLen: nat, lenBits: nat, k: nat): nat
    requires k <= |lens|
  {
    if k == 0 then 0
    else Escaping(lens, minLen, lenBits, k - 1) + if Escapes(lens[k - 1], minLen, lenBits) then 1 else 0
  }

  /** The bits a length's excess needs, all ones being the escape. */
  function Needs(len: nat, minLen: nat): nat
    requires len >= minLen
  {
    BitLength(len - minLen + 1)
  }

  lemma NeedsIff(len: nat, minLen: nat, lenBits: nat)
    requires len >= minLen && lenBits > 0
    ensures Needs(len, minLen) > lenBits <==> Escapes(len, minLen, lenBits)
  {
    BitLengthIff(len - minLen + 1, lenBits);
  }

  ghost predicate AllAtLeast(lens: seq<nat>, minLen: nat) {
    forall i :: 0 <= i < |lens| ==> minLen <= lens[i] <= U32_MAX
  }

  lemma NeedsBound(len: nat, minLen: nat)
    requires minLen <= len <= U32_MAX
    ensures 1 <= Needs(len, minLen) <= 33
  {
    WordPowers();
    BitLengthIff(len - minLen + 1, 33);
    BitLengthIff(len - minLen + 1, 0);
  }

  /** For each number of bits, how many of the first `k` lengths need exactly that many. */
  ghost function NeedOf(lens: seq<nat>, minLen: nat, k: nat): (need: seq<nat>)
    requires k <= |lens| && AllAtLeast(lens, minLen)
    ensures |need| == 34
  {
    if k == 0 then seq(34, _ => 0)
    else
      NeedsBound(lens[k - 1], minLen);
      var need, b := NeedOf(lens, minLen, k - 1), Needs(lens[k - 1], minLen);
      need[b := need[b] + 1]
  }

  method NeedBits(lens: seq<nat>, minLen: nat) returns (need: seq<nat>)
    requires AllAtLeast(lens, minLen)
    ensures need == NeedOf(lens, minLen, |lens|)
  {
    var counts := new nat[34](_ => 0);
    assert counts[..] == seq(34, _ => 0);
    for k := 0 to |lens|
      invariant counts[..] == NeedOf(lens, minLen, k)
    {
      NeedsBound(lens[k], minLen);
      var b := Needs(lens[k], minLen);
      counts[b] := counts[b] + 1;
    }
    need := counts[..];
  }

  /** What needs at least `b` bits. */
  function Above(need: seq<nat>, b: nat): nat
    decreases |need| - b
  {
    if b >= |need| then 0 else need[b] + Above(need, b + 1)
  }

  lemma {:induction false} AboveBump(need: seq<nat>, at: nat, b: nat)
    requires at < |need|
    ensures Above(need[at := need[at] + 1], b) == Above(need, b) + if b <= at then 1 else 0
    decreases |need| - b
  {
    if b < |need| {
      AboveBump(need, at, b + 1);
    }
  }

  lemma {:induction false} AboveZeros(need: seq<nat>, b: nat)
    requires forall i :: b <= i < |need| ==> need[i] == 0
    ensures Above(need, b) == 0
    decreases |need| - b
  {
    if b < |need| {
      AboveZeros(need, b + 1);
    }
  }

  lemma {:induction false} AboveMonotone(need: seq<nat>, a: nat, b: nat)
    requires a <= b
    ensures Above(need, a) >= Above(need, b)
    decreases b - a
  {
    if a < b {
      AboveMonotone(need, a + 1, b);
    }
  }

  /** What the counts say escapes a field is what escapes it. */
  lemma {:induction false} NeedCountsEscapes(lens: seq<nat>, minLen: nat, lenBits: nat, k: nat)
    requires k <= |lens| && AllAtLeast(lens, minLen) && lenBits > 0
    ensures Above(NeedOf(lens, minLen, k), lenBits + 1) == Escaping(lens, minLen, lenBits, k)
  {
    if k == 0 {
      AboveZeros(NeedOf(lens, minLen, 0), lenBits + 1);
    } else {
      NeedCountsEscapes(lens, minLen, lenBits, k - 1);
      NeedsBound(lens[k - 1], minLen);
      AboveBump(NeedOf(lens, minLen, k - 1), Needs(lens[k - 1], minLen), lenBits + 1);
      NeedsIff(lens[k - 1], minLen, lenBits);
    }
  }

  lemma {:induction false} NeedCountsAll(lens: seq<nat>, minLen: nat, k: nat)
    requires k <= |lens| && AllAtLeast(lens, minLen)
    ensures Above(NeedOf(lens, minLen, k), 0) == k && NeedOf(lens, minLen, k)[0] == 0
  {
    if k == 0 {
      AboveZeros(NeedOf(lens, minLen, 0), 0);
    } else {
      NeedCountsAll(lens, minLen, k - 1);
      NeedsBound(lens[k - 1], minLen);
      AboveBump(NeedOf(lens, minLen, k - 1), Needs(lens[k - 1], minLen), 0);
    }
  }

  lemma {:induction false} LengthIsCounted(lens: seq<nat>, minLen: nat, k: nat, i: nat)
    requires i < k <= |lens| && AllAtLeast(lens, minLen)
    ensures 1 <= Needs(lens[i], minLen) < 34 && NeedOf(lens, minLen, k)[Needs(lens[i], minLen)] > 0
  {
    NeedsBound(lens[i], minLen);
    if i < k - 1 {
      LengthIsCounted(lens, minLen, k - 1, i);
    }
  }

  lemma {:induction false} NeedHasALength(lens: seq<nat>, minLen: nat, k: nat, b: nat) returns (i: nat)
    requires k <= |lens| && AllAtLeast(lens, minLen) && b < 34 && NeedOf(lens, minLen, k)[b] > 0
    ensures i < k && Needs(lens[i], minLen) == b
  {
    NeedsBound(lens[k - 1], minLen);
    if Needs(lens[k - 1], minLen) == b {
      i := k - 1;
    } else {
      i := NeedHasALength(lens, minLen, k - 1, b);
    }
  }

  // ----- the widths weighed

  function EscapedAt(need: seq<nat>, lenBits: nat): nat {
    if lenBits == 0 then 0 else Above(need, lenBits + 1)
  }

  /** What the arena takes with fields of `lenBits` bits. */
  function BytesAt(need: seq<nat>, n: nat, startBits: nat, dataLen: nat, fp: bool, lenBits: nat): nat {
    var escaped := EscapedAt(need, lenBits);
    HEADER + PARAMS + PAD + (if fp then n else 0) + TableLen(n, startBits + lenBits) + dataLen
      + if escaped > 0 then SLOT_LEN * escaped + TRAILER else 0
  }

  /** Whether no length needs `b` bits or more. */
  ghost predicate NoneFrom(need: seq<nat>, b: nat) {
    forall i :: b <= i < |need| ==> need[i] == 0
  }

  /** Whether an entry with such fields fits an eight-byte read, zero bits holding one length only. */
  ghost predicate Admissible(need: seq<nat>, startBits: nat, lenBits: nat) {
    startBits + lenBits <= MAX_WIDTH && (lenBits == 0 ==> NoneFrom(need, 2))
  }

  ghost predicate ShapeAt(best: MergedShape, need: seq<nat>, n: nat, minLen: nat, startBits: nat, dataLen: nat,
                          fp: bool) {
    && Admissible(need, startBits, best.lenBits)
    && best == MergedShape(minLen, best.lenBits, startBits, startBits + best.lenBits, EscapedAt(need, best.lenBits),
                           BytesAt(need, n, startBits, dataLen, fp, best.lenBits))
  }

  /** The best of the widths below `upTo`: no admissible one takes fewer bytes, and a narrower one more. */
  ghost predicate BestBelow(best: Option<MergedShape>, upTo: nat, need: seq<nat>, n: nat, minLen: nat, startBits: nat,
                            dataLen: nat, fp: bool)
  {
    match best
    case None => forall b :: 0 <= b < upTo ==> !Admissible(need, startBits, b)
    case Some(s) =>
      && ShapeAt(s, need, n, minLen, startBits, dataLen, fp) && s.lenBits < upTo
      && forall b :: 0 <= b < upTo && Admissible(need, startBits, b) ==>
           && s.bytes <= BytesAt(need, n, startBits, dataLen, fp, b)
           && (b < s.lenBits ==> s.bytes < BytesAt(need, n, startBits, dataLen, fp, b))
  }

  lemma BestStep(best: Option<MergedShape>, next: Option<MergedShape>, b: nat, need: seq<nat>, n: nat, minLen: nat,
                 startBits: nat, dataLen: nat, fp: bool)
    requires BestBelow(best, b, need, n, minLen, startBits, dataLen, fp)
    requires !Admissible(need, startBits, b) ==> next == best
    requires Admissible(need, startBits, b) ==>
      next == if best.None? || BytesAt(need, n, startBits, dataLen, fp, b) < best.value.bytes
              then Some(MergedShape(minLen, b, startBits, startBits + b, EscapedAt(need, b),
                                    BytesAt(need, n, startBits, dataLen, fp, b)))
              else best
    ensures BestBelow(next, b + 1, need, n, minLen, startBits, dataLen, fp)
  {
    hide BytesAt, EscapedAt, NoneFrom, Admissible;
  }

  lemma BytesBound(need: seq<nat>, n: nat, startBits: nat, dataLen: nat, fp: bool, b: nat)
    requires n <= MAX_SLOTS && Above(need, 0) <= MAX_SLOTS && dataLen < HALF_USIZE && startBits + b <= MAX_WIDTH
    ensures BytesAt(need, n, startBits, dataLen, fp, b) < USIZE
  {
    TimesUp(n, startBits + b, 64);
    TimesBytes(n, 8);
    AboveMonotone(need, 0, b + 1);
  }

  /** Past the widest length a wider field only costs more. */
  lemma WiderCostsMore(need: seq<nat>, n: nat, startBits: nat, dataLen: nat, fp: bool, a: nat, b: nat)
    requires 1 <= a <= b && NoneFrom(need, a + 1)
    ensures BytesAt(need, n, startBits, dataLen, fp, a) <= BytesAt(need, n, startBits, dataLen, fp, b)
  {
    AboveZeros(need, a + 1);
    AboveZeros(need, b + 1);
    TimesUp(n, startBits + a, startBits + b);
  }

  /** The most bits some length needs, or zero. */
  method Widest(need: seq<nat>) returns (widest: nat)
    requires |need| == 34
    ensures widest < 34 && NoneFrom(need, widest + 1)
    ensures widest > 0 ==> need[widest] > 0
  {
    widest := 33;
    while widest >= 1 && need[widest] == 0
      invariant widest < 34 && NoneFrom(need, widest + 1)
    {
      widest := widest - 1;
    }
  }

  /** The shape whose whole is least, over every field width an eight-byte read admits and not only those
      tried; the narrowest of equals; none where no width is admitted. */
  method FromNeed(need: seq<nat>, n: nat, minLen: nat, startBits: nat, dataLen: nat, fp: bool)
    returns (best: Option<MergedShape>)
    requires |need| == 34 && n <= MAX_SLOTS && Above(need, 0) <= MAX_SLOTS && dataLen < HALF_USIZE
    ensures NoneFrom(need, 1) ==> best.None?
    ensures !NoneFrom(need, 1) ==> BestBelow(best, MAX_WIDTH + 1, need, n, minLen, startBits, dataLen, fp)
  {
    var widest := Widest(need);
    if widest == 0 {
      return None;
    }
    best := None;
    var escaped := RunAll(need);
    SumIsAbove(need, 0);
    for lenBits := 0 to widest + 1
      invariant escaped == Above(need, lenBits)
      invariant BestBelow(best, lenBits, need, n, minLen, startBits, dataLen, fp)
    {
      escaped := escaped - need[lenBits];
      ghost var was := best;
      if (lenBits == 0 && widest > 1) || startBits + lenBits > MAX_WIDTH {
        BestStep(was, best, lenBits, need, n, minLen, startBits, dataLen, fp);
        continue;
      }
      BytesBound(need, n, startBits, dataLen, fp, lenBits);
      best := Weighed(best, need, n, minLen, startBits, dataLen, fp, lenBits, if lenBits == 0 then 0 else escaped);
      BestStep(was, best, lenBits, need, n, minLen, startBits, dataLen, fp);
    }
    BestOfAll(best, widest, need, n, minLen, startBits, dataLen, fp);
  }

  /** One width weighed against the best so far. */
  method Weighed(best: Option<MergedShape>, ghost need: seq<nat>, n: nat, minLen: nat, startBits: nat, dataLen: nat,
                 fp: bool, lenBits: nat, escaped: nat)
    returns (next: Option<MergedShape>)
    requires escaped == EscapedAt(need, lenBits)
    ensures next == if best.None? || BytesAt(need, n, startBits, dataLen, fp, lenBits) < best.value.bytes
                    then Some(MergedShape(minLen, lenBits, startBits, startBits + lenBits, escaped,
                                          BytesAt(need, n, startBits, dataLen, fp, lenBits)))
                    else best
  {
    var width := startBits + lenBits;
    var entries := (Times(n, width) + 7) / 8;
    var tail := if escaped > 0 then escaped * SLOT_LEN + TRAILER else 0;
    var bytes := HEADER + PARAMS + PAD + (if fp then n else 0) + entries + dataLen + tail;
    next := best;
    if best.None? || bytes < best.value.bytes {
      next := Some(MergedShape(minLen, lenBits, startBits, width, escaped, bytes));
    }
  }

  lemma {:induction false} SumIsAbove(need: seq<nat>, b: nat)
    requires b <= |need|
    ensures Run(need, b, |need| - b) == Above(need, b)
    decreases |need| - b
  {
    if b < |need| {
      SumIsAbove(need, b + 1);
      RunSplit(need, b, 1, |need| - b - 1);
      assert Run(need, b, 1) == need[b];
    }
  }

  lemma BestOfAll(best: Option<MergedShape>, widest: nat, need: seq<nat>, n: nat, minLen: nat, startBits: nat,
                  dataLen: nat, fp: bool)
    requires 1 <= widest < 34 && NoneFrom(need, widest + 1)
    requires BestBelow(best, widest + 1, need, n, minLen, startBits, dataLen, fp)
    ensures BestBelow(best, MAX_WIDTH + 1, need, n, minLen, startBits, dataLen, fp)
  {
    hide BytesAt;
    forall b | widest < b <= MAX_WIDTH && Admissible(need, startBits, b)
      ensures Admissible(need, startBits, widest)
      ensures BytesAt(need, n, startBits, dataLen, fp, widest) <= BytesAt(need, n, startBits, dataLen, fp, b)
    {
      WiderCostsMore(need, n, startBits, dataLen, fp, widest, b);
    }
  }

  // ----- the shape of a key set

  function LensOfSpans(spans: seq<Placed>): (lens: seq<nat>)
    ensures |lens| == |spans| && forall i :: 0 <= i < |spans| ==> lens[i] == spans[i].1
  {
    seq(|spans|, i requires 0 <= i < |spans| => spans[i].1)
  }

  /** Every start and length fits the shape's fields, zero bits of length standing for one length only, and
      the shape counts what it sends to the overflow table and what the whole takes. */
  ghost predicate Fits(shape: MergedShape, spans: seq<Placed>, dataLen: nat, fp: bool) {
    && AllAtLeast(LensOfSpans(spans), shape.minLen) && shape.startBits >= 1
    && shape.width == shape.startBits + shape.lenBits <= 57
    && (forall i :: 0 <= i < |spans| ==> spans[i].0 < Pow2(shape.startBits))
    && (shape.lenBits == 0 ==> forall i :: 0 <= i < |spans| ==> spans[i].1 == shape.minLen)
    && shape.escaped == Escaping(LensOfSpans(spans), shape.minLen, shape.lenBits, |spans|)
    && shape.bytes == SpansBytes(spans, shape.minLen, shape.startBits, dataLen, fp, shape.lenBits)
  }

  /** What an arena of `spans` takes with length fields of `lenBits` bits. */
  ghost function SpansBytes(spans: seq<Placed>, minLen: nat, startBits: nat, dataLen: nat, fp: bool,
                            lenBits: nat): nat {
    var escaped := Escaping(LensOfSpans(spans), minLen, lenBits, |spans|);
    30 + (if fp then |spans| else 0) + (|spans| * (startBits + lenBits) + 7) / 8 + dataLen
      + if escaped > 0 then 8 * escaped + 8 else 0
  }

  /** Whether fields of `lenBits` bits are admitted for these spans. */
  ghost predicate Admits(spans: seq<Placed>, minLen: nat, startBits: nat, lenBits: nat) {
    startBits + lenBits <= 57 && (lenBits == 0 ==> forall i :: 0 <= i < |spans| ==> spans[i].1 == minLen)
  }

  lemma AdmitsIff(spans: seq<Placed>, minLen: nat, startBits: nat, lenBits: nat)
    requires AllAtLeast(LensOfSpans(spans), minLen)
    ensures Admits(spans, minLen, startBits, lenBits)
      <==> Admissible(NeedOf(LensOfSpans(spans), minLen, |spans|), startBits, lenBits)
  {
    var lens := LensOfSpans(spans);
    var need := NeedOf(lens, minLen, |spans|);
    if lenBits == 0 && !NoneFrom(need, 2) {
      var b :| 2 <= b < |need| && need[b] != 0;
      var i := NeedHasALength(lens, minLen, |spans|, b);
      BitLengthIff(1, 1);
      assert spans[i].1 != minLen;
    }
    if lenBits == 0 && NoneFrom(need, 2) {
      forall i | 0 <= i < |spans|
        ensures spans[i].1 == minLen
      {
        LengthIsCounted(lens, minLen, |spans|, i);
        BitLengthIff(lens[i] - minLen + 1, 1);
        assert Pow2(1) == 2;
      }
    }
  }

  lemma NoEscapesAtZero(lens: seq<nat>, minLen: nat, k: nat)
    requires k <= |lens|
    ensures Escaping(lens, minLen, 0, k) == 0
  {
    if k > 0 {
      NoEscapesAtZero(lens, minLen, k - 1);
    }
  }

  lemma SpansBytesIs(spans: seq<Placed>, minLen: nat, startBits: nat, dataLen: nat, fp: bool, lenBits: nat)
    requires AllAtLeast(LensOfSpans(spans), minLen)
    ensures var need := NeedOf(LensOfSpans(spans), minLen, |spans|);
      && EscapedAt(need, lenBits) == Escaping(LensOfSpans(spans), minLen, lenBits, |spans|)
      && BytesAt(need, |spans|, startBits, dataLen, fp, lenBits)
           == SpansBytes(spans, minLen, startBits, dataLen, fp, lenBits)
  {
    hide Times;
    TimesIsProduct(|spans|, startBits + lenBits);
    if lenBits == 0 {
      NoEscapesAtZero(LensOfSpans(spans), minLen, |spans|);
    } else {
      NeedCountsEscapes(LensOfSpans(spans), minLen, lenBits, |spans|);
    }
  }

  /** `minLen` is the least length, and `startBits` the fewest bits, one at least, every start fits. */
  ghost predicate Extreme(spans: seq<Placed>, minLen: nat, startBits: nat) {
    && AllAtLeast(LensOfSpans(spans), minLen) && startBits >= 1
    && (exists i :: 0 <= i < |spans| && spans[i].1 == minLen)
    && (forall i :: 0 <= i < |spans| ==> spans[i].0 < Pow2(startBits))
    && (startBits > 1 ==> exists i :: 0 <= i < |spans| && spans[i].0 >= Pow2(startBits - 1))
  }

  method Extremes(spans: seq<Placed>) returns (minLen: nat, startBits: nat)
    requires spans != [] && AllAtLeast(LensOfSpans(spans), 0)
    ensures Extreme(spans, minLen, startBits)
  {
    minLen := spans[0].1;
    var last, at := spans[0].0, 0;
    for k := 1 to |spans|
      invariant forall i :: 0 <= i < k ==> minLen <= spans[i].1 && spans[i].0 <= last
      invariant at < k && spans[at].0 == last
      invariant exists i :: 0 <= i < k && spans[i].1 == minLen
    {
      if spans[k].1 < minLen {
        minLen := spans[k].1;
      }
      if spans[k].0 > last {
        last, at := spans[k].0, k;
      }
    }
    assert forall i :: 0 <= i < |spans| ==> minLen <= LensOfSpans(spans)[i];
    startBits := if BitLength(last) > 1 then BitLength(last) else 1;
    BitLengthIff(last, startBits);
    BitLengthIff(last, startBits - 1);
    assert spans[at].0 == last;
  }

  /** No shape the spans fit makes the whole smaller than this one does. */
  ghost predicate Least(shape: MergedShape, spans: seq<Placed>, dataLen: nat, fp: bool) {
    forall other: MergedShape :: Fits(other, spans, dataLen, fp) ==> shape.bytes <= other.bytes
  }

  ghost predicate NoneFits(spans: seq<Placed>, dataLen: nat, fp: bool) {
    forall other: MergedShape :: !Fits(other, spans, dataLen, fp)
  }

  /** No admitted field width does, for the least length and the fewest bits of start. */
  ghost predicate LeastWidth(bytes: nat, spans: seq<Placed>, minLen: nat, startBits: nat, dataLen: nat, fp: bool) {
    forall b :: Admits(spans, minLen, startBits, b) ==> bytes <= SpansBytes(spans, minLen, startBits, dataLen, fp, b)
  }

  ghost predicate NoneAdmitted(spans: seq<Placed>, minLen: nat, startBits: nat) {
    forall b :: !Admits(spans, minLen, startBits, b)
  }

  lemma {:induction false} EscapingMonotone(lens: seq<nat>, a: nat, b: nat, lenBits: nat, k: nat)
    requires a <= b && k <= |lens|
    ensures Escaping(lens, b, lenBits, k) <= Escaping(lens, a, lenBits, k)
  {
    if k > 0 {
      EscapingMonotone(lens, a, b, lenBits, k - 1);
    }
  }

  /** A lower least length and more bits of start only cost more. */
  lemma LooserCostsMore(spans: seq<Placed>, a: nat, b: nat, s: nat, t: nat, dataLen: nat, fp: bool, lenBits: nat)
    requires a <= b && s <= t
    ensures SpansBytes(spans, b, s, dataLen, fp, lenBits) <= SpansBytes(spans, a, t, dataLen, fp, lenBits)
  {
    hide Escaping;
    EscapingMonotone(LensOfSpans(spans), a, b, lenBits, |spans|);
    MulMonotone(s + lenBits, t + lenBits, |spans|);
  }

  /** Whatever shape the spans fit, the least length and the fewest bits of start admit its field width and cost no
      more with it. */
  lemma ExtremesSuffice(other: MergedShape, spans: seq<Placed>, minLen: nat, startBits: nat, dataLen: nat, fp: bool)
    requires Extreme(spans, minLen, startBits) && Fits(other, spans, dataLen, fp)
    ensures Admits(spans, minLen, startBits, other.lenBits)
    ensures SpansBytes(spans, minLen, startBits, dataLen, fp, other.lenBits) <= other.bytes
  {
    hide SpansBytes, Escaping, Pow2;
    var i :| 0 <= i < |spans| && spans[i].1 == minLen;
    assert LensOfSpans(spans)[i] == minLen;
    if startBits > other.startBits {
      var j :| 0 <= j < |spans| && spans[j].0 >= Pow2(startBits - 1);
      Pow2Monotone(other.startBits, startBits - 1);
      assert false;
    }
    LooserCostsMore(spans, other.minLen, minLen, startBits, other.startBits, dataLen, fp, other.lenBits);
  }

  lemma LeastOfAll(shape: MergedShape, spans: seq<Placed>, dataLen: nat, fp: bool)
    requires Extreme(spans, shape.minLen, shape.startBits)
    requires LeastWidth(shape.bytes, spans, shape.minLen, shape.startBits, dataLen, fp)
    ensures Least(shape, spans, dataLen, fp)
  {
    hide Extreme, Fits, Admits, SpansBytes;
    forall other: MergedShape | Fits(other, spans, dataLen, fp)
      ensures shape.bytes <= other.bytes
    {
      ExtremesSuffice(other, spans, shape.minLen, shape.startBits, dataLen, fp);
    }
  }

  lemma NoneOfAll(spans: seq<Placed>, minLen: nat, startBits: nat, dataLen: nat, fp: bool)
    requires Extreme(spans, minLen, startBits) && NoneAdmitted(spans, minLen, startBits)
    ensures NoneFits(spans, dataLen, fp)
  {
    hide Extreme, Fits, Admits, SpansBytes;
    forall other: MergedShape
      ensures !Fits(other, spans, dataLen, fp)
    {
      if Fits(other, spans, dataLen, fp) {
        ExtremesSuffice(other, spans, minLen, startBits, dataLen, fp);
      }
    }
  }

  /** What the counts chose, said of the spans they count. */
  lemma ChosenForSpans(shape: Option<MergedShape>, spans: seq<Placed>, minLen: nat, startBits: nat, dataLen: nat,
                       fp: bool)
    requires Extreme(spans, minLen, startBits)
    requires BestBelow(shape, MAX_WIDTH + 1, NeedOf(LensOfSpans(spans), minLen, |spans|), |spans|, minLen, startBits,
                       dataLen, fp)
    ensures shape.None? ==> NoneAdmitted(spans, minLen, startBits)
    ensures shape.Some? ==> Fits(shape.value, spans, dataLen, fp)
    ensures shape.Some? ==> LeastWidth(shape.value.bytes, spans, minLen, startBits, dataLen, fp)
  {
    hide BytesAt, SpansBytes, EscapedAt, NeedOf, Escaping, Admissible;
    forall b: nat
      ensures Admits(spans, minLen, startBits, b)
        <==> Admissible(NeedOf(LensOfSpans(spans), minLen, |spans|), startBits, b)
    {
      AdmitsIff(spans, minLen, startBits, b);
    }
    forall b: nat
      ensures BytesAt(NeedOf(LensOfSpans(spans), minLen, |spans|), |spans|, startBits, dataLen, fp, b)
        == SpansBytes(spans, minLen, startBits, dataLen, fp, b)
    {
      SpansBytesIs(spans, minLen, startBits, dataLen, fp, b);
    }
    if shape.Some? {
      SpansBytesIs(spans, minLen, startBits, dataLen, fp, shape.value.lenBits);
    }
  }

  /** The shape that makes the whole smallest among all that the spans fit; none exactly where there are no spans or
      none fits. */
  method ShapeOf(spans: seq<Placed>, dataLen: nat, fp: bool) returns (shape: Option<MergedShape>)
    requires AllAtLeast(LensOfSpans(spans), 0) && |spans| <= MAX_SLOTS && dataLen < HALF_USIZE
    ensures shape.Some? ==> spans != [] && Fits(shape.value, spans, dataLen, fp)
    ensures shape.Some? ==> Least(shape.value, spans, dataLen, fp)
    ensures shape.None? ==> spans == [] || NoneFits(spans, dataLen, fp)
  {
    hide BestBelow, Fits, Least, LeastWidth, NoneAdmitted, NoneFits, Extreme;
    if spans == [] {
      return None;
    }
    var minLen, startBits := Extremes(spans);
    var need := NeedBits(LensOfSpans(spans), minLen);
    NeedCountsAll(LensOfSpans(spans), minLen, |spans|);
    LengthIsCounted(LensOfSpans(spans), minLen, |spans|, 0);
    shape := FromNeed(need, |spans|, minLen, startBits, dataLen, fp);
    ChosenForSpans(shape, spans, minLen, startBits, dataLen, fp);
    if shape.Some? {
      ChosenExtremes(shape.value, need, |spans|, minLen, startBits, dataLen, fp);
      LeastOfAll(shape.value, spans, dataLen, fp);
    } else {
      NoneOfAll(spans, minLen, startBits, dataLen, fp);
    }
  }

  lemma ChosenExtremes(shape: MergedShape, need: seq<nat>, n: nat, minLen: nat, startBits: nat, dataLen: nat, fp: bool)
    requires BestBelow(Some(shape), MAX_WIDTH + 1, need, n, minLen, startBits, dataLen, fp)
    ensures shape.minLen == minLen && shape.startBits == startBits
  {
  }
}
