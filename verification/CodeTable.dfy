/** The bytes a blob stores a character code as, and reading them back: what is written reads back
    the same, what reads back is well formed, and the length is known without writing. */
module CodeTable {
  import opened Lex
  import opened Bits
  import opened Spellings
  import opened Wrappers

  // ----- varints: seven bits a byte, the low ones first, the top bit set on all but the last

  function Varint(v: nat): (s: seq<byte>)
    ensures s != []
  {
    if v < 0x80 then [v] else [0x80 + v % 0x80] + Varint(v / 0x80)
  }

  /** The varint at `at` in `s` and where it ends; none where it is cut short or does not fit a `usize`. */
  function VarintAt(s: seq<byte>, at: nat): (r: Option<(nat, nat)>)
    ensures r.Some? ==> at < r.value.1 <= |s|
  {
    VarintFrom(s, at, 0)
  }

  /** The rest of a varint whose bits from `shift` up are still to come. */
  function VarintFrom(s: seq<byte>, at: nat, shift: nat): (r: Option<(nat, nat)>)
    ensures r.Some? ==> at < r.value.1 <= |s|
    decreases |s| - at
  {
    if at >= |s| then None
    else
      var part := s[at] as int % 0x80;
      if shift >= 64 || Shl(part, shift) >= 0x1_0000_0000_0000_0000 then None
      else if s[at] < 0x80 then Some((part, at + 1))
      else match VarintFrom(s, at + 1, shift + 7)
        case None => None
        case Some((v, end)) => Some((part + 0x80 * v, end))
  }

  lemma SevenUp(v: nat, shift: nat)
    requires shift < 64 && Shl(v, shift) < 0x1_0000_0000_0000_0000
    ensures Shl(v % 0x80, shift) < 0x1_0000_0000_0000_0000
    ensures v >= 0x80 ==> shift + 7 < 64 && Shl(v / 0x80, shift + 7) < 0x1_0000_0000_0000_0000
  {
    ShlMonotone(v % 0x80, v, shift);
    ShlMonotone(128 * (v / 128), v, shift);
    ShlShl(v / 128, 7, shift);
    SevenBits(v / 128);
    if v >= 0x80 && shift + 7 >= 64 {
      ShlMonotone(1, v / 128, shift + 7);
      ShlOne(shift + 7);
      Pow2Monotone(64, shift + 7);
      WordPowers();
    }
  }

  lemma SevenBits(x: nat)
    ensures Shl(x, 7) == 128 * x
  {
    FourBits(x, 0, 3);
    TwoBits(x, 0, 1);
    assert Shl(x, 1) == 2 * x;
  }

  lemma {:induction false} VarintFromReadsBack(s: seq<byte>, at: nat, v: nat, shift: nat)
    requires at <= |s| && Varint(v) <= s[at..]
    requires shift < 64 && Shl(v, shift) < 0x1_0000_0000_0000_0000
    ensures VarintFrom(s, at, shift) == Some((v, at + |Varint(v)|))
    decreases v
  {
    hide Shl;
    assert s[at] == s[at..][0] == Varint(v)[0];
    SevenUp(v, shift);
    if v >= 0x80 {
      assert s[at + 1..] == s[at..][1..];
      assert Varint(v)[1..] == Varint(v / 0x80);
      VarintFromReadsBack(s, at + 1, v / 0x80, shift + 7);
    }
  }

  /** Every `usize` reads back from its varint. */
  lemma VarintReadsBack(s: seq<byte>, at: nat, v: nat)
    requires at <= |s| && Varint(v) <= s[at..] && v < 0x1_0000_0000_0000_0000
    ensures VarintAt(s, at) == Some((v, at + |Varint(v)|))
  {
    assert Shl(v, 0) == v;
    VarintFromReadsBack(s, at, v, 0);
  }

  /** Bytes a varint takes, from the bit length of `v | 1`. */
  function VarintLen(v: nat): nat {
    (BitLength(if v % 2 == 0 then v + 1 else v) + 6) / 7
  }

  lemma BitLengthShift7(v: nat)
    requires v >= 0x80
    ensures BitLength(v) == 7 + BitLength(v / 0x80)
  {
    var v1 := v / 2;
    var v2 := v1 / 2;
    var v3 := v2 / 2;
    var v4 := v3 / 2;
    var v5 := v4 / 2;
    var v6 := v5 / 2;
    assert BitLength(v) == 1 + BitLength(v1) == 2 + BitLength(v2) == 3 + BitLength(v3);
    assert BitLength(v3) == 1 + BitLength(v4) == 2 + BitLength(v5) == 3 + BitLength(v6);
    assert v6 / 2 == v / 0x80;
  }

  lemma BitLengthOr1(v: nat)
    requires v >= 1
    ensures BitLength(if v % 2 == 0 then v + 1 else v) == BitLength(v)
  {
  }

  lemma {:induction false} VarintLenIsLength(v: nat)
    ensures VarintLen(v) == |Varint(v)|
  {
    if v < 0x80 {
      BitLengthSmall(if v % 2 == 0 then v + 1 else v);
    } else {
      BitLengthOr1(v);
      BitLengthOr1(v / 0x80);
      BitLengthShift7(v);
      VarintLenIsLength(v / 0x80);
    }
  }

  lemma BitLengthSmall(v: nat)
    requires 1 <= v < 0x80
    ensures 1 <= BitLength(v) <= 7
  {
    BitLengthBelow(v, 7, 0x80);
  }

  lemma {:induction false} BitLengthBelow(v: nat, n: nat, p: nat)
    requires n <= 7 && p == [1, 2, 4, 8, 16, 32, 64, 128][n] && v < p
    ensures BitLength(v) <= n
  {
    if n > 0 && v > 0 {
      BitLengthBelow(v / 2, n - 1, p / 2);
    }
  }

  // ----- the table

  function Tag(mode: Mode): byte {
    if mode.Seven? then 7 else 8
  }

  /** Each character past the one before it; the first whole. */
  function Deltas(chars: Key, prev: nat): seq<byte> {
    if chars == [] || chars[0] < prev then []
    else Varint(chars[0] - prev) + Deltas(chars[1..], chars[0])
  }

  function DeltasLen(chars: Key, prev: nat): nat {
    if chars == [] || chars[0] < prev then 0
    else VarintLen(chars[0] - prev) + DeltasLen(chars[1..], chars[0])
  }

  /** The lead widths, each less one. */
  function WidthBytes(firsts: seq<nat>): (s: seq<byte>)
    requires |firsts| > 0
    requires forall l :: 0 <= l < |firsts| - 1 ==> firsts[l] < firsts[l + 1] <= firsts[l] + 256
    ensures |s| == |firsts| - 1
  {
    seq(|firsts| - 1, l requires 0 <= l < |firsts| - 1 => firsts[l + 1] - firsts[l] - 1)
  }

  /** The stored form: the mode, the number of characters, the leads, their widths, the characters. */
  function Written(sp: Spelling): seq<byte>
    requires sp.Valid()
  {
    [Tag(sp.mode)] + Varint(|sp.chars|) + [|sp.firsts| - 1] + WidthBytes(sp.firsts) + Deltas(sp.chars, 0)
  }

  /** The stored length, counted. */
  function SerializedLen(sp: Spelling): nat {
    1 + VarintLen(|sp.chars|) + |sp.firsts| + DeltasLen(sp.chars, 0)
  }

  lemma {:induction false} DeltasLenIsLength(chars: Key, prev: nat)
    ensures DeltasLen(chars, prev) == |Deltas(chars, prev)|
  {
    if chars != [] && chars[0] >= prev {
      VarintLenIsLength(chars[0] - prev);
      DeltasLenIsLength(chars[1..], chars[0]);
    }
  }

  lemma SerializedLenIsLength(sp: Spelling)
    requires sp.Valid()
    ensures SerializedLen(sp) == |Written(sp)|
  {
    VarintLenIsLength(|sp.chars|);
    DeltasLenIsLength(sp.chars, 0);
  }

  /** The running sums of widths a byte each, from `sum` on; none past what a page holds. */
  function FirstsFrom(widths: seq<byte>, sum: nat, page: nat): Option<seq<nat>> {
    if widths == [] then Some([sum])
    else
      var w: int := widths[0] as int + 1;
      if w > page then None
      else match FirstsFrom(widths[1..], sum + w, page)
        case None => None
        case Some(rest) => Some([sum] + rest)
  }

  /** `count` characters from `at` on, each `prev` and a step on; a zero step only to the first, every
      one a scalar value and, past ASCII where the mode spells ASCII as itself, past it. */
  function CharsFrom(s: seq<byte>, at: nat, count: nat, prev: nat, first: bool, mode: Mode): Option<(Key, nat)>
    decreases count
  {
    if count == 0 then Some(([], at))
    else match VarintAt(s, at)
      case None => None
      case Some((d, end)) =>
        if !first && d == 0 then None
        else if !IsScalar(prev + d) then None
        else if mode.Eight? && prev + d < 0x80 then None
        else match CharsFrom(s, end, count - 1, prev + d, false, mode)
          case None => None
          case Some((rest, last)) => Some(([(prev + d) as Scalar] + rest, last))
  }

  /** The code a table stores, every field checked. */
  function Parsed(s: seq<byte>): Option<Spelling> {
    if s == [] || (s[0] != 7 && s[0] != 8) then None
    else
      var mode := if s[0] == 7 then Seven else Eight;
      match VarintAt(s, 1)
      case None => None
      case Some((count, at)) =>
        if count == 0 || count > LEADS * mode.Page() || at >= |s| then None
        else
          var leads: nat := s[at];
          if leads == 0 || leads > LEADS || at + 1 + leads > |s| then None
          else match FirstsFrom(s[at + 1..at + 1 + leads], 0, mode.Page())
            case None => None
            case Some(firsts) =>
              if firsts[|firsts| - 1] != count then None
              else match CharsFrom(s, at + 1 + leads, count, 0, true, mode)
                case None => None
                case Some((chars, end)) => if end == |s| then Some(Spelling(mode, chars, firsts)) else None
  }

  lemma {:induction false} FirstsReadBack(firsts: seq<nat>, page: nat)
    requires |firsts| > 0 && page <= 256
    requires forall l :: 0 <= l < |firsts| - 1 ==> firsts[l] < firsts[l + 1] <= firsts[l] + page
    ensures FirstsFrom(WidthBytes(firsts), firsts[0], page) == Some(firsts)
  {
    hide WidthBytes;
    if |firsts| > 1 {
      WidthsStep(firsts, page);
      FirstsReadBack(firsts[1..], page);
      assert firsts == [firsts[0]] + firsts[1..];
    } else {
      assert firsts == [firsts[0]];
      assert |WidthBytes(firsts)| == 0;
    }
  }

  lemma WidthsStep(firsts: seq<nat>, page: nat)
    requires |firsts| > 1 && page <= 256
    requires forall l :: 0 <= l < |firsts| - 1 ==> firsts[l] < firsts[l + 1] <= firsts[l] + page
    ensures var tail := firsts[1..];
      && (forall l :: 0 <= l < |tail| - 1 ==> tail[l] < tail[l + 1] <= tail[l] + page)
      && WidthBytes(firsts) == [(firsts[1] - firsts[0] - 1) as byte] + WidthBytes(tail)
  {
    var tail := firsts[1..];
    assert forall l :: 0 <= l < |tail| ==> tail[l] == firsts[l + 1];
  }

  lemma {:induction false} FirstsAreLeads(widths: seq<byte>, sum: nat, page: nat)
    requires FirstsFrom(widths, sum, page).Some?
    ensures var firsts := FirstsFrom(widths, sum, page).value;
      && |firsts| == |widths| + 1 && firsts[0] == sum
      && forall l :: 0 <= l < |firsts| - 1 ==> firsts[l] < firsts[l + 1] <= firsts[l] + page
  {
    if widths != [] {
      var w := widths[0] as int + 1;
      FirstsAreLeads(widths[1..], sum + w, page);
      var rest := FirstsFrom(widths[1..], sum + w, page).value;
      var firsts := FirstsFrom(widths, sum, page).value;
      assert firsts == [sum] + rest;
      forall l | 0 <= l < |firsts| - 1
        ensures firsts[l] < firsts[l + 1] <= firsts[l] + page
      {
        if l > 0 {
          assert firsts[l] == rest[l - 1] && firsts[l + 1] == rest[l];
        }
      }
    }
  }

  /** What a table may hold after `prev`. */
  ghost predicate CharsAfter(chars: Key, prev: nat, first: bool, mode: Mode) {
    && Ascending(chars)
    && (chars != [] ==> prev <= chars[0] && (first || prev < chars[0]))
    && (mode.Eight? ==> forall i :: 0 <= i < |chars| ==> chars[i] >= 0x80)
  }

  lemma Halves(whole: seq<byte>, at: nat, head: seq<byte>, tail: seq<byte>)
    requires at <= |whole| && head + tail <= whole[at..]
    ensures head <= whole[at..] && at + |head| <= |whole| && tail <= whole[at + |head|..]
  {
    assert whole[at..][..|head| + |tail|] == head + tail;
    assert whole[at + |head|..] == whole[at..][|head|..];
  }

  lemma CharsAfterFirst(chars: Key, prev: nat, first: bool, mode: Mode)
    requires CharsAfter(chars, prev, first, mode) && chars != []
    ensures CharsAfter(chars[1..], chars[0], false, mode)
  {
    assert forall i :: 0 <= i < |chars[1..]| ==> chars[1..][i] == chars[i + 1];
  }

  lemma {:induction false} CharsReadBack(s: seq<byte>, at: nat, chars: Key, prev: nat, first: bool, mode: Mode)
    requires at <= |s| && Deltas(chars, prev) <= s[at..]
    requires CharsAfter(chars, prev, first, mode)
    ensures CharsFrom(s, at, |chars|, prev, first, mode) == Some((chars, at + |Deltas(chars, prev)|))
    decreases |chars|
  {
    hide VarintAt, Varint;
    if chars != [] {
      var head := Varint(chars[0] - prev);
      Halves(s, at, head, Deltas(chars[1..], chars[0]));
      VarintReadsBack(s, at, chars[0] - prev);
      CharsAfterFirst(chars, prev, first, mode);
      CharsReadBack(s, at + |head|, chars[1..], chars[0], false, mode);
      assert chars == [chars[0]] + chars[1..];
    }
  }

  lemma {:induction false} CharsAreAnAlphabet(s: seq<byte>, at: nat, count: nat, prev: nat, first: bool, mode: Mode)
    requires CharsFrom(s, at, count, prev, first, mode).Some?
    ensures var chars := CharsFrom(s, at, count, prev, first, mode).value.0;
      |chars| == count && CharsAfter(chars, prev, first, mode)
    decreases count
  {
    if count > 0 {
      var (d, end) := VarintAt(s, at).value;
      CharsAreAnAlphabet(s, end, count - 1, prev + d, false, mode);
      var rest := CharsFrom(s, end, count - 1, prev + d, false, mode).value.0;
      var chars := CharsFrom(s, at, count, prev, first, mode).value.0;
      assert chars == [(prev + d) as Scalar] + rest;
      forall i, j | 0 <= i < j < |chars|
        ensures chars[i] < chars[j]
      {
        assert chars[j] == rest[j - 1];
        if i > 0 {
          assert chars[i] == rest[i - 1];
        } else {
          assert rest[0] <= rest[j - 1];
        }
      }
    }
  }

  /** Every code over some character is read back from the bytes it is stored as. */
  lemma WrittenReadsBack(sp: Spelling)
    requires sp.Valid() && sp.chars != []
    ensures Parsed(Written(sp)) == Some(sp)
  {
    hide VarintAt, Varint, CharsFrom, FirstsFrom, Deltas, WidthBytes, Written;
    var s := Written(sp);
    var at := 1 + |Varint(|sp.chars|)|;
    var leads := |sp.firsts| - 1;
    WrittenParts(sp);
    AlphabetBound(sp);
    VarintReadsBack(s, 1, |sp.chars|);
    FirstsReadBack(sp.firsts, sp.mode.Page());
    assert FirstsFrom(s[at + 1..at + 1 + leads], 0, sp.mode.Page()) == Some(sp.firsts);
    CharsReadBack(s, at + 1 + leads, sp.chars, 0, true, sp.mode);
  }

  lemma WrittenParts(sp: Spelling)
    requires sp.Valid()
    ensures var s := Written(sp);
      var at := 1 + |Varint(|sp.chars|)|;
      var leads := |sp.firsts| - 1;
      && |s| == at + 1 + leads + |Deltas(sp.chars, 0)|
      && s[0] == Tag(sp.mode)
      && Varint(|sp.chars|) <= s[1..]
      && s[at] == leads
      && s[at + 1..at + 1 + leads] == WidthBytes(sp.firsts)
      && s[at + 1 + leads..] == Deltas(sp.chars, 0)
  {
    var a, b, c, d := Varint(|sp.chars|), [(|sp.firsts| - 1) as byte], WidthBytes(sp.firsts), Deltas(sp.chars, 0);
    assert Written(sp) == [Tag(sp.mode)] + a + b + c + d;
  }

  lemma AlphabetBound(sp: Spelling)
    requires sp.Valid()
    ensures |sp.chars| <= (|sp.firsts| - 1) * sp.mode.Page() <= LEADS * sp.mode.Page()
    ensures sp.chars != [] ==> |sp.firsts| > 1
  {
    FirstsBound(sp, |sp.firsts| - 1);
  }

  lemma {:induction false} FirstsBound(sp: Spelling, l: nat)
    requires sp.Valid() && l < |sp.firsts|
    ensures sp.firsts[l] <= l * sp.mode.Page()
  {
    if l > 0 {
      FirstsBound(sp, l - 1);
    }
  }

  /** Whatever bytes a table is read from, what is read is a well-formed code, so all that holds of
      codes that were built holds of it. */
  lemma ParsedIsValid(s: seq<byte>)
    requires Parsed(s).Some?
    ensures Parsed(s).value.Valid() && Parsed(s).value.chars != []
  {
    var mode := if s[0] == 7 then Seven else Eight;
    var (count, at) := VarintAt(s, 1).value;
    var leads: nat := s[at];
    FirstsAreLeads(s[at + 1..at + 1 + leads], 0, mode.Page());
    CharsAreAnAlphabet(s, at + 1 + leads, count, 0, true, mode);
  }
}
