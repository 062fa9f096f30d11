/** The fingerprint threads: each stages its records range by range and empties a full stage into the
    range's file, the threads taking turns in any order. */
module FpStage {
  import opened Lex
  import opened Bits
  import opened FpTable
  import opened FpPlace

  /** Bytes a thread stages for one range. */
  const STAGE := 0x1_0000

  /** A thread: the puts it has yet to make, and what it holds staged for each range. */
  datatype Thread = Thread(rest: seq<Put>, stage: seq<seq<Put>>)

  /** The lists one after another. */
  function Together(parts: seq<seq<Put>>): seq<Put> {
    if parts == [] then [] else Together(parts[..|parts| - 1]) + parts[|parts| - 1]
  }

  lemma TogetherOne(parts: seq<seq<Put>>)
    requires |parts| == 1
    ensures Together(parts) == parts[0]
  {
    assert Together(parts) == Together([]) + parts[0];
  }

  // ----- what is still to reach the files

  function InStages(stage: seq<seq<Put>>): multiset<Put> {
    if stage == [] then multiset{} else multiset(stage[0]) + InStages(stage[1..])
  }

  function Pending(thread: Thread): multiset<Put> {
    multiset(thread.rest) + InStages(thread.stage)
  }

  function AllPending(threads: seq<Thread>): multiset<Put> {
    if threads == [] then multiset{} else Pending(threads[|threads| - 1]) + AllPending(threads[..|threads| - 1])
  }

  /** Puts no thread has made. */
  function Unmade(threads: seq<Thread>): nat {
    if threads == [] then 0 else Unmade(threads[..|threads| - 1]) + |threads[|threads| - 1].rest|
  }

  lemma Beside(h: multiset<Put>, a: multiset<Put>, x: multiset<Put>, b: multiset<Put>, y: multiset<Put>)
    requires a + x == b + y
    ensures (h + a) + x == (h + b) + y
  {
    assert (h + a) + x == h + (a + x) && (h + b) + y == h + (b + y);
  }

  /** What one gave up and another took is still among them. */
  lemma Balance(a: multiset<Put>, x: multiset<Put>, b: multiset<Put>, y: multiset<Put>, h: multiset<Put>,
                k: multiset<Put>)
    requires a + x == b + y && h + y == k + x
    ensures h + a == k + b
  {
    forall p: Put
      ensures (h + a)[p] == (k + b)[p]
    {
      assert (a + x)[p] == (b + y)[p] && (h + y)[p] == (k + x)[p];
    }
  }

  lemma {:induction false} StageReplaced(stage: seq<seq<Put>>, r: nat, batch: seq<Put>)
    requires r < |stage|
    ensures InStages(stage[r := batch]) + multiset(stage[r]) == InStages(stage) + multiset(batch)
  {
    if r == 0 {
      assert stage[r := batch][1..] == stage[1..];
    } else {
      assert stage[r := batch][1..] == stage[1..][r - 1 := batch];
      StageReplaced(stage[1..], r - 1, batch);
      Beside(multiset(stage[0]), InStages(stage[1..][r - 1 := batch]), multiset(stage[r]), InStages(stage[1..]),
        multiset(batch));
    }
  }

  lemma {:induction false} ThreadReplaced(threads: seq<Thread>, t: nat, thread: Thread)
    requires t < |threads|
    ensures AllPending(threads[t := thread]) + Pending(threads[t]) == AllPending(threads) + Pending(thread)
    ensures Unmade(threads[t := thread]) + |threads[t].rest| == Unmade(threads) + |thread.rest|
  {
    hide Pending;
    var last := |threads| - 1;
    if t == last {
      assert threads[t := thread][..last] == threads[..last];
    } else {
      assert threads[t := thread][..last] == threads[..last][t := thread];
      ThreadReplaced(threads[..last], t, thread);
      Beside(Pending(threads[last]), AllPending(threads[..last][t := thread]), Pending(threads[t]),
        AllPending(threads[..last]), Pending(thread));
    }
  }

  lemma {:induction false} NothingStaged(stage: seq<seq<Put>>)
    requires forall r :: 0 <= r < |stage| ==> stage[r] == []
    ensures InStages(stage) == multiset{}
  {
    if stage != [] {
      NothingStaged(stage[1..]);
    }
  }

  predicate Done(thread: Thread) {
    thread.rest == [] && forall r :: 0 <= r < |thread.stage| ==> thread.stage[r] == []
  }

  lemma {:induction false} AllDone(threads: seq<Thread>)
    requires forall t :: 0 <= t < |threads| ==> Done(threads[t])
    ensures AllPending(threads) == multiset{}
  {
    if threads != [] {
      AllDone(threads[..|threads| - 1]);
      NothingStaged(threads[|threads| - 1].stage);
    }
  }

  /** Every put is of a slot there is, and staged for the range its slot falls in. */
  ghost predicate Sorted(thread: Thread, ranges: nat, size: nat, m: nat)
    requires size >= 1
  {
    && |thread.stage| == ranges
    && (forall put <- thread.rest :: put.0 < m)
    && forall r :: 0 <= r < ranges ==> forall put <- thread.stage[r] :: put.0 < m && put.0 / size == r
  }

  // ----- one turn

  /** A stage emptied into its range's file. */
  lemma {:induction false} StagedBatch(files: seq<seq<byte>>, bases: seq<nat>, order: seq<Put>, batch: seq<Put>, r: nat,
      size: nat, width: nat, m: nat)
    requires size >= 1 && Bases(bases, size, m) && Staged(files, bases, order, size, width) && r < |files|
    requires forall put <- batch :: put.0 < m && put.0 / size == r
    ensures Staged(files[r := files[r] + Records(batch, width)], bases, order + batch, size, width)
    decreases |batch|
  {
    hide Staged, Bases;
    if batch == [] {
      assert files[r] + Records(batch, width) == files[r];
      assert files[r := files[r]] == files && order + batch == order;
    } else {
      var front, last := batch[..|batch| - 1], batch[|batch| - 1];
      StagedBatch(files, bases, order, front, r, size, width, m);
      BatchGrows(files, order, front, last, r, width);
      StagedOneMore(files[r := files[r] + Records(front, width)], bases, order + front, last, size, width, m);
      assert batch == front + [last];
    }
  }

  lemma BatchGrows(files: seq<seq<byte>>, order: seq<Put>, front: seq<Put>, last: Put, r: nat, width: nat)
    requires r < |files|
    ensures order + front + [last] == order + (front + [last])
    ensures var before := files[r := files[r] + Records(front, width)];
      before[r := before[r] + Record(last, width)] == files[r := files[r] + Records(front + [last], width)]
  {
    hide Record;
    RecordsSnoc(front, last, width);
    assert files[r] + Records(front, width) + Record(last, width)
        == files[r] + (Records(front, width) + Record(last, width));
  }

  /** A thread's stage for range `r` written to its file and started over. */
  method FlushRange(thread: Thread, r: nat, files0: seq<seq<byte>>, width: nat, size: nat,
                    ghost bases: seq<nat>, ghost order0: seq<Put>, ghost m: nat)
    returns (after: Thread, files: seq<seq<byte>>, ghost order: seq<Put>)
    requires size >= 1 && Bases(bases, size, m) && Staged(files0, bases, order0, size, width)
    requires Sorted(thread, |files0|, size, m) && r < |files0|
    ensures Staged(files, bases, order, size, width) && |files| == |files0|
    ensures Sorted(after, |files|, size, m) && after.rest == thread.rest && after.stage == thread.stage[r := []]
    ensures multiset(order) + Pending(after) == multiset(order0) + Pending(thread)
    ensures |Pending(after)| + |thread.stage[r]| == |Pending(thread)|
  {
    hide Staged, Bases, InStages;
    StagedBatch(files0, bases, order0, thread.stage[r], r, size, width, m);
    StageReplaced(thread.stage, r, []);
    Beside(multiset(thread.rest), InStages(thread.stage[r := []]), multiset(thread.stage[r]), InStages(thread.stage),
      multiset{});
    files := files0[r := files0[r] + Records(thread.stage[r], width)];
    order := order0 + thread.stage[r];
    after := Thread(thread.rest, thread.stage[r := []]);
    assert Pending(after) + multiset(thread.stage[r]) == Pending(thread) + multiset{};
    Balance(Pending(after), multiset(thread.stage[r]), Pending(thread), multiset{}, multiset(order), multiset(order0));
    assert |Pending(after) + multiset(thread.stage[r])| == |Pending(thread)|;
  }

  lemma Staging(rest: multiset<Put>, a: multiset<Put>, x: multiset<Put>, b: multiset<Put>, put: Put)
    requires a + x == b + (x + multiset{put})
    ensures rest + a == (multiset{put} + rest) + b
  {
    Balance(a, x, b, x + multiset{put}, rest, multiset{put} + rest);
  }

  /** The next put staged for its range, whose stage is written out first where it has no room. */
  method PutNext(thread: Thread, files0: seq<seq<byte>>, width: nat, size: nat,
                 ghost bases: seq<nat>, ghost order0: seq<Put>, ghost m: nat)
    returns (after: Thread, files: seq<seq<byte>>, ghost order: seq<Put>)
    requires size >= 1 && Bases(bases, size, m) && Staged(files0, bases, order0, size, width)
    requires Sorted(thread, |files0|, size, m) && thread.rest != []
    ensures Staged(files, bases, order, size, width) && |files| == |files0|
    ensures Sorted(after, |files|, size, m) && after.rest == thread.rest[1..]
    ensures multiset(order) + Pending(after) == multiset(order0) + Pending(thread)
  {
    hide Staged, InStages;
    var put: Put := thread.rest[0];
    var r := put.0 / size;
    assert put in thread.rest;
    assert r < |files0| by { RangesEnough(files0, bases, order0, size, width, m, put.0); }
    after, files, order := thread, files0, order0;
    if (|thread.stage[r]| + 1) * (4 + width) > STAGE {
      after, files, order := FlushRange(after, r, files, width, size, bases, order, m);
    }
    var batch: seq<Put> := after.stage[r] + [put];
    StageReplaced(after.stage, r, batch);
    assert thread.rest == [put] + thread.rest[1..];
    Staging(multiset(thread.rest[1..]), InStages(after.stage[r := batch]), multiset(after.stage[r]),
      InStages(after.stage), put);
    after := Thread(thread.rest[1..], after.stage[r := batch]);
  }

  lemma RangesEnough(files: seq<seq<byte>>, bases: seq<nat>, order: seq<Put>, size: nat, width: nat, m: nat, slot: nat)
    requires size >= 1 && Bases(bases, size, m) && Staged(files, bases, order, size, width) && slot < m
    ensures slot / size < |files|
  {
  }

  // ----- all of them, in any order

  method NextBusy(threads: seq<Thread>, from: nat) returns (t: nat)
    ensures t <= |threads|
    ensures t < |threads| ==> !Done(threads[t])
    ensures t == |threads| ==> forall k :: 0 <= k < |threads| ==> Done(threads[k])
  {
    t := 0;
    if threads != [] && !Done(threads[from % |threads|]) {
      return from % |threads|;
    }
    while t < |threads| && Done(threads[t])
      invariant 0 <= t <= |threads|
      invariant forall k :: 0 <= k < t ==> Done(threads[k])
    {
      t := t + 1;
    }
  }

  method FirstStaged(stage: seq<seq<Put>>) returns (r: nat)
    requires exists r :: 0 <= r < |stage| && stage[r] != []
    ensures r < |stage| && stage[r] != []
  {
    r := 0;
    while stage[r] == []
      invariant 0 <= r < |stage|
      invariant exists k :: r <= k < |stage| && stage[k] != []
      decreases |stage| - r
    {
      r := r + 1;
    }
  }

  /** The threads at work: what the files hold and what is still to reach them are the threads' puts. */
  ghost predicate Working(threads: seq<Thread>, files: seq<seq<byte>>, bases: seq<nat>, order: seq<Put>, size: nat,
      width: nat, m: nat, all: multiset<Put>)
    requires size >= 1
  {
    && Staged(files, bases, order, size, width) && |files| == |bases|
    && (forall t :: 0 <= t < |threads| ==> Sorted(threads[t], |files|, size, m))
    && multiset(order) + AllPending(threads) == all
  }

  method TakeTurn(threads0: seq<Thread>, t: nat, files0: seq<seq<byte>>, width: nat, size: nat,
                  ghost bases: seq<nat>, ghost order0: seq<Put>, ghost m: nat, ghost all: multiset<Put>)
    returns (threads: seq<Thread>, files: seq<seq<byte>>, ghost order: seq<Put>)
    requires size >= 1 && Bases(bases, size, m) && t < |threads0| && !Done(threads0[t])
    requires Working(threads0, files0, bases, order0, size, width, m, all)
    ensures |threads| == |threads0| && Working(threads, files, bases, order, size, width, m, all)
    ensures Unmade(threads) < Unmade(threads0)
      || (Unmade(threads) == Unmade(threads0) && |AllPending(threads)| < |AllPending(threads0)|)
  {
    hide Staged, Bases, AllPending, Pending, Unmade, Sorted;
    var thread := threads0[t];
    var after;
    if thread.rest != [] {
      after, files, order := PutNext(thread, files0, width, size, bases, order0, m);
    } else {
      var r := FirstStaged(thread.stage);
      assert |thread.stage| == |files0| by { StagePerRange(thread, |files0|, size, m); }
      after, files, order := FlushRange(thread, r, files0, width, size, bases, order0, m);
    }
    ThreadReplaced(threads0, t, after);
    Balance(AllPending(threads0[t := after]), Pending(thread), AllPending(threads0), Pending(after), multiset(order),
      multiset(order0));
    assert |AllPending(threads0[t := after]) + Pending(thread)| == |AllPending(threads0) + Pending(after)|;
    threads := threads0[t := after];
  }

  lemma StagePerRange(thread: Thread, ranges: nat, size: nat, m: nat)
    requires size >= 1 && Sorted(thread, ranges, size, m)
    ensures |thread.stage| == ranges
  {
  }

  /** The files hold the threads' puts in `order`. */
  ghost predicate Arrived(files: seq<seq<byte>>, bases: seq<nat>, order: seq<Put>, parts: seq<seq<Put>>, size: nat,
      width: nat)
  {
    Staged(files, bases, order, size, width) && multiset(order) == multiset(Together(parts))
  }

  /** The threads to the end, `turns` saying which comes next: the range files hold the puts of them all,
      in some order. */
  method StageAll(parts: seq<seq<Put>>, turns: nat -> nat, size: nat, width: nat, ghost bases: seq<nat>, ranges: nat,
                  ghost m: nat)
    returns (files: seq<seq<byte>>)
    requires size >= 1 && Bases(bases, size, m) && |bases| == ranges
    requires forall put <- Together(parts) :: put.0 < m
    ensures exists order :: Arrived(files, bases, order, parts, size, width)
  {
    hide Working, Bases, AllPending, Unmade, Done, Staged;
    files := seq(ranges, _ => []);
    ghost var order := [];
    var threads := seq(|parts|, t requires 0 <= t < |parts| => Thread(parts[t], seq(ranges, _ => [])));
    ghost var all := multiset(Together(parts));
    AtTheStart(parts, threads, files, bases, size, width, m);
    var k := 0;
    while true
      invariant Working(threads, files, bases, order, size, width, m, all)
      decreases Unmade(threads), |AllPending(threads)|
    {
      var t := NextBusy(threads, turns(k));
      if t == |threads| {
        AllDone(threads);
        break;
      }
      threads, files, order := TakeTurn(threads, t, files, width, size, bases, order, m, all);
      k := k + 1;
    }
    AtTheEnd(threads, files, bases, order, size, width, m, all);
    assert Arrived(files, bases, order, parts, size, width);
  }

  lemma AtTheEnd(threads: seq<Thread>, files: seq<seq<byte>>, bases: seq<nat>, order: seq<Put>, size: nat, width: nat,
      m: nat, all: multiset<Put>)
    requires size >= 1 && Working(threads, files, bases, order, size, width, m, all)
    requires AllPending(threads) == multiset{}
    ensures Staged(files, bases, order, size, width) && multiset(order) == all
  {
  }

  lemma AtTheStart(parts: seq<seq<Put>>, threads: seq<Thread>, files: seq<seq<byte>>, bases: seq<nat>, size: nat,
      width: nat, m: nat)
    requires size >= 1 && |files| == |bases| && |threads| == |parts|
    requires forall r :: 0 <= r < |files| ==> files[r] == []
    requires forall t :: 0 <= t < |threads| ==> threads[t] == Thread(parts[t], seq(|bases|, _ => []))
    requires forall put <- Together(parts) :: put.0 < m
    ensures Working(threads, files, bases, [], size, width, m, multiset(Together(parts)))
  {
    hide Together;
    AllToCome(parts, threads, |bases|);
    forall t | 0 <= t < |threads|
      ensures Sorted(threads[t], |files|, size, m)
    {
      InTogether(parts, t);
    }
  }

  lemma {:induction false} InTogether(parts: seq<seq<Put>>, t: nat)
    requires t < |parts|
    ensures forall put <- parts[t] :: put in Together(parts)
  {
    if t < |parts| - 1 {
      assert parts[..|parts| - 1][t] == parts[t];
      InTogether(parts[..|parts| - 1], t);
    }
  }

  lemma {:induction false} AllToCome(parts: seq<seq<Put>>, threads: seq<Thread>, ranges: nat)
    requires |threads| == |parts|
    requires forall t :: 0 <= t < |threads| ==> threads[t] == Thread(parts[t], seq(ranges, _ => []))
    ensures AllPending(threads) == multiset(Together(parts))
  {
    if parts != [] {
      var n := |parts| - 1;
      AllToCome(parts[..n], threads[..n], ranges);
      NothingStaged(threads[n].stage);
    }
  }

  // ----- the table they make

  lemma {:induction false} AtMostOnce(puts: seq<Put>, x: Put)
    requires forall i, j :: 0 <= i < j < |puts| ==> puts[i].0 != puts[j].0
    ensures multiset(puts)[x] <= 1
  {
    if puts != [] {
      var front, last := puts[..|puts| - 1], puts[|puts| - 1];
      AtMostOnce(front, x);
      assert puts == front + [last];
      if x == last {
        assert x !in front;
        assert multiset(front)[x] == 0;
      }
    }
  }

  lemma AtLeastTwice(puts: seq<Put>, i: nat, j: nat)
    requires i < j < |puts| && puts[i] == puts[j]
    ensures multiset(puts)[puts[i]] >= 2
  {
    var x := puts[i];
    assert puts == puts[..i] + [x] + puts[i + 1..j] + [x] + puts[j + 1..];
    assert multiset(puts)
        == multiset(puts[..i]) + multiset{x} + multiset(puts[i + 1..j]) + multiset{x} + multiset(puts[j + 1..]);
  }

  /** Puts in another order are still each of its own slot. */
  lemma PutsPermuted(puts: seq<Put>, order: seq<Put>, m: nat, bits: nat)
    requires Puts(puts, m, bits) && multiset(order) == multiset(puts)
    ensures Puts(order, m, bits) && forall x: Put :: x in puts <==> x in order
  {
    assert forall x: Put :: x in puts <==> x in multiset(puts);
    assert forall x: Put :: x in order <==> x in multiset(order);
    forall i, j | 0 <= i < j < |order|
      ensures order[i].0 != order[j].0
    {
      assert order[i] in puts && order[j] in puts;
      AtMostOnce(puts, order[i]);
      if order[i] == order[j] {
        AtLeastTwice(order, i, j);
      }
    }
    forall i | 0 <= i < |order|
      ensures order[i].0 < m && order[i].1 < Pow2(bits)
    {
      assert order[i] in puts;
    }
  }

  /** Through range files, on a thread a list of puts, taking turns in any order: the bytes a table in memory
      has. */
  method PlaceInRanges(parts: seq<seq<Put>>, turns: nat -> nat, m: nat, bits: nat, size: nat) returns (out: seq<byte>)
    requires 1 <= bits <= 64 && Puts(Together(parts), m, bits)
    requires size >= 1 && size % 8 == 0 && m < 0x1_0000_0000
    ensures TableOf(out, Filled(Together(parts), m), bits)
  {
    hide Filled, TableOf, Staged, Bases;
    ghost var puts := Together(parts);
    var ranges, bases := CountRanges(m, size);
    var files := StageAll(parts, turns, size, (bits + 7) / 8, bases, ranges, m);
    ghost var order :| Arrived(files, bases, order, parts, size, (bits + 7) / 8);
    PutsPermuted(puts, order, m, bits);
    FilledInAnyOrder(puts, order, m, bits);
    out := JoinRanges(files, bases, order, m, bits, size);
  }
}
