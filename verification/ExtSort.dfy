/** The spilled runs: collapsed in groups while there are too many to open at once, and merged as one
    ascending stream; and the loop that fills them. The distinct keys come out, whatever the budget and
    the fan-in, as long as every key is under 4 GiB. */
module ExtSort {
  import opened Lex
  import opened Bits
  import opened Utf8
  import opened Wrappers
  import opened Utf8Check
  import opened KeyLists
  import opened RunFiles
  import opened KeyRuns

  // ----- merging runs

  /** What the runs hold from where each one stands. */
  function Coming(slices: seq<seq<Bytes>>, pos: seq<nat>): multiset<Bytes>
    requires |pos| == |slices| && forall i :: 0 <= i < |pos| ==> pos[i] <= |slices[i]|
  {
    if pos == [] then multiset{} else multiset(slices[0][pos[0]..]) + Coming(slices[1..], pos[1..])
  }

  /** Everything the runs hold. */
  function AllOf(slices: seq<seq<Bytes>>): multiset<Bytes> {
    if slices == [] then multiset{} else multiset(slices[0]) + AllOf(slices[1..])
  }

  lemma {:induction false} ComingAtFirst(slices: seq<seq<Bytes>>, pos: seq<nat>)
    requires |pos| == |slices| && forall i :: 0 <= i < |pos| ==> pos[i] == 0
    ensures Coming(slices, pos) == AllOf(slices)
  {
    if slices != [] {
      assert slices[0][0..] == slices[0];
      ComingAtFirst(slices[1..], pos[1..]);
    }
  }

  lemma {:induction false} ComingFalls(slices: seq<seq<Bytes>>, pos: seq<nat>, i: nat)
    requires |pos| == |slices| && forall j :: 0 <= j < |pos| ==> pos[j] <= |slices[j]|
    requires i < |pos| && pos[i] < |slices[i]|
    ensures Coming(slices, pos) == Coming(slices, pos[i := pos[i] + 1]) + multiset{slices[i][pos[i]]}
  {
    var pos' := pos[i := pos[i] + 1];
    if i == 0 {
      assert pos'[1..] == pos[1..];
      assert slices[0][pos[0]..] == [slices[0][pos[0]]] + slices[0][pos[0] + 1..];
    } else {
      assert pos'[1..] == pos[1..][i - 1 := pos[i] + 1];
      ComingFalls(slices[1..], pos[1..], i - 1);
    }
  }

  lemma {:induction false} ComingSpent(slices: seq<seq<Bytes>>, pos: seq<nat>)
    requires |pos| == |slices| && forall i :: 0 <= i < |pos| ==> pos[i] == |slices[i]|
    ensures Coming(slices, pos) == multiset{}
  {
    if slices != [] {
      ComingSpent(slices[1..], pos[1..]);
    }
  }

  /** A run file as the spills leave it: it reads, and its keys ascend. */
  ghost predicate Sound(file: seq<byte>) {
    KeysIn(file).Some? && Ascending(KeysIn(file).value)
  }

  /** The keys of each file. */
  ghost function KeysOfAll(files: seq<seq<byte>>): (slices: seq<seq<Bytes>>)
    requires forall i :: 0 <= i < |files| ==> Sound(files[i])
    ensures |slices| == |files|
  {
    seq(|files|, i requires 0 <= i < |files| && Sound(files[i]) => KeysIn(files[i]).value)
  }

  /** A reader that has read `slice` up to `pos`, and the key there, if there is one. */
  ghost predicate Stands(reader: RunReader, head: Option<Bytes>, slice: seq<Bytes>, pos: nat)
    reads reader
  {
    && pos <= |slice|
    && head == (if pos < |slice| then Some(slice[pos]) else None)
    && reader.Keys() == Some(if pos < |slice| then slice[pos + 1..] else [])
  }

  ghost predicate AllStand(readers: seq<RunReader>, heads: seq<Option<Bytes>>, slices: seq<seq<Bytes>>, pos: seq<nat>)
    reads readers
  {
    && |readers| == |heads| == |pos| <= |slices|
    && (forall i, j :: 0 <= i < j < |readers| ==> readers[i] != readers[j])
    && forall i :: 0 <= i < |readers| ==> Stands(readers[i], heads[i], slices[i], pos[i])
  }

  method OpenRun(file: seq<byte>) returns (reader: RunReader, head: Option<Bytes>)
    requires Sound(file)
    ensures fresh(reader) && Stands(reader, head, KeysIn(file).value, 0)
  {
    hide FirstKeys;
    reader := new RunReader(file);
    var step := reader.Next();
    head := if step.Key? then Some(step.key) else None;
  }

  /** Open every run and read its first key. */
  method OpenAll(files: seq<seq<byte>>) returns (readers: seq<RunReader>, heads: seq<Option<Bytes>>)
    requires forall i :: 0 <= i < |files| ==> Sound(files[i])
    ensures fresh(readers) && AllStand(readers, heads, KeysOfAll(files), seq(|files|, _ => 0))
  {
    hide Sound, KeysIn, Stands;
    readers, heads := [], [];
    ghost var slices := KeysOfAll(files);
    for k := 0 to |files|
      invariant |readers| == |heads| == k && fresh(readers)
      invariant forall i, j :: 0 <= i < j < k ==> readers[i] != readers[j]
      invariant forall i :: 0 <= i < k ==> Stands(readers[i], heads[i], slices[i], 0)
    {
      var reader, head := OpenRun(files[k]);
      readers := readers + [reader];
      heads := heads + [head];
    }
  }

  /** The heap's top: the run whose next key is least. */
  method LeastHead(heads: seq<Option<Bytes>>) returns (i: nat)
    ensures i <= |heads|
    ensures i == |heads| <==> forall j :: 0 <= j < |heads| ==> heads[j].None?
    ensures i < |heads| ==> heads[i].Some? && HeadsAtLeast(heads, heads[i].value)
  {
    i := |heads|;
    for j := 0 to |heads|
      invariant i < j || i == |heads|
      invariant i == |heads| ==> forall k :: 0 <= k < j ==> heads[k].None?
      invariant i < |heads| ==> heads[i].Some? && HeadsAtLeast(heads[..j], heads[i].value)
    {
      assert heads[..j + 1] == heads[..j] + [heads[j]];
      if heads[j].Some? {
        if i == |heads| {
          i := j;
          AtMostTotal(heads[j].value, heads[j].value);
        } else {
          var a, b := heads[i].value, heads[j].value;
          AtMostTotal(a, b);
          if Less(b, a) {
            forall k | 0 <= k < j && heads[k].Some?
              ensures AtMost(b, heads[k].value)
            {
              assert heads[..j][k] == heads[k];
              AtMostTransitive(b, a, heads[k].value);
            }
            i := j;
          }
        }
      }
    }
    assert heads[..|heads|] == heads;
  }

  ghost predicate HeadsAtLeast(heads: seq<Option<Bytes>>, x: Bytes) {
    forall j :: 0 <= j < |heads| && heads[j].Some? ==> AtMost(x, heads[j].value)
  }

  lemma Standing(readers: seq<RunReader>, heads: seq<Option<Bytes>>, slices: seq<seq<Bytes>>, pos: seq<nat>)
    requires AllStand(readers, heads, slices, pos) && |slices| == |pos|
    ensures |heads| == |readers| == |pos| && forall j :: 0 <= j < |pos| ==> pos[j] <= |slices[j]|
    ensures forall j :: 0 <= j < |pos| ==> heads[j] == if pos[j] < |slices[j]| then Some(slices[j][pos[j]]) else None
  {
    forall j | 0 <= j < |pos|
      ensures pos[j] <= |slices[j]|
      ensures heads[j] == if pos[j] < |slices[j]| then Some(slices[j][pos[j]]) else None
    {
      assert Stands(readers[j], heads[j], slices[j], pos[j]);
    }
  }

  /** A reader moved one key on. */
  method ReadOn(reader: RunReader, ghost head0: Option<Bytes>, ghost slice: seq<Bytes>, ghost pos: nat)
    returns (head: Option<Bytes>)
    requires Stands(reader, head0, slice, pos) && pos < |slice|
    modifies reader
    ensures Stands(reader, head, slice, pos + 1)
  {
    hide FirstKeys, FirstKey;
    var step := reader.Next();
    head := if step.Key? then Some(step.key) else None;
    if step.Key? {
      assert slice[pos + 1..][0] == slice[pos + 1] == step.key;
      assert slice[pos + 1..][1..] == slice[pos + 2..];
    }
  }

  lemma HeadReplaced(heads: seq<Option<Bytes>>, i: nat, head: Option<Bytes>, slice: seq<Bytes>, pos: nat)
    requires i < |heads| && pos < |slice| && heads[i] == Some(slice[pos]) && Ascending(slice)
    requires HeadsAtLeast(heads, slice[pos])
    requires head == if pos + 1 < |slice| then Some(slice[pos + 1]) else None
    ensures HeadsAtLeast(heads[i := head], slice[pos])
  {
    hide AtMost;
    if pos + 1 < |slice| {
      assert AtMost(slice[pos + 1 - 1], slice[pos + 1]);
    }
  }

  /** The next key of run `i` read in place of its head. */
  method Advance(readers: seq<RunReader>, heads0: seq<Option<Bytes>>, i: nat,
                 ghost slices: seq<seq<Bytes>>, ghost pos: seq<nat>)
    returns (heads: seq<Option<Bytes>>)
    requires AllStand(readers, heads0, slices, pos) && i < |heads0| && heads0[i].Some?
    requires Ascending(slices[i]) && HeadsAtLeast(heads0, heads0[i].value)
    modifies readers[i]
    ensures AllStand(readers, heads, slices, pos[i := pos[i] + 1])
    ensures HeadsAtLeast(heads, heads0[i].value)
  {
    hide FirstKeys, Ascending, HeadsAtLeast;
    assert Stands(readers[i], heads0[i], slices[i], pos[i]);
    var head := ReadOn(readers[i], heads0[i], slices[i], pos[i]);
    heads := heads0[i := head];
    HeadReplaced(heads0, i, head, slices[i], pos[i]);
    forall j | 0 <= j < |readers|
      ensures Stands(readers[j], heads[j], slices[j], pos[i := pos[i] + 1][j])
    {
      assert j != i ==> readers[j] != readers[i] && old(Stands(readers[j], heads0[j], slices[j], pos[j]));
    }
  }

  lemma AllAscend(files: seq<seq<byte>>)
    requires forall i :: 0 <= i < |files| ==> Sound(files[i])
    ensures Ascending([]) && forall i :: 0 <= i < |files| ==> Ascending(KeysOfAll(files)[i])
  {
  }

  lemma LeastIsNext(heads: seq<Option<Bytes>>, i: nat, out: seq<Bytes>)
    requires i < |heads| && heads[i].Some? && (out != [] ==> HeadsAtLeast(heads, out[|out| - 1]))
    ensures out != [] ==> AtMost(out[|out| - 1], heads[i].value)
  {
  }

  lemma KeyTaken(out: seq<Bytes>, key: Bytes, before: multiset<Bytes>, after: multiset<Bytes>)
    requires before == after + multiset{key}
    ensures multiset(out + [key]) + after == multiset(out) + before && |after| < |before|
  {
  }

  /** Merge the runs, losing no copy of a key: always the least head is taken, and its run's next key read in
      its place. */
  method MergeRuns(files: seq<seq<byte>>) returns (out: seq<Bytes>)
    requires forall i :: 0 <= i < |files| ==> Sound(files[i])
    ensures Ascending(out) && multiset(out) == AllOf(KeysOfAll(files))
  {
    hide AllOf, Coming, Sound, AllStand, Ascending, HeadsAtLeast, KeysOfAll;
    var readers, heads := OpenAll(files);
    ghost var slices := KeysOfAll(files);
    AllAscend(files);
    ghost var pos := seq(|files|, _ => 0);
    ComingAtFirst(slices, pos);
    Standing(readers, heads, slices, pos);
    out := [];
    while true
      invariant fresh(readers) && AllStand(readers, heads, slices, pos)
      invariant |readers| == |heads| == |pos| == |slices| && forall j :: 0 <= j < |pos| ==> pos[j] <= |slices[j]|
      invariant Ascending(out)
      invariant multiset(out) + Coming(slices, pos) == AllOf(slices)
      invariant out != [] ==> HeadsAtLeast(heads, out[|out| - 1])
      decreases |Coming(slices, pos)|
    {
      var i := LeastHead(heads);
      Standing(readers, heads, slices, pos);
      if i == |heads| {
        ComingSpent(slices, pos);
        break;
      }
      var key := heads[i].value;
      ComingFalls(slices, pos, i);
      LeastIsNext(heads, i, out);
      KeyTaken(out, key, Coming(slices, pos), Coming(slices, pos[i := pos[i] + 1]));
      SnocAscending(out, key);
      out := out + [key];
      heads := Advance(readers, heads, i, slices, pos);
      pos := pos[i := pos[i] + 1];
      Standing(readers, heads, slices, pos);
    }
  }

  // ----- the spilled runs

  ghost predicate Distinct(ids: seq<nat>) {
    forall i, j :: 0 <= i < j < |ids| ==> ids[i] != ids[j]
  }

  /** What the named files hold, in the order named. */
  ghost function Named(disk: map<nat, seq<Bytes>>, ids: seq<nat>): (slices: seq<seq<Bytes>>)
    requires forall i :: 0 <= i < |ids| ==> ids[i] in disk
    ensures |slices| == |ids|
  {
    seq(|ids|, i requires 0 <= i < |ids| => disk[ids[i]])
  }

  /** The keys of the files that read. */
  ghost function Decoded(files: map<nat, seq<byte>>): (disk: map<nat, seq<Bytes>>) {
    map id | id in files && KeysIn(files[id]).Some? :: KeysIn(files[id]).value
  }

  lemma DecodedWritten(files: map<nat, seq<byte>>, id: nat, keys: seq<Bytes>)
    requires |keys| < U64_END && forall key <- keys :: Short(key) && IsText(key)
    ensures KeysIn(FileOf(keys)) == Some(keys)
    ensures Decoded(files[id := FileOf(keys)]) == Decoded(files)[id := keys]
  {
    hide KeysIn, FileOf, IsText;
    FileReadsBack(keys);
  }

  lemma DecodedRemoved(files: map<nat, seq<byte>>, ids: set<nat>)
    ensures Decoded(files - ids) == Decoded(files) - ids
  {
    hide KeysIn;
  }

  lemma {:induction false} AllOfConcat(a: seq<seq<Bytes>>, b: seq<seq<Bytes>>)
    ensures AllOf(a + b) == AllOf(a) + AllOf(b)
  {
    if a == [] {
      assert a + b == b;
    } else {
      assert (a + b)[1..] == a[1..] + b;
      AllOfConcat(a[1..], b);
    }
  }

  lemma AllOfOne(a: seq<Bytes>)
    ensures AllOf([a]) == multiset(a)
  {
    assert AllOf([a]) == multiset(a) + AllOf([]);
  }

  /** What is in one of the runs is in all of them, and nothing else is. */
  lemma {:induction false} InAllOf(slices: seq<seq<Bytes>>, key: Bytes)
    ensures key in AllOf(slices) <==> exists i :: 0 <= i < |slices| && key in slices[i]
  {
    if slices != [] {
      var rest := slices[1..];
      InAllOf(rest, key);
      if i :| 0 <= i < |slices| && key in slices[i] {
        assert i > 0 ==> rest[i - 1] == slices[i];
      }
      if i :| 0 <= i < |rest| && key in rest[i] {
        assert slices[i + 1] == rest[i];
      }
    }
  }

  /** What the runs hold can be written again. */
  lemma HeldKeys(files: seq<seq<byte>>)
    requires forall i :: 0 <= i < |files| ==> Sound(files[i])
    ensures forall key <- AllOf(KeysOfAll(files)) :: Short(key) && IsText(key)
  {
    hide KeysIn, AllOf, IsText, Short;
    forall key | key in AllOf(KeysOfAll(files))
      ensures Short(key) && IsText(key)
    {
      InAllOf(KeysOfAll(files), key);
      var i :| 0 <= i < |files| && key in KeysOfAll(files)[i];
      FileKeys(files[i]);
    }
  }

  class Runs {
    /** The names of the runs to merge, oldest first. */
    var live: seq<nat>
    /** What to call the next file; it only rises. */
    var next: nat
    var files: map<nat, seq<byte>>
    const fanIn: nat

    /** Every live run is a sound file, no other file is left, and every name is below the next, which
        never falls: no name is taken twice. */
    ghost predicate Valid()
      reads this
    {
      && fanIn >= 2
      && Distinct(live)
      && (forall i :: 0 <= i < |live| ==> live[i] in files)
      && (forall id <- files :: id in live && id < next && Sound(files[id]))
    }

    ghost function Disk(): map<nat, seq<Bytes>>
      reads this`files
    {
      Decoded(files)
    }

    ghost function Held(): multiset<Bytes>
      requires Valid()
      reads this
    {
      AllOf(Named(Disk(), live))
    }

    constructor (fanIn: nat)
      requires fanIn >= 2
      ensures Valid() && live == [] && this.fanIn == fanIn
      ensures Held() == multiset{}
    {
      this.fanIn := fanIn;
      live, next, files := [], 0, map[];
    }

    /** Write one run file of a key stream under a name no file has: whole exactly where every key is
        shorter than 4 GiB, and otherwise left with a count of zero, its name not taken. */
    method WriteRun(keys: seq<Bytes>) returns (id: Option<nat>)
      requires |keys| < U64_END && forall k <- files :: k < next
      modifies this`next, this`files
      ensures id.Some? <==> forall i :: 0 <= i < |keys| ==> Short(keys[i])
      ensures id.Some? ==> id.value == old(next) && id.value !in old(files) && next == old(next) + 1
      ensures id.Some? ==> files == old(files)[old(next) := FileOf(keys)]
      ensures id.None? ==> next == old(next) && next in files && KeysIn(files[next]) == Some([])
      ensures id.None? ==> files == old(files)[next := files[next]]
    {
      hide FileOf, KeysIn;
      var file, whole := WriteKeys(keys);
      if !whole {
        var i :| 0 <= i < |keys| && file == ToLe(0, 8) + Records(keys[..i]);
        UncountedIsEmpty(Records(keys[..i]));
        files := files[next := file];
        return None;
      }
      id := Some(next);
      files := files[next := file];
      next := next + 1;
    }

    /** Spill a run: it comes off exactly where every key is shorter than 4 GiB. */
    method Spill(keys: seq<Bytes>) returns (ok: bool)
      requires Valid() && Ascending(keys) && |Held()| + |keys| < U64_END
      requires forall key <- keys :: IsText(key)
      modifies this
      ensures ok <==> forall i :: 0 <= i < |keys| ==> Short(keys[i])
      ensures ok ==> Valid() && live != [] && next > old(next)
      ensures ok ==> Held() == old(Held()) + multiset(keys)
    {
      hide KeysIn, FileOf, AllOf, IsText;
      ghost var disk, before := Disk(), Named(Disk(), live);
      var id := WriteRun(keys);
      if id.None? {
        return false;
      }
      DecodedWritten(old(files), id.value, keys);
      live := live + [id.value];
      assert Named(Disk(), live) == before + [keys];
      AllOfConcat(before, [keys]);
      AllOfOne(keys);
      ok := true;
    }

    /** Between the groups of a round: `live` rebuilt so far, `rest` of the old names still to come. */
    ghost predicate Rebuilding(rest: seq<nat>)
      reads this
    {
      && fanIn >= 2
      && Distinct(live + rest)
      && (forall i :: 0 <= i < |live| ==> live[i] in files)
      && (forall i :: 0 <= i < |rest| ==> rest[i] in files)
      && (forall id <- files :: (id in live || id in rest) && id < next && Sound(files[id]))
    }

    /** What the runs done and the runs to come hold between them. */
    ghost function Between(rest: seq<nat>): multiset<Bytes>
      requires Rebuilding(rest)
      reads this
    {
      AllOf(Named(Disk(), live)) + AllOf(Named(Disk(), rest))
    }

    /** The runs of a group as one stream. */
    method MergeGroup(group: seq<nat>) returns (merged: seq<Bytes>)
      requires forall i :: 0 <= i < |group| ==> group[i] in Disk() && Sound(files[group[i]])
      ensures Ascending(merged) && multiset(merged) == AllOf(Named(Disk(), group))
      ensures forall key <- merged :: Short(key) && IsText(key)
    {
      hide KeysIn, AllOf, IsText, Short;
      var taken := FilesOf(group);
      assert KeysOfAll(taken) == Named(Disk(), group);
      HeldKeys(taken);
      merged := MergeRuns(taken);
      assert forall key <- merged :: key in multiset(merged);
    }

    /** A group of more than one run merged into one, and what it consumed deleted. */
    method CollapseGroup(group: seq<nat>, ghost rest: seq<nat>)
      requires |group| >= 2 && Rebuilding(group + rest) && |Between(group + rest)| < U64_END
      modifies this
      ensures Rebuilding(rest) && |live| == old(|live|) + 1 && next > old(next)
      ensures Between(rest) == old(Between(group + rest))
    {
      hide KeysIn, FileOf, AllOf, IsText, Short, Distinct, Named;
      ghost var disk, was := Disk(), live;
      NamesIn(disk, group, rest);
      NamedConcat(disk, group, rest);
      var merged := MergeGroup(group);
      assert |multiset(merged)| < U64_END;
      var id := WriteRun(merged);
      DecodedWritten(old(files), id.value, merged);
      DecodedRemoved(files, set g | g in group);
      files := files - (set g | g in group);
      live := live + [id.value];
      GroupReplaced(disk, was, group, rest, id.value, merged, Disk());
    }

    method FilesOf(ids: seq<nat>) returns (taken: seq<seq<byte>>)
      requires forall i :: 0 <= i < |ids| ==> ids[i] in files
      ensures |taken| == |ids| && forall i :: 0 <= i < |ids| ==> taken[i] == files[ids[i]]
    {
      taken := [];
      for k := 0 to |ids|
        invariant |taken| == k && forall i :: 0 <= i < k ==> taken[i] == files[ids[i]]
      {
        taken := taken + [files[ids[k]]];
      }
    }

    method CollapseRound()
      requires Valid() && |live| > fanIn && |Held()| < U64_END
      modifies this
      ensures Valid() && Held() == old(Held()) && next >= old(next)
      ensures 0 < |live| < old(|live|)
    {
      hide KeysIn, AllOf;
      var taken := live;
      live := [];
      assert live + taken == taken;
      NothingNamed(Disk());
      assert Between(taken) == old(Held());
      RebuildFrom(taken);
      assert live + [] == live;
      NothingNamed(Disk());
    }

    method RebuildFrom(taken: seq<nat>)
      requires Rebuilding(taken) && live == [] && |taken| > fanIn && |Between(taken)| < U64_END
      modifies this
      ensures Rebuilding([]) && 0 < |live| < |taken| && next >= old(next)
      ensures Between([]) == old(Between(taken))
    {
      hide KeysIn, AllOf, Distinct;
      var at := 0;
      assert taken[0..] == taken;
      while at < |taken|
        invariant 0 <= at <= |taken|
        invariant Rebuilding(taken[at..]) && next >= old(next)
        invariant Between(taken[at..]) == old(Between(taken))
        invariant if at == 0 then live == [] else 0 < |live| < at
      {
        var end := if at + fanIn < |taken| then at + fanIn else |taken|;
        assert taken[at..] == taken[at..end] + taken[end..];
        TakeGroup(taken[at..end], taken[end..]);
        at := end;
      }
      assert taken[at..] == [];
    }

    method TakeGroup(group: seq<nat>, ghost rest: seq<nat>)
      requires |group| >= 1 && Rebuilding(group + rest) && |Between(group + rest)| < U64_END
      modifies this
      ensures Rebuilding(rest) && |live| == old(|live|) + 1 && next >= old(next)
      ensures Between(rest) == old(Between(group + rest))
    {
      if |group| == 1 {
        CarryGroup(group, rest);
      } else {
        CollapseGroup(group, rest);
      }
    }

    /** A lone run at the end of a round keeps its file. */
    method CarryGroup(group: seq<nat>, ghost rest: seq<nat>)
      requires |group| == 1 && Rebuilding(group + rest)
      modifies this`live
      ensures Rebuilding(rest) && |live| == old(|live|) + 1
      ensures Between(rest) == old(Between(group + rest))
    {
      hide KeysIn, AllOf;
      assert live + (group + rest) == (live + group) + rest;
      NamesIn(Disk(), group, rest);
      NamedConcat(Disk(), group, rest);
      NamedConcat(Disk(), live, group);
      live := live + [group[0]];
      assert live == old(live) + group;
    }

    /** Collapse until no more runs are left than a merge may open. */
    method Collapse()
      requires Valid() && live != [] && |Held()| < U64_END
      modifies this
      ensures Valid() && Held() == old(Held()) && next >= old(next)
      ensures 0 < |live| <= fanIn
      ensures old(|live|) <= fanIn ==> live == old(live) && files == old(files)
    {
      while |live| > fanIn
        invariant Valid() && Held() == old(Held()) && live != [] && next >= old(next)
        invariant old(|live|) <= fanIn ==> live == old(live) && files == old(files)
        decreases |live|
      {
        CollapseRound();
      }
    }

    method Merge() returns (out: seq<Bytes>)
      requires Valid() && live != [] && |Held()| < U64_END
      modifies this
      ensures Valid() && Held() == old(Held()) && next >= old(next)
      ensures Ascending(out) && multiset(out) == Held()
    {
      Collapse();
      out := MergeGroup(live);
    }

    /** The stream a builder walks: the merge with equal neighbours dropped. */
    method Each() returns (out: seq<Bytes>)
      requires Valid() && live != [] && |Held()| < U64_END
      modifies this
      ensures Valid() && Held() == old(Held()) && next >= old(next)
      ensures Strict(out) && forall x :: x in out <==> x in Held()
    {
      var merged := Merge();
      out := DropRepeats(merged);
      assert forall x :: x in merged <==> x in multiset(merged);
    }

    /** Whatever was spilled came of a `str` shorter than 4 GiB. */
    lemma HeldIsText()
      requires Valid()
      ensures forall key <- Held() :: Short(key) && IsText(key)
    {
      hide KeysIn, AllOf, IsText, Short;
      var disk, ids := files, live;
      var taken := seq(|ids|, i requires 0 <= i < |ids| => disk[ids[i]]);
      assert KeysOfAll(taken) == Named(Disk(), live);
      HeldKeys(taken);
    }
  }

  lemma NothingNamed(disk: map<nat, seq<Bytes>>)
    ensures Named(disk, []) == [] && AllOf([]) == multiset{}
  {
  }

  lemma NamesIn(disk: map<nat, seq<Bytes>>, a: seq<nat>, b: seq<nat>)
    requires forall i :: 0 <= i < |a + b| ==> (a + b)[i] in disk
    ensures forall i :: 0 <= i < |a| ==> a[i] in disk
    ensures forall i :: 0 <= i < |b| ==> b[i] in disk
  {
    forall i | 0 <= i < |a|
      ensures a[i] in disk
    {
      assert (a + b)[i] == a[i];
    }
    forall i | 0 <= i < |b|
      ensures b[i] in disk
    {
      assert (a + b)[|a| + i] == b[i];
    }
  }

  lemma GroupReplaced(disk0: map<nat, seq<Bytes>>, live0: seq<nat>, group: seq<nat>, rest: seq<nat>, id: nat,
      merged: seq<Bytes>, disk: map<nat, seq<Bytes>>)
    requires Distinct(live0 + (group + rest))
    requires forall i :: 0 <= i < |live0| ==> live0[i] in disk0
    requires forall i :: 0 <= i < |group + rest| ==> (group + rest)[i] in disk0
    requires forall i :: 0 <= i < |group| ==> group[i] in disk0
    requires forall i :: 0 <= i < |rest| ==> rest[i] in disk0
    requires id !in disk0 && disk == disk0[id := merged] - (set g | g in group)
    requires multiset(merged) == AllOf(Named(disk0, group))
    ensures Distinct(live0 + [id] + rest)
    ensures forall i :: 0 <= i < |live0 + [id]| ==> (live0 + [id])[i] in disk
    ensures forall i :: 0 <= i < |rest| ==> rest[i] in disk
    ensures AllOf(Named(disk, live0 + [id])) + AllOf(Named(disk, rest))
         == AllOf(Named(disk0, live0)) + AllOf(Named(disk0, group + rest))
  {
    hide Distinct, AllOf, Named;
    GroupApart(live0, group, rest);
    DistinctReplaced(live0, group, rest, id);
    NamedKept(disk0, disk, live0);
    NamedKept(disk0, disk, rest);
    assert Named(disk, [id]) == [merged] by { NamedOne(disk, id); }
    AllOfOne(merged);
    NamedConcat(disk, live0, [id]);
    NamedConcat(disk0, group, rest);
  }

  lemma NamedOne(disk: map<nat, seq<Bytes>>, id: nat)
    requires id in disk
    ensures Named(disk, [id]) == [disk[id]]
  {
  }

  lemma NamedKept(disk0: map<nat, seq<Bytes>>, disk: map<nat, seq<Bytes>>, ids: seq<nat>)
    requires forall i :: 0 <= i < |ids| ==> ids[i] in disk0 && ids[i] in disk && disk[ids[i]] == disk0[ids[i]]
    ensures Named(disk, ids) == Named(disk0, ids)
  {
  }

  lemma NamedConcat(disk: map<nat, seq<Bytes>>, a: seq<nat>, b: seq<nat>)
    requires forall i :: 0 <= i < |a| ==> a[i] in disk
    requires forall i :: 0 <= i < |b| ==> b[i] in disk
    ensures forall i :: 0 <= i < |a + b| ==> (a + b)[i] in disk
    ensures AllOf(Named(disk, a + b)) == AllOf(Named(disk, a)) + AllOf(Named(disk, b))
  {
    assert Named(disk, a + b) == Named(disk, a) + Named(disk, b);
    AllOfConcat(Named(disk, a), Named(disk, b));
  }

  lemma GroupApart(live0: seq<nat>, group: seq<nat>, rest: seq<nat>)
    requires Distinct(live0 + (group + rest))
    ensures forall i, j :: 0 <= i < |live0| && 0 <= j < |group| ==> live0[i] != group[j]
    ensures forall i, j :: 0 <= i < |rest| && 0 <= j < |group| ==> rest[i] != group[j]
  {
    var all := live0 + (group + rest);
    var n, m := |live0|, |group|;
    forall i, j | 0 <= i < |live0| && 0 <= j < |group|
      ensures live0[i] != group[j]
    {
      assert all[i] == live0[i] && all[n + j] == group[j];
    }
    forall i, j | 0 <= i < |rest| && 0 <= j < |group|
      ensures rest[i] != group[j]
    {
      assert all[n + m + i] == rest[i] && all[n + j] == group[j];
    }
  }

  lemma DistinctReplaced(live0: seq<nat>, group: seq<nat>, rest: seq<nat>, id: nat)
    requires Distinct(live0 + (group + rest))
    requires id !in live0 && id !in rest
    ensures Distinct(live0 + [id] + rest)
  {
    var all, now := live0 + (group + rest), live0 + [id] + rest;
    var n, m := |live0|, |group|;
    forall i, j | 0 <= i < j < |now|
      ensures now[i] != now[j]
    {
      if j < n {
        assert all[i] == now[i] && all[j] == now[j];
      } else if j == n {
        assert now[i] == live0[i] && live0[i] in live0;
      } else {
        assert now[j] == rest[j - n - 1] == all[j - 1 + m];
        if i < n {
          assert now[i] == all[i];
        } else if i > n {
          assert now[i] == rest[i - n - 1] == all[i - 1 + m];
        } else {
          assert rest[j - n - 1] in rest;
        }
      }
    }
  }

  // ----- the builder's first pass

  /** Every key cut. */
  ghost function CutAll(items: seq<Bytes>): (cuts: seq<Bytes>)
    ensures |cuts| == |items|
  {
    seq(|items|, i requires 0 <= i < |items| => Cut(items[i]))
  }

  /** How many bytes the keys have. */
  function BytesIn(items: seq<Bytes>): nat {
    if items == [] then 0 else BytesIn(items[..|items| - 1]) + |items[|items| - 1]|
  }

  datatype Replay = InMemory(keys: seq<Bytes>) | Refused | Panicked | Spilled(keys: seq<Bytes>)

  /** Sort a run and spill it. No key out of a run is too long for its record. */
  method SpillRun(run: Run, runs: Runs) returns (ok: bool)
    requires run.Valid() && runs.Valid() && |run.spans| + |runs.Held()| < U64_END
    modifies run`spans, runs
    ensures ok <==> old(Readable(run.spans)) && forall x <- old(run.Keys()) :: IsText(x)
    ensures ok ==> run.Valid() && runs.Valid() && runs.live != []
    ensures ok ==> |runs.Held()| <= old(|run.spans| + |runs.Held()|)
    ensures ok ==> forall x :: x in runs.Held() <==> x in old(run.Keys()) || x in old(runs.Held())
  {
    hide IsText, Short;
    ok := run.Sorted();
    if ok {
      var keys := KeysOf(run.bytes, run.spans);
      SpansAreShort(run.bytes, run.spans);
      AscendingIfStrict(keys);
      assert forall x :: x in keys <==> x in multiset(keys);
      ok := runs.Spill(keys);
    }
  }

  lemma SpansAreShort(bytes: Bytes, spans: seq<Span>)
    requires Within(bytes, spans)
    ensures forall i :: 0 <= i < |spans| ==> Short(KeysOf(bytes, spans)[i])
  {
  }

  /** The keys cut are the keys exactly where none is cut. */
  lemma WholeIffShort(items: seq<Bytes>, keys: seq<Bytes>)
    requires DistinctKeys(keys, CutAll(items)) && forall i :: 0 <= i < |keys| ==> Short(keys[i])
    ensures DistinctKeys(keys, items) <==> forall i :: 0 <= i < |items| ==> Short(items[i])
  {
    if forall i :: 0 <= i < |items| ==> Short(items[i]) {
      assert forall i :: 0 <= i < |items| ==> Cut(items[i]) == items[i];
      assert CutAll(items) == items;
    }
    if DistinctKeys(keys, items) {
      forall i | 0 <= i < |items|
        ensures Short(items[i])
      {
        assert items[i] in items;
      }
    }
  }

  /** The run and what was spilled hold the keys taken so far, `cuts` being those keys cut. */
  ghost predicate Holding(run: Run, runs: Runs, cuts: seq<Bytes>)
    reads run, runs
  {
    && run.Valid() && runs.Valid()
    && |run.spans| + |runs.Held()| <= |cuts| < U64_END
    && (runs.live == [] ==> runs.Held() == multiset{})
    && (|run.spans| > 1 ==> |run.bytes| <= run.budget && |run.spans| <= run.budget / 8)
    && (run.budget < U32_END ==> Readable(run.spans))
    && (run.budget < U32_END ==> forall x :: x in cuts <==> x in run.Keys() || x in runs.Held())
  }

  lemma HoldingNone(run: Run, runs: Runs)
    requires run.Valid() && run.spans == [] && runs.Valid() && runs.live == [] && runs.Held() == multiset{}
    ensures Holding(run, runs, [])
  {
  }

  /** Spill a run that is full, and start it over. */
  method SpillFull(run: Run, runs: Runs, ghost cuts: seq<Bytes>) returns (ok: bool)
    requires Holding(run, runs, cuts)
    modifies run, runs
    ensures ok ==> Holding(run, runs, cuts) && run.bytes == [] && run.spans == [] && runs.live != []
    ensures !ok && run.budget < U32_END ==> exists x <- cuts :: !IsText(x)
  {
    hide IsText, Within, KeysOf;
    ok := SpillRun(run, runs);
    if ok {
      run.Clear();
    }
  }

  /** Take one key into a run it fits, or into one just cleared, which takes it whatever its length. */
  method PushKey(run: Run, ghost runs: Runs, key: Bytes, ghost cuts: seq<Bytes>)
    requires Holding(run, runs, cuts) && |cuts| + 1 < U64_END
    requires run.Fits(key) || (run.bytes == [] && run.spans == [])
    modifies run
    ensures run.bytes == old(run.bytes) + key && |run.spans| == old(|run.spans|) + 1
    ensures Holding(run, runs, cuts + [Cut(key)]) && run.spans != []
  {
    hide IsText, Cut, Short, Within, KeysOf, AllOf, Runs.Valid;
    run.Push(key);
  }

  /** Take the next key, spilling what the run holds where the key does not fit it. A run of more than one key is
      within the budget. */
  method Take(run: Run, runs: Runs, key: Bytes, ghost cuts: seq<Bytes>) returns (ok: bool)
    requires Holding(run, runs, cuts) && |cuts| + 1 < U64_END
    requires run.Fits(key) || run.spans != []
    modifies run, runs
    ensures ok ==> Holding(run, runs, cuts + [Cut(key)]) && run.spans != []
    ensures ok && |run.spans| > 1 ==> |run.bytes| <= run.budget && 8 * |run.spans| <= run.budget
    ensures old(|run.bytes|) + |key| <= run.budget && 8 * old(|run.spans|) + 8 <= run.budget ==>
      ok && unchanged(runs) && run.bytes == old(run.bytes) + key && |run.spans| == old(|run.spans|) + 1
    ensures ok && !(old(|run.bytes|) + |key| <= run.budget && 8 * old(|run.spans|) + 8 <= run.budget) ==>
      run.bytes == key && |run.spans| == 1 && runs.live != []
    ensures !ok && run.budget < U32_END ==> exists x <- cuts :: !IsText(x)
  {
    hide IsText, Cut;
    if !run.Fits(key) {
      ok := SpillFull(run, runs, cuts);
      if !ok {
        return;
      }
    }
    PushKey(run, runs, key, cuts);
    ok := true;
  }

  /** Replay what was taken. */
  method Finish(run: Run, runs: Runs, ghost cuts: seq<Bytes>) returns (r: Replay)
    requires Holding(run, runs, cuts)
    modifies run, runs
    ensures !r.Refused? && (!r.Panicked? ==> Strict(r.keys))
    ensures !r.Panicked? ==> (r.InMemory? <==> old(runs.live) == [])
    ensures run.budget < U32_END ==> (r.Panicked? <==> exists x <- cuts :: !IsText(x))
    ensures run.budget < U32_END && !r.Panicked? ==> DistinctKeys(r.keys, cuts)
    ensures !r.Panicked? ==> forall i :: 0 <= i < |r.keys| ==> Short(r.keys[i])
  {
    hide IsText, Short, Within;
    if runs.live == [] {
      var ok := run.Sorted();
      if !ok {
        return Panicked;
      }
      r := InMemory(KeysOf(run.bytes, run.spans));
      SpansAreShort(run.bytes, run.spans);
    } else {
      var ok := SpillRun(run, runs);
      if !ok {
        return Panicked;
      }
      var all := runs.Each();
      r := Spilled(all);
      runs.HeldIsText();
    }
  }

  /** The streaming builders' loop: keys pushed to a run, a run that is full spilled, and the whole replayed
      from memory if nothing was spilled and from the merge if anything was. Under a budget below 4 GiB what
      is replayed is the keys cut to 32 bits of length, unless the cut of one splits a character: so it is
      the distinct keys exactly where every key is shorter than 4 GiB. */
  method Replayed(items: seq<Bytes>, budget: nat, fanIn: nat) returns (r: Replay)
    requires fanIn >= 2 && |items| < U64_END && forall i :: 0 <= i < |items| ==> IsText(items[i])
    ensures r.Refused? <==> items != [] && (|items[0]| > budget || budget < 8)
    ensures r.InMemory? || r.Spilled? ==> Strict(r.keys)
    ensures r.InMemory? ==> BytesIn(items) <= budget && 8 * |items| <= budget
    ensures r.Spilled? ==> BytesIn(items) > budget || 8 * |items| > budget
    ensures budget < 0x1_0000_0000 && !r.Refused? ==>
      (r.Panicked? <==> exists i :: 0 <= i < |items| && !IsText(Cut(items[i])))
    ensures budget < 0x1_0000_0000 && (r.InMemory? || r.Spilled?) ==> DistinctKeys(r.keys, CutAll(items))
    ensures budget < 0x1_0000_0000 && !r.Refused? ==>
      (!r.Panicked? && DistinctKeys(r.keys, items) <==> forall i :: 0 <= i < |items| ==> Short(items[i]))
  {
    hide IsText, Cut, Short, Holding, DistinctKeys, Strict;
    var run := new Run(budget);
    var runs := new Runs(fanIn);
    ghost var cuts := CutAll(items);
    HoldingNone(run, runs);
    for k := 0 to |items|
      invariant fresh(run) && fresh(runs) && run.budget == budget
      invariant Holding(run, runs, cuts[..k])
      invariant k > 0 ==> run.spans != [] && |items[0]| <= budget && budget >= 8
      invariant k == 0 ==> run.spans == [] && run.bytes == []
      invariant runs.live == [] ==> |run.bytes| == BytesIn(items[..k]) <= budget && 8 * |run.spans| == 8 * k <= budget
      invariant runs.live != [] ==> BytesIn(items[..k]) > budget || 8 * k > budget
    {
      if !run.Fits(items[k]) && |run.spans| == 0 {
        return Refused;
      }
      assert cuts[..k + 1] == cuts[..k] + [Cut(items[k])];
      assert items[..k + 1][..k] == items[..k];
      var ok := Take(run, runs, items[k], cuts[..k]);
      if !ok {
        SplitCut(items, cuts[..k]);
        return Panicked;
      }
    }
    assert cuts[..|items|] == cuts && items[..|items|] == items;
    r := Finish(run, runs, cuts);
    SplitCut(items, cuts);
    if budget < U32_END && !r.Panicked? {
      WholeIffShort(items, r.keys);
    }
  }

  /** A cut that splits a character is of a key of 4 GiB or more. */
  lemma SplitCut(items: seq<Bytes>, some: seq<Bytes>)
    requires some <= CutAll(items) && forall i :: 0 <= i < |items| ==> IsText(items[i])
    ensures (exists x <- some :: !IsText(x)) ==>
      exists i :: 0 <= i < |items| && !IsText(Cut(items[i])) && !Short(items[i])
    ensures |some| == |items| ==>
      ((exists x <- some :: !IsText(x)) <==> exists i :: 0 <= i < |items| && !IsText(Cut(items[i])))
  {
    hide IsText;
    if x :| x in some && !IsText(x) {
      var i :| 0 <= i < |some| && some[i] == x;
      assert some[i] == CutAll(items)[i] == Cut(items[i]);
      CutShort(items[i]);
    }
    if i :| |some| == |items| && 0 <= i < |items| && !IsText(Cut(items[i])) {
      assert some[i] == CutAll(items)[i] && some[i] in some;
    }
  }

  // ----- the keys that are not replayed

  /** A letter, and then a key of 4 GiB and one more of it. */
  ghost function LetterThenLong(): (items: seq<Bytes>) {
    [[97], seq(U32_END + 1, _ => 97)]
  }

  /** What is replayed of these two is the letter alone, for the long key's length is cut to one. */
  lemma LongKeyReplaysAsItsPrefix(keys: seq<Bytes>)
    requires DistinctKeys(keys, CutAll(LetterThenLong()))
    ensures forall i :: 0 <= i < |LetterThenLong()| ==> IsText(LetterThenLong()[i])
    ensures keys == [[97]] && !DistinctKeys(keys, LetterThenLong())
  {
    hide IsText;
    var items := LetterThenLong();
    AsciiIsText(items[0]);
    AsciiIsText(items[1]);
    assert Cut(items[0]) == [97] && Cut(items[1]) == [97];
    assert CutAll(items) == [[97], [97]];
    OneStream(keys, [[97]], CutAll(items), [[97]]);
    assert items[1] in items && |items[1]| != 1;
  }

  /** A key of as many bytes that starts with a character of two: its cut splits that character. */
  lemma LongKeyCutInACharacter(key: Bytes)
    requires key == [0xC3, 0xA9] + seq(U32_END - 1, _ => 97)
    ensures IsText(key) && !IsText(Cut(key))
  {
    hide Characters, FirstChar, Encode;
    var tail := seq(U32_END - 1, _ => 97);
    AsciiIsText(tail);
    var rest := Characters(tail).value;
    CharactersIff(tail, rest);
    assert Encode(0xE9) == [0xC3, 0xA9] by { TwoBytes(); }
    CharactersIff(key, [0xE9 as Scalar] + rest);
    assert key == Text([0xE9 as Scalar] + rest);
    assert Cut(key) == [0xC3];
    assert !IsText([0xC3]) by { LeadAlone(); }
  }

  lemma TwoBytes()
    ensures Encode(0xE9) == [0xC3, 0xA9]
  {
  }

  lemma LeadAlone()
    ensures !IsText([0xC3])
  {
  }
}
