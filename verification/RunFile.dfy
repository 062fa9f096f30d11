/** The file one spilled run is kept in: how many keys, then each key's length and its bytes. */
module RunFiles {
  import opened Lex
  import opened Bits
  import opened Wrappers
  import opened Utf8Check

  const U32_END := 0x1_0000_0000
  const U64_END := 0x1_0000_0000_0000_0000

  /** A key whose length four bytes hold. */
  predicate Short(key: seq<byte>) {
    |key| < 0x1_0000_0000
  }

  function Record(key: seq<byte>): seq<byte> {
    ToLe(|key|, 4) + key
  }

  function Records(keys: seq<seq<byte>>): seq<byte> {
    if keys == [] then [] else Record(keys[0]) + Records(keys[1..])
  }

  function FileOf(keys: seq<seq<byte>>): seq<byte> {
    ToLe(|keys|, 8) + Records(keys)
  }

  lemma SmallLe(x: byte, k: nat)
    ensures ToLe(x, k + 1) == [x] + ToLe(0, k)
  {
    var v: int := x;
    assert v % 256 == v && v / 256 == 0;
  }

  lemma {:induction false} ZeroLe(k: nat)
    ensures ToLe(0, k) == seq(k, _ => 0)
  {
    if k > 0 {
      ZeroLe(k - 1);
    }
  }

  /** The file of `ab` and the empty key. */
  lemma FileOfTwo()
    ensures FileOf([[0x61, 0x62], []]) == [2, 0, 0, 0, 0, 0, 0, 0, 2, 0, 0, 0, 0x61, 0x62, 0, 0, 0, 0]
  {
    hide ToLe;
    SmallLe(2, 7);
    SmallLe(2, 3);
    ZeroLe(7);
    ZeroLe(3);
    ZeroLe(4);
    var rest: seq<seq<byte>> := [[0x61, 0x62], []][1..];
    assert rest == [[]] && rest[1..] == [];
    assert Records(rest) == Record([]) + Records([]);
  }

  /** The key of the record `s` starts with, where a whole one stands there and its bytes are UTF-8. */
  function FirstKey(s: seq<byte>): (key: Option<seq<byte>>)
    ensures key.Some? ==> 4 + |key.value| <= |s|
  {
    if |s| < 4 || |s| < 4 + Val(s[..4]) || !IsText(s[4..4 + Val(s[..4])]) then None
    else Some(s[4..4 + Val(s[..4])])
  }

  /** The first `n` keys recorded in `s`. */
  function FirstKeys(s: seq<byte>, n: nat): (keys: Option<seq<seq<byte>>>)
    decreases n
  {
    if n == 0 then Some([])
    else match FirstKey(s)
      case None => None
      case Some(key) =>
        match FirstKeys(s[4 + |key|..], n - 1)
        case None => None
        case Some(rest) => Some([key] + rest)
  }

  /** The keys a run file holds. */
  function KeysIn(file: seq<byte>): Option<seq<seq<byte>>> {
    if |file| < 8 then None else FirstKeys(file[8..], Val(file[..8]))
  }

  lemma {:induction false} RecordsSnoc(keys: seq<seq<byte>>, key: seq<byte>)
    ensures Records(keys + [key]) == Records(keys) + Record(key)
  {
    if keys == [] {
      assert keys + [key] == [key];
      assert Records([key]) == Record(key) + Records([]);
    } else {
      assert (keys + [key])[1..] == keys[1..] + [key];
      RecordsSnoc(keys[1..], key);
    }
  }

  lemma FirstRecord(key: seq<byte>, rest: seq<byte>)
    requires Short(key)
    ensures FirstKey(Record(key) + rest) == if IsText(key) then Some(key) else None
  {
    hide IsText, ToLe, Val;
    var s := Record(key) + rest;
    WordPowers();
    ToLeReadsBack(|key|, 4);
    assert s[..4] == ToLe(|key|, 4);
    assert s[4..4 + |key|] == key;
  }

  /** Keys short enough to record read back, unless one of them is not UTF-8. */
  lemma {:induction false} RecordsReadBack(keys: seq<seq<byte>>)
    requires forall i :: 0 <= i < |keys| ==> Short(keys[i])
    ensures FirstKeys(Records(keys), |keys|)
         == if forall i :: 0 <= i < |keys| ==> IsText(keys[i]) then Some(keys) else None
  {
    hide IsText, FirstKey, Record;
    if keys != [] {
      var rest := keys[1..];
      FirstRecord(keys[0], Records(rest));
      RecordsReadBack(rest);
      assert |Record(keys[0])| == 4 + |keys[0]| by { RecordLen(keys[0]); }
      assert Records(keys)[4 + |keys[0]|..] == Records(rest);
      assert (forall i :: 0 <= i < |keys| ==> IsText(keys[i]))
        <==> IsText(keys[0]) && forall i :: 0 <= i < |rest| ==> IsText(rest[i]) by {
        assert forall i :: 0 <= i < |rest| ==> rest[i] == keys[i + 1];
        assert forall i :: 0 < i < |keys| ==> keys[i] == rest[i - 1];
      }
      assert keys == [keys[0]] + rest;
    }
  }

  lemma RecordLen(key: seq<byte>)
    ensures |Record(key)| == 4 + |key|
  {
    hide ToLe;
  }

  /** A run file holds what was written to it. */
  lemma FileReadsBack(keys: seq<seq<byte>>)
    requires |keys| < U64_END && forall i :: 0 <= i < |keys| ==> Short(keys[i])
    ensures KeysIn(FileOf(keys)) == if forall i :: 0 <= i < |keys| ==> IsText(keys[i]) then Some(keys) else None
  {
    hide IsText, FirstKeys, Records, ToLe, Val;
    WordPowers();
    ToLeReadsBack(|keys|, 8);
    RecordsReadBack(keys);
    var file := FileOf(keys);
    assert file[..8] == ToLe(|keys|, 8) && file[8..] == Records(keys);
  }

  lemma FirstKeyRead(s: seq<byte>)
    requires FirstKey(s).Some?
    ensures Short(FirstKey(s).value) && IsText(FirstKey(s).value)
  {
    hide IsText, Val;
    WordPowers();
    ValBound(s[..4]);
  }

  /** What is read is UTF-8, and as long as the count says, none of it too long to be recorded again. */
  lemma {:induction false} KeysRead(s: seq<byte>, n: nat)
    requires FirstKeys(s, n).Some?
    ensures |FirstKeys(s, n).value| == n
    ensures forall key :: key in FirstKeys(s, n).value ==> Short(key) && IsText(key)
    decreases n
  {
    hide IsText, FirstKey, Short;
    if n > 0 {
      FirstKeyRead(s);
      KeysRead(s[4 + |FirstKey(s).value|..], n - 1);
    }
  }

  lemma FileKeys(file: seq<byte>)
    requires KeysIn(file).Some?
    ensures |KeysIn(file).value| < U64_END
    ensures forall key :: key in KeysIn(file).value ==> Short(key) && IsText(key)
  {
    hide IsText, Val, FirstKeys;
    KeysRead(file[8..], Val(file[..8]));
    WordPowers();
    ValBound(file[..8]);
  }

  /** A file whose count was never filled in reads as holding nothing. */
  lemma UncountedIsEmpty(rest: seq<byte>)
    ensures KeysIn(ToLe(0, 8) + rest) == Some([])
  {
    WordPowers();
    ToLeReadsBack(0, 8);
    assert (ToLe(0, 8) + rest)[..8] == ToLe(0, 8);
  }

  /** Write a key stream to a file; a key too long for its length field stops it, the count still zero. */
  method WriteKeys(keys: seq<seq<byte>>) returns (file: seq<byte>, whole: bool)
    requires |keys| < U64_END
    ensures whole <==> forall i :: 0 <= i < |keys| ==> Short(keys[i])
    ensures whole ==> file == FileOf(keys)
    ensures !whole ==> exists i :: 0 <= i < |keys| && !Short(keys[i]) && file == ToLe(0, 8) + Records(keys[..i])
  {
    hide ToLe, Record;
    file := ToLe(0, 8);
    var n := 0;
    while n < |keys|
      invariant 0 <= n <= |keys|
      invariant forall i :: 0 <= i < n ==> Short(keys[i])
      invariant file == ToLe(0, 8) + Records(keys[..n])
    {
      if |keys[n]| >= U32_END {
        return file, false;
      }
      assert keys[..n + 1] == keys[..n] + [keys[n]];
      RecordsSnoc(keys[..n], keys[n]);
      file := file + (ToLe(|keys[n]|, 4) + keys[n]);
      assert Record(keys[n]) == ToLe(|keys[n]|, 4) + keys[n] by { RecordIs(keys[n]); }
      n := n + 1;
    }
    assert keys[..n] == keys;
    file := ToLe(n, 8) + file[8..];
    whole := true;
  }

  lemma RecordIs(key: seq<byte>)
    ensures Record(key) == ToLe(|key|, 4) + key
  {
  }

  /** What one step of a reader comes to. */
  datatype Step = Key(key: seq<byte>) | End | Corrupt

  /** A run file being read a key at a time. */
  class RunReader {
    /** What is left of the file. */
    var rest: seq<byte>
    /** How many keys are still to come. */
    var left: nat

    ghost function Keys(): Option<seq<seq<byte>>>
      reads this
    {
      FirstKeys(rest, left)
    }

    /** A reader of `file`, whose count is there to be read. */
    constructor (file: seq<byte>)
      requires |file| >= 8
      ensures Keys() == KeysIn(file)
    {
      left := Val(file[..8]);
      rest := file[8..];
    }

    method Next() returns (r: Step)
      modifies this
      ensures r == End <==> old(left) == 0
      ensures r == Corrupt <==> old(left) > 0 && FirstKey(old(rest)).None?
      ensures r.Key? ==> Some(r.key) == FirstKey(old(rest))
      ensures r == End ==> rest == old(rest) && left == old(left)
      ensures old(Keys()).Some? ==> r != Corrupt && Keys().Some?
      ensures old(Keys()).Some? && r.Key? ==> old(Keys()).value == [r.key] + Keys().value
      ensures old(Keys()).Some? && r.End? ==> old(Keys()).value == []
    {
      hide IsText, Val;
      if left == 0 {
        return End;
      }
      left := left - 1;
      if |rest| < 4 {
        return Corrupt;
      }
      var len := Val(rest[..4]);
      rest := rest[4..];
      if |rest| < len {
        return Corrupt;
      }
      var key := rest[..len];
      rest := rest[len..];
      assert old(rest)[4..4 + len] == key && old(rest)[4 + len..] == rest;
      r := if IsText(key) then Key(key) else Corrupt;
    }
  }
}
