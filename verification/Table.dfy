/** Short keys that separate or follow others (util/comparator.cc, db/dbformat.cc). */
module Separators {
  import opened Bytewise
  import opened InternalKeys

  lemma {:induction false} LessAfterPrefix(prefix: Bytes, a: Bytes, b: Bytes)
    ensures Less(prefix + a, prefix + b) <==> Less(a, b)
  {
    if prefix == [] {
      assert prefix + a == a && prefix + b == b;
    } else {
      LessAfterPrefix(prefix[1..], a, b);
      assert (prefix + a)[1..] == prefix[1..] + a && (prefix + b)[1..] == prefix[1..] + b;
    }
  }

  /** A string in which one byte is raised and the rest cut off comes later. */
  lemma RaisedIsLater(s: Bytes, i: nat, b: Byte)
    requires i < |s| && s[i] < b
    ensures Less(s, s[..i] + [b])
  {
    assert s == s[..i] + s[i..];
    LessAfterPrefix(s[..i], s[i..], [b]);
  }

  method FindShortestSeparator(start: Bytes, limit: Bytes) returns (r: Bytes)
    ensures r == start || (Less(start, r) && Less(r, limit) && |r| <= |start|)
    ensures forall d ::
      0 <= d < |start| && d < |limit| && start[..d] == limit[..d] && start[d] as int + 1 < limit[d] as int ==>
        r == start[..d] + [start[d] + 1]
  {
    var minLength := if |start| < |limit| then |start| else |limit|;
    var diff := 0;
    while diff < minLength && start[diff] == limit[diff]
      invariant diff <= minLength && start[..diff] == limit[..diff]
    {
      diff := diff + 1;
    }
    r := start;
    if diff < minLength {
      var byte := start[diff];
      if byte < 0xff && byte + 1 < limit[diff] as int {
        r := start[..diff] + [byte + 1];
        RaisedIsLater(start, diff, byte + 1);
        assert limit == limit[..diff] + limit[diff..];
        LessAfterPrefix(start[..diff], [byte + 1], limit[diff..]);
      }
    }
  }

  method FindShortSuccessor(key: Bytes) returns (r: Bytes)
    ensures r == key || (Less(key, r) && |r| <= |key|)
    ensures r == key ==> forall i :: 0 <= i < |key| ==> key[i] == 0xff
  {
    for i := 0 to |key|
      invariant forall j :: 0 <= j < i ==> key[j] == 0xff
    {
      var byte := key[i];
      if byte != 0xff {
        r := key[..i] + [byte + 1];
        RaisedIsLater(key, i, byte + 1);
        assert r[i] != key[i];
        return;
      }
    }
    r := key;
  }

  /** An entry whose user key is a byte string, as tables store it. */
  datatype Stored = Stored(user: Bytes, seqno: nat, kind: ValueType, value: Bytes)

  /** The entry with its user key's position in the order for the key. */
  function Ranked(e: Stored): Entry {
    Entry(Rank(e.user), e.seqno, e.kind, e.value)
  }

  predicate SameKey(a: Entry, b: Entry) {
    a.user == b.user && a.seqno == b.seqno && a.kind == b.kind
  }

  /** `key` is the key of `start` itself, or lies strictly between the user keys. */
  predicate SeparatesUsers(start: Entry, key: Entry) {
    SameKey(start, key) || start.user < key.user
  }

  method InternalSeparator(start: Stored, limit: Stored) returns (r: Stored)
    ensures SeparatesUsers(Ranked(start), Ranked(r))
    ensures SameKey(Ranked(start), Ranked(r)) || Rank(r.user) < Rank(limit.user)
  {
    var tmp := FindShortestSeparator(start.user, limit.user);
    RankOrder(start.user, tmp);
    RankOrder(tmp, limit.user);
    if |tmp| < |start.user| && Less(start.user, tmp) {
      r := Stored(tmp, MAX_SEQUENCE, Value, []);
    } else {
      r := start;
    }
  }

  method InternalSuccessor(key: Stored) returns (r: Stored)
    ensures SeparatesUsers(Ranked(key), Ranked(r))
  {
    var tmp := FindShortSuccessor(key.user);
    RankOrder(key.user, tmp);
    if |tmp| < |key.user| && Less(key.user, tmp) {
      r := Stored(tmp, MAX_SEQUENCE, Value, []);
    } else {
      r := key;
    }
  }
}

/** Building a table and looking a key up in it (table/table_builder.cc, table/table.cc). */
module Tables {
  import opened Bytewise
  import opened Cursors
  import opened InternalKeys
  import opened Lookups
  import opened Options
  import opened Separators

  function Concat<T>(blocks: seq<seq<T>>): seq<T> {
    if blocks == [] then [] else Concat(blocks[..|blocks| - 1]) + blocks[|blocks| - 1]
  }

  lemma {:induction false} ConcatHas<T>(blocks: seq<seq<T>>, e: T)
    ensures e in Concat(blocks) <==> exists i :: 0 <= i < |blocks| && e in blocks[i]
  {
    if blocks != [] {
      var fewer := blocks[..|blocks| - 1];
      ConcatHas(fewer, e);
      if i :| 0 <= i < |fewer| && e in fewer[i] {
        assert e in blocks[i];
      }
      if i :| 0 <= i < |blocks| && e in blocks[i] && i < |fewer| {
        assert e in fewer[i];
      }
    }
  }

  // ---------------------------------------------------------------- building

  function RankedAll(es: seq<Stored>): (r: seq<Entry>)
    ensures |r| == |es| && forall i :: 0 <= i < |es| ==> r[i] == Ranked(es[i])
  {
    seq(|es|, i requires 0 <= i < |es| => Ranked(es[i]))
  }

  function RankedBlocks(blocks: seq<seq<Stored>>): (r: seq<seq<Entry>>)
    ensures |r| == |blocks| && forall i :: 0 <= i < |blocks| ==> r[i] == RankedAll(blocks[i])
  {
    seq(|blocks|, i requires 0 <= i < |blocks| => RankedAll(blocks[i]))
  }

  function Last<T>(s: seq<T>): T
    requires s != []
  {
    s[|s| - 1]
  }

  /** The index key is its block's last key, or lies strictly between the user keys around the boundary. */
  predicate Divides(last: Entry, key: Entry, next: Entry) {
    SameKey(last, key) || last.user < key.user < next.user
  }

  /** One index key for each block, each dividing its block from the next. */
  ghost predicate IndexFits(blocks: seq<seq<Entry>>, index: seq<Entry>) {
    && |index| == |blocks|
    && (forall i :: 0 <= i < |blocks| ==> blocks[i] != [] && SeparatesUsers(Last(blocks[i]), index[i]))
    && forall i :: 0 <= i < |blocks| - 1 ==> Divides(Last(blocks[i]), index[i], blocks[i + 1][0])
  }

  /** What follows block `i`, as far as it is known. */
  function NextFirst(blocks: seq<seq<Stored>>, data: seq<Stored>, i: nat): Option<Stored> {
    if i + 1 < |blocks| then if blocks[i + 1] != [] then Some(blocks[i + 1][0]) else None
    else if data != [] then Some(data[0]) else None
  }

  /** The index keys so far divide the blocks, the one being built included. */
  ghost predicate IndexFitsSoFar(blocks: seq<seq<Stored>>, data: seq<Stored>, index: seq<Stored>) {
    && |index| <= |blocks|
    && (forall i :: 0 <= i < |blocks| ==> blocks[i] != [])
    && (forall i :: 0 <= i < |index| ==> SeparatesUsers(Ranked(Last(blocks[i])), Ranked(index[i])))
    && forall i :: 0 <= i < |index| && NextFirst(blocks, data, i).Some? ==>
         Divides(Ranked(Last(blocks[i])), Ranked(index[i]), Ranked(NextFirst(blocks, data, i).value))
  }

  lemma FitsWithKey(blocks: seq<seq<Stored>>, index: seq<Stored>, key: Stored, e: Stored)
    requires IndexFitsSoFar(blocks, [], index) && |index| + 1 == |blocks|
    requires SeparatesUsers(Ranked(Last(Last(blocks))), Ranked(key))
    requires SameKey(Ranked(Last(Last(blocks))), Ranked(key)) || Rank(key.user) < Rank(e.user)
    ensures IndexFitsSoFar(blocks, [e], index + [key])
  {
    hide Ranked, Rank, SameKey;
    var index' := index + [key];
    forall i | 0 <= i < |index'| && NextFirst(blocks, [e], i).Some?
      ensures Divides(Ranked(Last(blocks[i])), Ranked(index'[i]), Ranked(NextFirst(blocks, [e], i).value))
    {
      if i < |index| {
        assert NextFirst(blocks, [], i) == NextFirst(blocks, [e], i);
        assert index'[i] == index[i];
      } else {
        BetweenUsers(Last(Last(blocks)), key, e);
      }
    }
  }

  lemma BetweenUsers(last: Stored, key: Stored, e: Stored)
    requires SeparatesUsers(Ranked(last), Ranked(key))
    requires SameKey(Ranked(last), Ranked(key)) || Rank(key.user) < Rank(e.user)
    ensures Divides(Ranked(last), Ranked(key), Ranked(e))
  {
  }

  lemma FitsWithMore(blocks: seq<seq<Stored>>, data: seq<Stored>, index: seq<Stored>, e: Stored)
    requires IndexFitsSoFar(blocks, data, index) && (data != [] || blocks == [])
    ensures IndexFitsSoFar(blocks, data + [e], index)
  {
  }

  lemma FitsFlushed(blocks: seq<seq<Stored>>, data: seq<Stored>, index: seq<Stored>)
    requires IndexFitsSoFar(blocks, data, index) && data != [] && |index| == |blocks|
    ensures IndexFitsSoFar(blocks + [data], [], index)
  {
    forall i | 0 <= i < |index| && NextFirst(blocks + [data], [], i).Some?
      ensures Divides(Ranked(Last((blocks + [data])[i])), Ranked(index[i]),
                      Ranked(NextFirst(blocks + [data], [], i).value))
    {
      assert NextFirst(blocks + [data], [], i) == NextFirst(blocks, data, i);
    }
  }

  lemma FitsFinished(blocks: seq<seq<Stored>>, index: seq<Stored>, key: Stored)
    requires IndexFitsSoFar(blocks, [], index) && |index| + 1 == |blocks|
    requires SeparatesUsers(Ranked(Last(Last(blocks))), Ranked(key))
    ensures IndexFits(RankedBlocks(blocks), RankedAll(index + [key]))
  {
    var b, x := RankedBlocks(blocks), RankedAll(index + [key]);
    forall i | 0 <= i < |b| - 1 ensures Divides(Last(b[i]), x[i], b[i + 1][0]) {
      assert NextFirst(blocks, [], i) == Some(blocks[i + 1][0]);
    }
  }

  class TableBuilder {
    /** The data blocks written, and the index block. */
    var blocks: seq<seq<Stored>>
    var index: seq<Stored>
    var dataBlock: seq<Stored>
    var lastKey: Stored
    var pendingIndexEntry: bool
    ghost var added: seq<Stored>

    ghost predicate Inv()
      reads this
    {
      && added == Concat(blocks) + dataBlock
      && IndexFitsSoFar(blocks, dataBlock, index)
      && (if pendingIndexEntry then blocks != [] && dataBlock == [] else blocks == [] || dataBlock != [])
      && |index| == |blocks| - (if pendingIndexEntry then 1 else 0)
      && (added != [] ==> lastKey == Last(added))
    }

    constructor ()
      ensures Inv() && added == []
    {
      blocks, index, dataBlock, lastKey, pendingIndexEntry := [], [], [], Stored([], 0, Value, []), false;
      added := [];
    }

    /** `full` says whether the block has reached its size. */
    method Add(e: Stored, full: bool)
      requires Inv()
      modifies this
      ensures Inv() && added == old(added) + [e]
      ensures if full then blocks == old(blocks) + [old(dataBlock) + [e]] && dataBlock == []
              else blocks == old(blocks) && dataBlock == old(dataBlock) + [e]
    {
      hide IndexFitsSoFar, SameKey, SeparatesUsers, Ranked;
      if pendingIndexEntry {
        BlocksNotEmpty(blocks, dataBlock, index);
        LastOfConcat(blocks);
        var key := InternalSeparator(lastKey, e);
        FitsWithKey(blocks, index, key, e);
        assert dataBlock + [e] == [e];
        index := index + [key];
        pendingIndexEntry := false;
      } else {
        FitsWithMore(blocks, dataBlock, index, e);
      }
      lastKey := e;
      dataBlock := dataBlock + [e];
      added := added + [e];
      if full {
        Flush();
      }
    }

    method Flush()
      requires Inv()
      modifies this
      ensures Inv() && added == old(added) && dataBlock == []
      ensures pendingIndexEntry <==> added != []
      ensures blocks == if old(dataBlock) == [] then old(blocks) else old(blocks) + [old(dataBlock)]
    {
      hide IndexFitsSoFar;
      if dataBlock == [] {
        if pendingIndexEntry {
          BlocksNotEmpty(blocks, dataBlock, index);
          LastOfConcat(blocks);
        }
        return;
      }
      ConcatSnoc(blocks, dataBlock);
      FitsFlushed(blocks, dataBlock, index);
      blocks := blocks + [dataBlock];
      dataBlock := [];
      pendingIndexEntry := true;
    }

    /** Every entry added is in the blocks, in order, and the index divides them. */
    method Finish()
      requires Inv()
      modifies this
      ensures added == old(added) && Concat(blocks) == added
      ensures IndexFits(RankedBlocks(blocks), RankedAll(index))
      ensures blocks == if old(dataBlock) == [] then old(blocks) else old(blocks) + [old(dataBlock)]
    {
      hide IndexFitsSoFar, IndexFits, SameKey, SeparatesUsers, Ranked;
      Flush();
      if pendingIndexEntry {
        BlocksNotEmpty(blocks, dataBlock, index);
        LastOfConcat(blocks);
        var key := InternalSuccessor(lastKey);
        FitsFinished(blocks, index, key);
        index := index + [key];
        pendingIndexEntry := false;
      } else {
        NothingFits();
      }
    }
  }

  lemma NothingFits()
    ensures IndexFits(RankedBlocks([]), RankedAll([]))
  {
  }

  lemma BlocksNotEmpty(blocks: seq<seq<Stored>>, data: seq<Stored>, index: seq<Stored>)
    requires IndexFitsSoFar(blocks, data, index)
    ensures forall i :: 0 <= i < |blocks| ==> blocks[i] != []
  {
  }

  lemma ConcatSnoc<T>(blocks: seq<seq<T>>, block: seq<T>)
    ensures Concat(blocks + [block]) == Concat(blocks) + block
  {
    assert (blocks + [block])[..|blocks|] == blocks;
  }

  lemma LastOfConcat<T>(blocks: seq<seq<T>>)
    requires blocks != [] && Last(blocks) != []
    ensures Concat(blocks) != [] && Last(Concat(blocks)) == Last(Last(blocks))
  {
  }

  // ---------------------------------------------------------------- reading

  /** Where block `i` begins in the whole table. */
  function Offset<T>(blocks: seq<seq<T>>, i: nat): nat
    requires i <= |blocks|
  {
    |Concat(blocks[..i])|
  }

  lemma OffsetNext<T>(blocks: seq<seq<T>>, i: nat)
    requires i < |blocks|
    ensures Offset(blocks, i + 1) == Offset(blocks, i) + |blocks[i]|
  {
    assert blocks[..i + 1] == blocks[..i] + [blocks[i]];
    ConcatSnoc(blocks[..i], blocks[i]);
  }

  lemma {:induction false} ConcatAt<T>(blocks: seq<seq<T>>, i: nat, j: nat)
    requires i < |blocks| && j < |blocks[i]|
    ensures Offset(blocks, i) + j < |Concat(blocks)| && Concat(blocks)[Offset(blocks, i) + j] == blocks[i][j]
  {
    var fewer := blocks[..|blocks| - 1];
    assert fewer[..i] == blocks[..i];
    if i < |fewer| {
      ConcatAt(fewer, i, j);
    } else {
      assert blocks[..i] == fewer;
    }
  }

  /** Every position of the table is in some block. */
  lemma {:induction false} ConcatFind<T>(blocks: seq<seq<T>>, n: nat) returns (i: nat, j: nat)
    requires n < |Concat(blocks)|
    ensures i < |blocks| && j < |blocks[i]| && n == Offset(blocks, i) + j && Concat(blocks)[n] == blocks[i][j]
  {
    var fewer := blocks[..|blocks| - 1];
    if n < |Concat(fewer)| {
      i, j := ConcatFind(fewer, n);
      assert fewer[..i] == blocks[..i];
    } else {
      i, j := |fewer|, n - |Concat(fewer)|;
    }
  }

  lemma {:induction false} OffsetOrder<T>(blocks: seq<seq<T>>, i: nat, k: nat)
    requires i <= k <= |blocks|
    ensures Offset(blocks, i) <= Offset(blocks, k)
    decreases k
  {
    if i < k {
      OffsetOrder(blocks, i, k - 1);
      OffsetNext(blocks, k - 1);
    }
  }

  /** Each index key is at or after the keys of its block, and before all keys of later blocks. */
  ghost predicate IndexOrders(blocks: seq<seq<Entry>>, index: seq<Entry>) {
    && |index| == |blocks|
    && (forall i, j :: 0 <= i < |blocks| && 0 <= j < |blocks[i]| ==> !Before(index[i], blocks[i][j]))
    && forall i, k, j :: 0 <= i < k < |blocks| && 0 <= j < |blocks[k]| ==> Before(index[i], blocks[k][j])
  }

  /** In a sorted table, entries of earlier blocks come before entries of later ones. */
  lemma BlocksOrder(blocks: seq<seq<Entry>>, i: nat, j: nat, i': nat, j': nat)
    requires Sorted(Concat(blocks)) && i < |blocks| && j < |blocks[i]| && i' < |blocks| && j' < |blocks[i']|
    requires i < i' || (i == i' && j < j')
    ensures Before(blocks[i][j], blocks[i'][j'])
  {
    hide Concat, Before;
    ConcatAt(blocks, i, j);
    ConcatAt(blocks, i', j');
    if i < i' {
      OffsetNext(blocks, i);
      OffsetOrder(blocks, i + 1, i');
    }
  }

  lemma FitsOrders(blocks: seq<seq<Entry>>, index: seq<Entry>)
    requires Sorted(Concat(blocks)) && IndexFits(blocks, index)
    ensures IndexOrders(blocks, index)
  {
    hide Sorted, Concat;
    forall i, j | 0 <= i < |blocks| && 0 <= j < |blocks[i]| ensures !Before(index[i], blocks[i][j]) {
      if j < |blocks[i]| - 1 {
        BlocksOrder(blocks, i, j, i, |blocks[i]| - 1);
      }
    }
    forall i, k, j | 0 <= i < k < |blocks| && 0 <= j < |blocks[k]| ensures Before(index[i], blocks[k][j]) {
      BlocksOrder(blocks, i, |blocks[i]| - 1, i + 1, 0);
      if i + 1 < k || 0 < j {
        BlocksOrder(blocks, i + 1, 0, k, j);
      }
      assert Divides(Last(blocks[i]), index[i], blocks[i + 1][0]);
    }
  }

  lemma LowerBoundIs(es: seq<Entry>, target: Entry, n: nat)
    requires n <= |es| && (forall i :: 0 <= i < n ==> Before(es[i], target)) && (n < |es| ==> !Before(es[n], target))
    ensures LowerBound(es, target) == n
  {
    hide LowerBound, Before;
    var m := LowerBound(es, target);
  }

  /** Seeking in the index and then in the one block it names leads to the right place of the table. */
  lemma SeekInBlock(blocks: seq<seq<Entry>>, index: seq<Entry>, target: Entry)
    requires IndexOrders(blocks, index) && Sorted(Concat(blocks))
    ensures var i := LowerBound(index, target);
            LowerBound(Concat(blocks), target) ==
              Offset(blocks, i) + if i < |blocks| then LowerBound(blocks[i], target) else 0
  {
    hide Concat, LowerBound;
    var i := LowerBound(index, target);
    var n := Offset(blocks, i) + if i < |blocks| then LowerBound(blocks[i], target) else 0;
    InPlace(blocks, i);
    forall k | 0 <= k < n ensures k < |Concat(blocks)| && Before(Concat(blocks)[k], target) {
      BeforeTarget(blocks, index, target, k);
    }
    if n < |Concat(blocks)| {
      AfterTarget(blocks, index, target, n);
    }
    LowerBoundIs(Concat(blocks), target, n);
  }

  lemma InPlace(blocks: seq<seq<Entry>>, i: nat)
    requires i <= |blocks|
    ensures Offset(blocks, i) <= |Concat(blocks)|
    ensures i < |blocks| ==> Offset(blocks, i) + |blocks[i]| <= |Concat(blocks)|
  {
    assert blocks[..|blocks|] == blocks;
    OffsetOrder(blocks, i, |blocks|);
    if i < |blocks| {
      OffsetNext(blocks, i);
      OffsetOrder(blocks, i + 1, |blocks|);
    }
  }

  lemma BeforeTarget(blocks: seq<seq<Entry>>, index: seq<Entry>, target: Entry, k: nat)
    requires IndexOrders(blocks, index)
    requires var i := LowerBound(index, target);
      k < Offset(blocks, i) + if i < |blocks| then LowerBound(blocks[i], target) else 0
    ensures k < |Concat(blocks)| && Before(Concat(blocks)[k], target)
  {
    hide Concat, LowerBound;
    var i := LowerBound(index, target);
    InPlace(blocks, i);
    var b, j := ConcatFind(blocks, k);
    if b > i {
      OffsetNext(blocks, i);
      OffsetOrder(blocks, i + 1, b);
    } else if b < i {
      assert Before(index[b], target) && !Before(index[b], blocks[b][j]);
    }
  }

  lemma AfterTarget(blocks: seq<seq<Entry>>, index: seq<Entry>, target: Entry, n: nat)
    requires IndexOrders(blocks, index) && n < |Concat(blocks)|
    requires var i := LowerBound(index, target);
      n == Offset(blocks, i) + if i < |blocks| then LowerBound(blocks[i], target) else 0
    ensures !Before(Concat(blocks)[n], target)
  {
    hide Concat, LowerBound;
    var i := LowerBound(index, target);
    InPlace(blocks, i);
    var b, j := ConcatFind(blocks, n);
    if b > i {
      assert Before(index[i], blocks[b][j]) && !Before(index[i], target);
    } else if b < i {
      OffsetNext(blocks, b);
      OffsetOrder(blocks, b + 1, i);
    }
  }

  /**
   * InternalGet, with SaveValue as the callback: the index names one block, and only that
   * block is searched, if the filter `mayMatch` says it may hold the key.
   */
  method InternalGet(blocks: seq<seq<Entry>>, index: seq<Entry>, mayMatch: nat -> bool, user: UserKey, snapshot: nat)
    returns (r: Option<Entry>)
    requires Sorted(Concat(blocks)) && IndexFits(blocks, index)
    requires forall i, e :: 0 <= i < |blocks| && e in blocks[i] && e.user == user ==> mayMatch(i)
    ensures IsNewest(SeqEntries(Concat(blocks)), user, snapshot, r)
  {
    hide Concat, LowerBound, Sorted, IndexFits;
    var k := SeekKey(user, snapshot);
    var i := LowerBound(index, k);
    r := None;
    FitsOrders(blocks, index);
    SeekInBlock(blocks, index, k);
    assert |index| == |blocks| by { SameCount(blocks, index); }
    if i < |index| {
      if mayMatch(i) {
        var j := LowerBound(blocks[i], k);
        if j < |blocks[i]| && blocks[i][j].user == user {
          r := Some(blocks[i][j]);
          ConcatAt(blocks, i, j);
        } else {
          MissInBlock(blocks, index, i, user, snapshot);
        }
      } else {
        MissInBlock(blocks, index, i, user, snapshot);
      }
    } else {
      assert blocks[..i] == blocks;
    }
    FirstIsNewest(Concat(blocks), user, snapshot, r);
  }

  lemma SameCount(blocks: seq<seq<Entry>>, index: seq<Entry>)
    requires IndexFits(blocks, index)
    ensures |index| == |blocks|
  {
  }

  /** The first entry from the lookup key on is the newest visible one, or there is none. */
  lemma FirstIsNewest(es: seq<Entry>, user: UserKey, snapshot: nat, r: Option<Entry>)
    requires Sorted(es)
    requires var n := LowerBound(es, SeekKey(user, snapshot));
             r == if n < |es| && es[n].user == user then Some(es[n]) else None
    ensures IsNewest(SeqEntries(es), user, snapshot, r)
  {
    hide LowerBound;
    var n := LowerBound(es, SeekKey(user, snapshot));
    forall e | e in es && Visible(e, user, snapshot) ensures r.Some? && e.seqno <= r.value.seqno {
      var i :| 0 <= i < |es| && es[i] == e;
      assert n <= i;
      assert n < i ==> Before(es[n], es[i]);
    }
  }

  /** If the block the index names has nothing of the user key from the lookup key on, neither has the rest. */
  lemma MissInBlock(blocks: seq<seq<Entry>>, index: seq<Entry>, i: nat, user: UserKey, snapshot: nat)
    requires Sorted(Concat(blocks)) && IndexFits(blocks, index)
    requires i == LowerBound(index, SeekKey(user, snapshot)) < |blocks|
    requires var j := LowerBound(blocks[i], SeekKey(user, snapshot)); j == |blocks[i]| || blocks[i][j].user != user
    ensures var n := LowerBound(Concat(blocks), SeekKey(user, snapshot)); n < |Concat(blocks)| ==>
        Concat(blocks)[n].user != user
  {
    hide Concat, LowerBound;
    var k := SeekKey(user, snapshot);
    var j, n := LowerBound(blocks[i], k), LowerBound(Concat(blocks), k);
    FitsOrders(blocks, index);
    SeekInBlock(blocks, index, k);
    if n < |Concat(blocks)| {
      var b, l := ConcatFind(blocks, n);
      if j < |blocks[i]| {
        ConcatAt(blocks, i, j);
      } else {
        BeyondBlock(blocks, index, i, user, snapshot, b, l);
      }
    }
  }

  lemma BeyondBlock(blocks: seq<seq<Entry>>, index: seq<Entry>, i: nat, user: UserKey, snapshot: nat, b: nat, l: nat)
    requires Sorted(Concat(blocks)) && IndexFits(blocks, index)
    requires i == LowerBound(index, SeekKey(user, snapshot)) < |blocks|
    requires LowerBound(blocks[i], SeekKey(user, snapshot)) == |blocks[i]|
    requires b < |blocks| && l < |blocks[b]| && !Before(blocks[b][l], SeekKey(user, snapshot))
    ensures blocks[b][l].user != user
  {
    hide Concat, LowerBound, Sorted;
    FitsOrders(blocks, index);
    var last := Last(blocks[i]);
    assert Before(last, SeekKey(user, snapshot)) && !Before(index[i], SeekKey(user, snapshot));
    if b <= i {
      assert b < i ==> Before(index[b], SeekKey(user, snapshot)) && !Before(index[b], blocks[b][l]);
    } else {
      assert Divides(last, index[i], blocks[i + 1][0]);
      if i + 1 < b || 0 < l {
        BlocksOrder(blocks, i + 1, 0, b, l);
      }
    }
  }
}
