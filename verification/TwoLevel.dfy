/** The iterator over an index whose entries name blocks (table/two_level_iterator.cc). */
module TwoLevel {
  import opened Cursors
  import opened InternalKeys
  import opened Tables

  class TwoLevelIterator {
    const index: Cursor
    /** What the block function returns for each index entry. */
    const blocks: seq<seq<Entry>>
    var data: Cursor?
    /** Which block the data iterator was made for. */
    var handle: nat
    /** The position in the whole table; its length when not valid. */
    ghost var at: nat

    ghost function Parts(): set<object>
      reads this
    {
      {this, index} + if data == null then {} else {data}
    }

    ghost predicate Structure()
      reads this, Parts()
    {
      && |index.entries| == |blocks| && index.pos <= |blocks|
      && (data != null ==>
          data != index && handle < |blocks| && data.entries == blocks[handle] && data.pos <= |data.entries|)
    }

    /** The data iterator is for the block the index stands at, if it stands at one. */
    ghost predicate Loaded()
      reads this, Parts()
    {
      && Structure()
      && (index.Valid() <==> data != null)
      && (data != null ==> handle == index.pos)
    }

    ghost predicate Inv()
      reads this, Parts()
    {
      && Structure()
      && at <= |Concat(blocks)|
      && (at < |Concat(blocks)| <==> Valid())
      && (Valid() ==> Loaded() && at == Offset(blocks, index.pos) + data.pos)
    }

    predicate Valid()
      reads this, data
    {
      data != null && data.Valid()
    }

    constructor (indexIter: Cursor, bs: seq<seq<Entry>>)
      requires |indexIter.entries| == |bs| && indexIter.pos <= |bs|
      ensures Inv() && index == indexIter && blocks == bs && data == null
    {
      index, blocks, data, handle := indexIter, bs, null, 0;
      at := |Concat(bs)|;
    }

    function Key(): (e: Entry)
      requires Inv() && Valid()
      reads this, Parts()
      ensures e == Concat(blocks)[at]
    {
      ConcatAt(blocks, index.pos, data.pos);
      data.entries[data.pos]
    }

    method InitDataBlock()
      requires Structure()
      modifies this`data, this`handle
      ensures Loaded() && at == old(at)
      ensures data != null ==> data == old(data) || fresh(data)
      ensures data != null && data == old(data) ==> data.pos == old(if data == null then 0 else data.pos)
    {
      if !index.Valid() {
        data := null;
      } else if data != null && index.pos == handle {
      } else {
        data := new Cursor(blocks[index.pos]);
        handle := index.pos;
      }
    }

    /** From block boundary `n`, go on to the first entry there is. */
    method SkipEmptyDataBlocksForward(ghost n: nat)
      requires Loaded() && n <= |Concat(blocks)|
      requires n == Offset(blocks, index.pos) + if data != null then data.pos else 0
      modifies Parts()
      ensures Inv() && at == n && fresh(Parts() - old(Parts()))
    {
      while data == null || !data.Valid()
        invariant Loaded() && fresh(Parts() - old(Parts()))
        invariant n == Offset(blocks, index.pos) + if data != null then data.pos else 0
        decreases |blocks| - index.pos
      {
        if !index.Valid() {
          break;
        }
        OffsetNext(blocks, index.pos);
        index.Next();
        InitDataBlock();
        if data != null {
          data.SeekToFirst();
        }
      }
      at := n;
      AtEnd(n);
    }

    lemma AtEnd(n: nat)
      requires Loaded() && n <= |Concat(blocks)|
      requires n == Offset(blocks, index.pos) + if data != null then data.pos else 0
      requires !index.Valid() || Valid()
      ensures n < |Concat(blocks)| <==> Valid()
    {
      if Valid() {
        ConcatAt(blocks, index.pos, data.pos);
      } else {
        assert blocks[..index.pos] == blocks;
      }
    }

    /** The data iterator is one step back from boundary `n`; with no block left, nothing is before it. */
    ghost predicate BackFrom(n: nat)
      reads this, Parts()
    {
      && Loaded() && n <= |Concat(blocks)|
      && (data == null ==> n == 0)
      && (data != null ==> Offset(blocks, index.pos) <= n <= Offset(blocks, index.pos) + |data.entries|
                           && data.pos == Back(data.entries, n - Offset(blocks, index.pos)))
    }

    /** From boundary `n`, go back to the last entry before it. */
    method SkipEmptyDataBlocksBackward(ghost n: nat)
      requires BackFrom(n)
      modifies Parts()
      ensures Inv() && at == (if n == 0 then |Concat(blocks)| else n - 1) && fresh(Parts() - old(Parts()))
    {
      hide Concat;
      while data == null || !data.Valid()
        invariant BackFrom(n) && fresh(Parts() - old(Parts()))
        decreases data != null, index.pos
      {
        if !index.Valid() {
          break;
        }
        if index.pos > 0 {
          OffsetNext(blocks, index.pos - 1);
        } else {
          NothingBefore(blocks);
        }
        index.Prev();
        InitDataBlock();
        if data != null {
          data.SeekToLast();
        }
      }
      at := if n == 0 then |Concat(blocks)| else n - 1;
      if data != null {
        ConcatAt(blocks, index.pos, data.pos);
      }
    }

    method Seek(target: Entry)
      requires Inv() && IndexOrders(blocks, index.entries) && Sorted(Concat(blocks))
      modifies Parts()
      ensures Inv() && at == LowerBound(Concat(blocks), target) && fresh(Parts() - old(Parts()))
    {
      hide Concat, LowerBound, Sorted, IndexOrders;
      index.Seek(target);
      InitDataBlock();
      if data != null {
        data.Seek(target);
      }
      SeekInBlock(blocks, index.entries, target);
      SkipEmptyDataBlocksForward(LowerBound(Concat(blocks), target));
    }

    method SeekToFirst()
      requires Inv()
      modifies Parts()
      ensures Inv() && at == 0 && fresh(Parts() - old(Parts()))
    {
      NothingBefore(blocks);
      index.SeekToFirst();
      InitDataBlock();
      if data != null {
        data.SeekToFirst();
      }
      SkipEmptyDataBlocksForward(0);
    }

    method SeekToLast()
      requires Inv()
      modifies Parts()
      ensures Inv() && at == Back(Concat(blocks), |Concat(blocks)|) && fresh(Parts() - old(Parts()))
    {
      index.SeekToLast();
      InitDataBlock();
      if data != null {
        data.SeekToLast();
        OffsetNext(blocks, index.pos);
      }
      assert blocks[..|blocks|] == blocks;
      SkipEmptyDataBlocksBackward(|Concat(blocks)|);
    }

    method Next()
      requires Inv() && Valid()
      modifies Parts()
      ensures Inv() && at == old(at) + 1 && fresh(Parts() - old(Parts()))
    {
      data.Next();
      SkipEmptyDataBlocksForward(at + 1);
    }

    method Prev()
      requires Inv() && Valid()
      modifies Parts()
      ensures Inv() && at == Back(Concat(blocks), old(at)) && fresh(Parts() - old(Parts()))
    {
      data.Prev();
      SkipEmptyDataBlocksBackward(at);
    }
  }

  lemma NothingBefore(blocks: seq<seq<Entry>>)
    ensures Offset(blocks, 0) == 0
  {
    assert blocks[..0] == [];
  }
}
