/** A table with a filter block: what the builder files, a lookup finds (table/table_builder.cc, table/table.cc). */
module FilteredTables {
  import opened Bytewise
  import opened FilterBlocks
  import opened InternalKeys
  import opened Lookups
  import opened Options
  import opened Separators
  import opened Tables
  import Fixed

  /** Each entry's user key was given to the filter at its block's offset. */
  ghost predicate BlocksFiled(blocks: seq<seq<Stored>>, offsets: seq<nat>, history: seq<Added>) {
    |offsets| == |blocks| && forall i :: 0 <= i < |blocks| ==> BlockFiled(blocks[i], offsets[i], history)
  }

  ghost predicate BlockFiled(block: seq<Stored>, offset: nat, history: seq<Added>) {
    forall e :: e in block ==> Added(offset, e.user) in history
  }

  lemma FiledOn(blocks: seq<seq<Stored>>, offsets: seq<nat>, history: seq<Added>, a: Added)
    requires BlocksFiled(blocks, offsets, history)
    ensures BlocksFiled(blocks, offsets, history + [a])
  {
    forall i | 0 <= i < |blocks| ensures BlockFiled(blocks[i], offsets[i], history + [a]) {
      assert BlockFiled(blocks[i], offsets[i], history);
    }
  }

  lemma FiledOne(block: seq<Stored>, offset: nat, history: seq<Added>, e: Stored)
    requires BlockFiled(block, offset, history)
    ensures BlockFiled(block + [e], offset, history + [Added(offset, e.user)])
  {
  }

  class FilteredBuilder {
    const table: TableBuilder
    const filter: FilterBlockBuilder
    /** Where the next block goes, and where each block written begins. */
    var offset: nat
    var offsets: seq<nat>

    ghost predicate Inv()
      reads this, table, filter
    {
      && table.Inv() && filter.Inv()
      && filter.current == offset && |filter.filters| == offset / BASE
      && BlocksFiled(table.blocks, offsets, filter.history)
      && BlockFiled(table.dataBlock, offset, filter.history)
    }

    constructor (bitsPerKey: nat)
      ensures Inv() && fresh(table) && fresh(filter) && table.added == []
    {
      var t := new TableBuilder();
      var f := new FilterBlockBuilder(bitsPerKey);
      table, filter, offset, offsets := t, f, 0, [];
      new;
      NothingAdded(table);
    }

    /** `full` is the size on file of the block that the entry fills, if it does. */
    method Add(e: Stored, full: Option<nat>)
      requires Inv()
      modifies this, table, filter
      ensures Inv() && table.added == old(table.added) + [e]
    {
      hide BlocksFiled, BlockFiled;
      FiledOn(table.blocks, offsets, filter.history, Added(offset, e.user));
      FiledOne(table.dataBlock, offset, filter.history, e);
      filter.AddKey(e.user);
      ghost var block := table.dataBlock + [e];
      table.Add(e, full.Some?);
      if full.Some? {
        BlockFinished(old(table.blocks), offsets, filter.history, block, offset);
        Advance(full.value);
      }
    }

    /** A block has been written. */
    method Advance(size: nat)
      requires table.Inv() && filter.Inv() && table.dataBlock == []
      requires filter.current == offset && |filter.filters| == offset / BASE
      requires BlocksFiled(table.blocks, offsets + [offset], filter.history)
      modifies this, filter
      ensures Inv() && filter.history == old(filter.history)
      ensures offsets == old(offsets) + [old(offset)]
    {
      hide BlocksFiled;
      offsets := offsets + [offset];
      offset := offset + size;
      filter.StartBlock(offset);
    }

    /** The index divides the blocks, and no filter of at most 4 GB denies a key to its block. */
    method Finish(size: nat) returns (contents: Bytes)
      requires Inv()
      modifies this, table, filter
      ensures table.added == old(table.added) && Concat(table.blocks) == table.added
      ensures IndexFits(RankedBlocks(table.blocks), RankedAll(table.index))
      ensures |filter.result| < Fixed.WORD ==> NoneDenied(table.blocks, offsets, contents)
    {
      hide BlocksFiled, BlockFiled, IndexFits, BlockMayMatch;
      ghost var block, blocks := table.dataBlock, table.blocks;
      if table.dataBlock != [] {
        BlockFinished(blocks, offsets, filter.history, block, offset);
        table.Flush();
        Advance(size);
      }
      table.Finish();
      contents := filter.Finish();
      if |filter.result| < Fixed.WORD {
        FiledMayMatch(table.blocks, offsets, filter.history, contents);
      }
    }
  }

  lemma NothingAdded(table: TableBuilder)
    requires table.Inv() && table.added == []
    ensures table.blocks == [] && table.dataBlock == []
  {
    if table.blocks != [] {
      BlocksNotEmpty(table.blocks, table.dataBlock, table.index);
      LastOfConcat(table.blocks);
    }
  }

  lemma BlockFinished(
    blocks: seq<seq<Stored>>, offsets: seq<nat>, history: seq<Added>, block: seq<Stored>, offset: nat)
    requires BlocksFiled(blocks, offsets, history) && BlockFiled(block, offset, history)
    ensures BlocksFiled(blocks + [block], offsets + [offset], history) && BlockFiled([], offset, history)
  {
  }

  ghost predicate NoneDenied(blocks: seq<seq<Stored>>, offsets: seq<nat>, contents: Bytes) {
    && |offsets| == |blocks|
    && forall i, e :: 0 <= i < |blocks| && e in blocks[i] ==> BlockMayMatch(contents, offsets[i], e.user)
  }

  lemma FiledMayMatch(blocks: seq<seq<Stored>>, offsets: seq<nat>, history: seq<Added>, contents: Bytes)
    requires BlocksFiled(blocks, offsets, history)
    requires forall i :: 0 <= i < |history| ==> BlockMayMatch(contents, history[i].offset, history[i].key)
    ensures NoneDenied(blocks, offsets, contents)
  {
    hide BlockMayMatch;
    forall i, e | 0 <= i < |blocks| && e in blocks[i] ensures BlockMayMatch(contents, offsets[i], e.user) {
      assert BlockFiled(blocks[i], offsets[i], history);
      var k :| 0 <= k < |history| && history[k] == Added(offsets[i], e.user);
    }
  }

  lemma SameUser(a: Bytes, b: Bytes)
    ensures Rank(a) == Rank(b) <==> a == b
  {
    RankOrder(a, b);
  }

  /** Table::InternalGet through the filter block: the newest visible entry of the table, as if there were no filter. */
  method Get(blocks: seq<seq<Stored>>, index: seq<Stored>, offsets: seq<nat>, contents: Bytes, user: Bytes,
             snapshot: nat)
    returns (r: Option<Entry>)
    requires Sorted(Concat(RankedBlocks(blocks))) && IndexFits(RankedBlocks(blocks), RankedAll(index))
    requires NoneDenied(blocks, offsets, contents)
    ensures IsNewest(SeqEntries(Concat(RankedBlocks(blocks))), Rank(user), snapshot, r)
  {
    hide Concat, Sorted, IndexFits, Rank, BlockMayMatch;
    var mayMatch := (i: nat) => i < |offsets| && BlockMayMatch(contents, offsets[i], user);
    forall i, e | 0 <= i < |blocks| && e in RankedBlocks(blocks)[i] && e.user == Rank(user) ensures mayMatch(i) {
      var k :| 0 <= k < |blocks[i]| && RankedAll(blocks[i])[k] == e;
      assert blocks[i][k] in blocks[i];
      SameUser(blocks[i][k].user, user);
    }
    r := InternalGet(RankedBlocks(blocks), RankedAll(index), mayMatch, Rank(user), snapshot);
  }
}
