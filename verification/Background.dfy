/** The code behind the steps of the store: the procedures, run together, take those steps (db/db_impl.cc). */
module BackgroundWork {
  import opened InternalKeys
  import opened Lookups
  import opened Options
  import opened Versions
  import opened VersionBuilder
  import opened Picking
  import opened Compactions
  import opened LevelEdits
  import opened Database
  import Operations

  /** The latest answer for a key: by the batch's last operation on it, or else as before. */
  ghost predicate AnswersAfter(st: State, batch: seq<Op>, st': State, user: UserKey) {
    var before := Read(Entries(st), user, st.lastSequence);
    Read(Entries(st'), user, st'.lastSequence) == Operations.AnswerAfter(before, batch, user)
  }

  /** WriteBatch into the memtable, entry by entry. */
  method Write(st: State, batch: seq<Op>) returns (st': State)
    requires Inv(st) && st.lastSequence + |batch| < MAX_SEQUENCE
    ensures WriteStep(st, batch, st')
    ensures forall user :: AnswersAfter(st, batch, st', user)
  {
    hide Inv, WriteStep, InsertAll, BatchEntries, AnswersAfter;
    InsertingWrites(st, batch);
    st' := st.(mem := InsertAll(st.mem, BatchEntries(batch, st.lastSequence + 1)),
               lastSequence := st.lastSequence + |batch|);
    forall user ensures AnswersAfter(st, batch, st', user) {
      WriteIsSeen(st, batch, st', user);
    }
  }

  lemma WriteIsSeen(st: State, batch: seq<Op>, st': State, user: UserKey)
    requires Inv(st) && WriteStep(st, batch, st')
    ensures AnswersAfter(st, batch, st', user)
  {
    hide Newest, Operations.AnswerAfter, Sorted, SeqEntries, BatchEntries, ValidVersion, Numbered, ValidSnapshots;
    WriteKeepsInv(st, batch, st');
    Operations.BatchIsSeen(Entries(st), batch, st.lastSequence, user, st'.lastSequence);
    Operations.LaterSnapshot(Entries(st), user, st.lastSequence, st'.lastSequence);
  }

  lemma SequencesBounded(st: State)
    requires Inv(st)
    ensures |st.version| == NUM_LEVELS && forall l :: 0 <= l < NUM_LEVELS ==> BoundedSequences(st.version[l])
  {
    var v := st.version;
    forall l: nat, t: Table | 0 <= l < NUM_LEVELS && t in v[l] ensures t.largest.seqno <= MAX_SEQUENCE {
      assert v[l] in v && ValidTable(t) && t.largest in t.entries;
      assert t.largest in LevelEntries(v[l]) && t.largest in VersionEntries(v);
    }
  }

  lemma FreshNumber(v: Version, nextFile: nat, l: nat)
    requires Numbered(v, nextFile) && l < |v|
    ensures SortedBySmallest(v[l]) && forall t :: t in v[l] ==> t.number < nextFile
  {
  }

  lemma HasLevels(v: Version)
    requires ValidVersion(v)
    ensures |v| == NUM_LEVELS
  {
  }

  /** WriteLevel0Table: pick the level for a table, and save it there. */
  method AddTable(v: Version, nextFile: nat, t: Table) returns (level: nat, v': Version)
    requires ValidVersion(v) && Numbered(v, nextFile) && t.number >= nextFile
    requires forall l :: 0 <= l < NUM_LEVELS ==> BoundedSequences(v[l])
    ensures FlushInstalls(v, level, t, v')
    ensures level < MAX_MEM_COMPACT_LEVEL ==> NoDeeper(v, level, t.smallest.user, t.largest.user)
  {
    hide ValidVersion, Numbered, BoundedSequences, NoDeeper, FlushLevel, Saved, TotalSize, Overlapping;
    assert |v| == NUM_LEVELS by {
      HasLevels(v);
    }
    level := PickLevelForMemTableOutput(v, t.smallest.user, t.largest.user);
    FreshNumber(v, nextFile, level);
    var r := SaveTo(v[level], [t], {});
    v' := v[level := r];
  }

  /** DBImpl::CompactMemTable: build a table, pick its level, and install it there. */
  method CompactMemTable(st: State, fileSize: seq<Entry> -> nat) returns (level: nat, st': State)
    requires Inv(st) && st.imm.Some?
    ensures FlushStep(st, level, st.nextFile, fileSize(Imm(st)), st')
    ensures level < MAX_MEM_COMPACT_LEVEL && Imm(st) != [] ==>
      NoDeeper(st.version, level, Imm(st)[0].user, Imm(st)[|Imm(st)| - 1].user)
  {
    SequencesBounded(st);
    hide ValidVersion, Numbered, Ordered, ValidSnapshots, BoundedSequences, NoDeeper, FlushInstalls;
    level, st' := 0, st.(imm := None, nextFile := st.nextFile + 1);
    if Imm(st) != [] {
      var v';
      level, v' := AddTable(st.version, st.nextFile, TableOf(st.nextFile, fileSize(Imm(st)), Imm(st)));
      st' := st'.(version := v');
    }
  }

  // ---------------------------------------------------------------- compactions

  /** Entries in internal-key order, as the merging iterator yields them. */
  function Listing(es: seq<Entry>): seq<Entry> {
    if es == [] then []
    else
      var r, e := Listing(es[..|es| - 1]), es[|es| - 1];
      if e in r then r else Insert(r, e)
  }

  lemma {:induction false} ListingSorted(es: seq<Entry>)
    requires Unique(SeqEntries(es))
    ensures Sorted(Listing(es)) && SeqEntries(Listing(es)) == SeqEntries(es)
  {
    if es != [] {
      var init, e := es[..|es| - 1], es[|es| - 1];
      assert es == init + [e];
      assert SeqEntries(es) == SeqEntries(init) + iset{e};
      ListingSorted(init);
      OneListed(Listing(init), e);
    }
  }

  lemma OneListed(r: seq<Entry>, e: Entry)
    requires Sorted(r) && Unique(SeqEntries(r) + iset{e})
    ensures e !in r ==> Sorted(Insert(r, e)) && SeqEntries(Insert(r, e)) == SeqEntries(r) + iset{e}
    ensures e in r ==> SeqEntries(r) == SeqEntries(r) + iset{e}
  {
    if e !in r {
      forall x | x in r ensures Before(x, e) || Before(e, x) {
        assert x in SeqEntries(r) + iset{e};
      }
      InsertSorted(r, e);
    }
  }

  lemma InputsListed(v: Version, level: nat, inputs0: Level, inputs1: Level)
    requires Unique(VersionEntries(v)) && Picked(v, level, inputs0, inputs1)
    ensures Unique(SeqEntries(Flatten(inputs0 + inputs1)))
    ensures SeqEntries(Flatten(inputs0 + inputs1)) == LevelEntries(inputs0 + inputs1)
  {
    ChosenFromLevels(v[level], v[level + 1], inputs0, inputs1);
    SplitVersion(v, level);
    hide Picked, LevelEntries, VersionEntries, Elsewhere;
    assert SeqEntries(Flatten(inputs0 + inputs1)) == LevelEntries(inputs0 + inputs1) by {
      SameListed(inputs0 + inputs1);
    }
  }

  lemma SameListed(ts: Level)
    ensures SeqEntries(Flatten(ts)) == LevelEntries(ts)
  {
    FlattenMembers(ts);
  }

  lemma OutputsInOrder(outputs: Level)
    requires ValidLevel(outputs) && Disjoint(outputs)
    ensures SortedBySmallest(outputs)
  {
    forall i, j | 0 <= i < j < |outputs| ensures BySmallest(outputs[i], outputs[j]) {
      EntryInBounds(outputs[i], outputs[i].largest);
      EntryInBounds(outputs[i], outputs[i].smallest);
      assert Before(outputs[i].largest, outputs[j].smallest);
    }
  }

  /** Both levels of a compaction, saved with its outputs. */
  method Install(v: Version, nextFile: nat, w: Work, nextFile': nat) returns (v': Version)
    requires Numbered(v, nextFile) && |v| == NUM_LEVELS && w.level + 1 < NUM_LEVELS
    requires SortedBySmallest(w.outputs) && NumberedFrom(w.outputs, nextFile, nextFile')
    ensures Reshaped(v, w.level, w.inputs0, w.inputs1, w.outputs, v')
  {
    hide SortedBySmallest, Saved;
    FreshNumber(v, nextFile, w.level);
    FreshNumber(v, nextFile, w.level + 1);
    assert SortedBySmallest([]) by {
      NothingSorted();
    }
    var upper := SaveTo(v[w.level], [], Numbers(w.inputs0));
    var lower := SaveTo(v[w.level + 1], w.outputs, Numbers(w.inputs1));
    v' := v[w.level := upper][w.level + 1 := lower];
  }

  lemma NothingSorted()
    ensures SortedBySmallest([])
  {
  }

  lemma Consequences(st: State)
    requires Inv(st)
    ensures ValidVersion(st.version) && Numbered(st.version, st.nextFile) && Unique(VersionEntries(st.version))
    ensures SmallestSnapshot(st) < MAX_SEQUENCE && |st.version| == NUM_LEVELS
  {
    ShrinkOrders(SeqEntries(st.mem), SeqEntries(Imm(st)), VersionEntries(st.version), VersionEntries(st.version),
                 st.lastSequence);
    assert st.snapshots != [] ==> st.snapshots[0] <= st.lastSequence;
  }

  /** MakeInputIterator: the entries of the inputs, in order. */
  method MergeInputs(v: Version, level: nat, inputs0: Level, inputs1: Level) returns (merged: seq<Entry>)
    requires Unique(VersionEntries(v)) && Picked(v, level, inputs0, inputs1)
    ensures Sorted(merged) && SeqEntries(merged) == LevelEntries(inputs0 + inputs1)
  {
    hide Unique, VersionEntries, Picked, Sorted, SeqEntries, LevelEntries, Listing, Flatten;
    InputsListed(v, level, inputs0, inputs1);
    merged := Listing(Flatten(inputs0 + inputs1));
    ListingSorted(Flatten(inputs0 + inputs1));
  }

  /** DoCompactionWork on picked inputs. */
  method WorkOn(v: Version, level: nat, inputs0: Level, inputs1: Level, grandparents: Level, smallest: nat,
                nextFile: nat,
                fileSize: seq<Entry> -> nat)
    returns (w: Work)
    requires ValidVersion(v) && Unique(VersionEntries(v)) && Picked(v, level, inputs0, inputs1)
    requires smallest < MAX_SEQUENCE
    ensures w.level == level && w.inputs0 == inputs0 && w.inputs1 == inputs1 && w.smallest == smallest
    ensures Worked(v, nextFile, w, nextFile + |w.outputs|) && SortedBySmallest(w.outputs)
  {
    var merged := MergeInputs(v, level, inputs0, inputs1);
    assert |v| == NUM_LEVELS;
    hide ValidVersion, Unique, VersionEntries, Picked, Sorted, SeqEntries, LevelEntries, Survivors, Flatten, Disjoint,
      SortedBySmallest, Filled;
    var work := new Compaction(level, v, grandparents);
    var outputs := work.DoCompactionWork(merged, smallest, nextFile, fileSize);
    ProducedIsNumbered(outputs, nextFile, Survivors(merged, |merged|, smallest, v, level));
    OutputsInOrder(outputs);
    w := Work(level, inputs0, inputs1, merged, smallest, outputs);
  }

  /** DoCompactionWork on picked inputs and InstallCompactionResults. */
  method Compact(st: State, level: nat, inputs0: Level, inputs1: Level, grandparents: Level,
                 fileSize: seq<Entry> -> nat)
    returns (w: Work, st': State)
    requires Inv(st) && Picked(st.version, level, inputs0, inputs1)
    ensures w.level == level && w.inputs0 == inputs0 && w.inputs1 == inputs1 && w.smallest == SmallestSnapshot(st)
    ensures Worked(st.version, st.nextFile, w, st'.nextFile)
    ensures Reshaped(st.version, level, inputs0, inputs1, w.outputs, st'.version)
    ensures Covered(st.version, w) ==> CompactStep(st, w, st')
  {
    hide Inv, ValidVersion, Numbered, Unique, VersionEntries, SmallestSnapshot, Reshaped, Covered, SortedBySmallest;
    Consequences(st);
    assert level + 1 < NUM_LEVELS;
    hide Picked, Survivors, Flatten, Sorted, SeqEntries, LevelEntries, ValidLevel;
    w := WorkOn(st.version, level, inputs0, inputs1, grandparents, SmallestSnapshot(st), st.nextFile, fileSize);
    var v' := Install(st.version, st.nextFile, w, st.nextFile + |w.outputs|);
    st' := st.(version := v', nextFile := st.nextFile + |w.outputs|);
  }

  /** DBImpl::BackgroundCompaction, once the level is decided: pick the inputs and compact them. */
  method BackgroundCompaction(
    st: State, level: nat, pointer: Option<Entry>, seekTable: Option<Table>, fileSize: seq<Entry> -> nat)
    returns (w: Work, grandparents: Level, pointer': Entry, st': State)
    requires Inv(st) && level + 1 < NUM_LEVELS && st.version[level] != []
    requires seekTable.Some? ==> seekTable.value in st.version[level]
    ensures w.level == level && w.smallest == SmallestSnapshot(st)
    ensures PickedAround(st.version, level, pointer, seekTable, w.inputs0, w.inputs1, grandparents, pointer')
    ensures Worked(st.version, st.nextFile, w, st'.nextFile)
    ensures Reshaped(st.version, w.level, w.inputs0, w.inputs1, w.outputs, st'.version)
    ensures Covered(st.version, w) ==> CompactStep(st, w, st') && Inv(st')
  {
    hide Inv, ValidVersion, Numbered, Unique, VersionEntries, SmallestSnapshot, Picked, Worked, Reshaped, Covered,
      CompactStep, FirstPast, PickedAround;
    Consequences(st);
    var inputs0, inputs1;
    inputs0, inputs1, grandparents, pointer' := PickCompaction(st.version, level, pointer, seekTable);
    w, st' := Compact(st, level, inputs0, inputs1, grandparents, fileSize);
    if Covered(st.version, w) {
      CompactKeepsInv(st, w, st');
    }
  }
}
