/**
 * The log-structured store as a state machine: writes, memtable switches, flushes,
 * table moves, compactions and snapshots (db/db_impl.cc). Each step rewrites the
 * representation; no read at or above the oldest live snapshot can tell.
 */
module Database {
  import opened Bytewise
  import opened InternalKeys
  import opened Lookups
  import opened Options
  import opened Versions
  import opened VersionBuilder
  import opened Picking
  import opened Compactions
  import opened LevelEdits
  import TrivialMoves

  datatype Op = Put(user: UserKey, value: Bytes) | Delete(user: UserKey)

  datatype State = State(
    mem: seq<Entry>,
    imm: Option<seq<Entry>>,
    version: Version,
    lastSequence: nat,
    snapshots: seq<nat>,
    nextFile: nat)  // every installed table has a smaller file number

  function Imm(st: State): seq<Entry> {
    if st.imm.Some? then st.imm.value else []
  }

  ghost function Entries(st: State): iset<Entry> {
    SeqEntries(st.mem) + SeqEntries(Imm(st)) + VersionEntries(st.version)
  }

  /** The smallest sequence number any reader may still use (DoCompactionWork). */
  function SmallestSnapshot(st: State): nat {
    if st.snapshots == [] then st.lastSequence else st.snapshots[0]
  }

  /** Memtable over immutable memtable over tables: each newer than what lies below it. */
  ghost predicate Ordered(m: iset<Entry>, i: iset<Entry>, v: iset<Entry>, last: nat) {
    && Newer(m, i + v)
    && Newer(i, v)
    && Unique(m + i + v)
    && forall e :: e in m + i + v ==> e.seqno <= last
  }

  ghost predicate ValidSnapshots(snapshots: seq<nat>, last: nat) {
    forall i, j :: 0 <= i <= j < |snapshots| ==> snapshots[i] <= snapshots[j] <= last
  }

  ghost predicate Inv(st: State) {
    && ValidVersion(st.version)
    && Numbered(st.version, st.nextFile)
    && Sorted(st.mem) && Sorted(Imm(st))
    && Ordered(SeqEntries(st.mem), SeqEntries(Imm(st)), VersionEntries(st.version), st.lastSequence)
    && st.lastSequence < MAX_SEQUENCE
    && ValidSnapshots(st.snapshots, st.lastSequence)
  }

  /** The store reads as the set of everything ever written, at every live snapshot. */
  ghost predicate Reads(st: State, written: iset<Entry>) {
    && Unique(written)
    && Entries(st) <= written
    && (forall e :: e in written ==> e.seqno <= st.lastSequence)
    && forall user, snapshot :: SmallestSnapshot(st) <= snapshot ==>
         Read(Entries(st), user, snapshot) == Read(written, user, snapshot)
  }

  /** DBImpl::Get: memtable, then immutable memtable, then the version. */
  method Get(st: State, user: UserKey, snapshot: nat) returns (r: Option<Bytes>)
    requires Inv(st)
    ensures r == Read(Entries(st), user, snapshot)
  {
    var found := SeekGet(st.mem, user, snapshot);
    SeekGetNewest(st.mem, user, snapshot);
    var older := None;
    if found.None? {
      older := SeekGet(Imm(st), user, snapshot);
    }
    SeekGetNewest(Imm(st), user, snapshot);
    var tables := None;
    if found.None? && older.None? {
      tables := Versions.Get(st.version, user, snapshot);
    }
    r := Outcome(if found.Some? then found else if older.Some? then older else tables);
    GetIsNewest(st, user, snapshot, found, if found.None? then older else SeekGet(Imm(st), user, snapshot), tables);
  }

  lemma GetIsNewest(st: State, user: UserKey, snapshot: nat, a: Option<Entry>, b: Option<Entry>, c: Option<Entry>)
    requires Inv(st)
    requires IsNewest(SeqEntries(st.mem), user, snapshot, a)
    requires IsNewest(SeqEntries(Imm(st)), user, snapshot, b)
    requires a.None? && b.None? ==> IsNewest(VersionEntries(st.version), user, snapshot, c)
    ensures (if a.Some? then a else if b.Some? then b else c) == Newest(Entries(st), user, snapshot)
  {
    var m, i, v := SeqEntries(st.mem), SeqEntries(Imm(st)), VersionEntries(st.version);
    var c' := if a.None? && b.None? then c else Newest(v, user, snapshot);
    NewestFirst(i, v, user, snapshot, b, c');
    NewestFirst(m, i + v, user, snapshot, a, if b.Some? then b else c');
    assert m + (i + v) == Entries(st);
    NewestIsUnique(Entries(st), user, snapshot, if a.Some? then a else if b.Some? then b else c',
                   Newest(Entries(st), user, snapshot));
  }

  // ---------------------------------------------------------------- writes

  function NewEntry(op: Op, seqno: nat): Entry {
    match op
    case Put(user, value) => Entry(user, seqno, Value, value)
    case Delete(user) => Entry(user, seqno, Deletion, [])
  }

  /** MemTableInserter: the operations of a batch take consecutive sequence numbers. */
  function BatchEntries(batch: seq<Op>, first: nat): (r: seq<Entry>)
    ensures |r| == |batch| && forall i :: 0 <= i < |r| ==> r[i].seqno == first + i
  {
    seq(|batch|, i requires 0 <= i < |batch| => NewEntry(batch[i], first + i))
  }

  /** MemTable::Add: insert in internal-key order. */
  function Insert(es: seq<Entry>, e: Entry): seq<Entry> {
    if es == [] || Before(e, es[0]) then [e] + es else [es[0]] + Insert(es[1..], e)
  }

  lemma {:induction false} InsertSorted(es: seq<Entry>, e: Entry)
    requires Sorted(es)
    requires forall x :: x in es ==> Before(x, e) || Before(e, x)
    ensures Sorted(Insert(es, e))
    ensures forall x :: x in Insert(es, e) <==> x in es || x == e
  {
    if es != [] && !Before(e, es[0]) {
      InsertSorted(es[1..], e);
      var rest := Insert(es[1..], e);
      forall j | 0 <= j < |rest| ensures Before(es[0], rest[j]) {
        assert rest[j] in rest;
        if rest[j] != e {
          var i :| 1 <= i < |es| && es[i] == rest[j];
        }
      }
    }
  }

  function InsertAll(mem: seq<Entry>, es: seq<Entry>): seq<Entry> {
    if es == [] then mem else Insert(InsertAll(mem, es[..|es| - 1]), es[|es| - 1])
  }

  ghost predicate Ascending(es: seq<Entry>) {
    forall i, j :: 0 <= i < j < |es| ==> es[i].seqno < es[j].seqno
  }

  ghost predicate Below(a: iset<Entry>, b: iset<Entry>) {
    forall x, y :: x in a && y in b ==> x.seqno < y.seqno
  }

  /** Inserting ascending entries newer than the memtable keeps it sorted and adds exactly them. */
  lemma {:induction false} InsertAllSorted(mem: seq<Entry>, es: seq<Entry>)
    requires Sorted(mem) && Ascending(es) && Below(SeqEntries(mem), SeqEntries(es))
    ensures Sorted(InsertAll(mem, es))
    ensures SeqEntries(InsertAll(mem, es)) == SeqEntries(mem) + SeqEntries(es)
  {
    if es == [] {
      assert SeqEntries(es) == iset{};
    } else {
      var init, e := es[..|es| - 1], es[|es| - 1];
      LastIsNewest(mem, es);
      hide Sorted, Ascending, Below, SeqEntries;
      InsertAllSorted(mem, init);
      InsertLast(InsertAll(mem, init), SeqEntries(mem) + SeqEntries(init), e);
    }
  }

  lemma LastIsNewest(mem: seq<Entry>, es: seq<Entry>)
    requires es != [] && Ascending(es) && Below(SeqEntries(mem), SeqEntries(es))
    ensures var init, e := es[..|es| - 1], es[|es| - 1];
      && Ascending(init) && Below(SeqEntries(mem), SeqEntries(init))
      && SeqEntries(mem) + SeqEntries(init) + iset{e} == SeqEntries(mem) + SeqEntries(es)
      && forall x :: x in SeqEntries(mem) + SeqEntries(init) ==> x.seqno < e.seqno
  {
    var init, e := es[..|es| - 1], es[|es| - 1];
    assert es == init + [e] && e in SeqEntries(es);
    assert SeqEntries(es) == SeqEntries(init) + iset{e};
  }

  lemma InsertLast(r: seq<Entry>, es: iset<Entry>, e: Entry)
    requires Sorted(r) && SeqEntries(r) == es && forall x :: x in es ==> x.seqno < e.seqno
    ensures Sorted(Insert(r, e)) && SeqEntries(Insert(r, e)) == es + iset{e}
  {
    assert forall x :: x in r ==> x in es;
    InsertSorted(r, e);
  }

  /** The new memtable is the sorted sequence of the old entries and the batch's. */
  ghost predicate WriteStep(st: State, batch: seq<Op>, st': State) {
    && st.lastSequence + |batch| < MAX_SEQUENCE
    && st' == st.(mem := st'.mem, lastSequence := st.lastSequence + |batch|)
    && Sorted(st'.mem)
    && SeqEntries(st'.mem) == SeqEntries(st.mem) + SeqEntries(BatchEntries(batch, st.lastSequence + 1))
  }

  /** New entries above every sequence number keep the order of the parts. */
  lemma WriteOrders(m: iset<Entry>, i: iset<Entry>, v: iset<Entry>, es: iset<Entry>, last: nat, last': nat)
    requires Ordered(m, i, v, last) && Unique(es)
    requires forall e :: e in es ==> last < e.seqno <= last'
    requires last <= last'
    ensures Ordered(m + es, i, v, last')
    ensures m + es + i + v == m + i + v + es
  {
  }

  lemma MemGrows(st: State, mem: seq<Entry>, es: iset<Entry>, last: nat)
    requires Inv(st) && Sorted(mem) && SeqEntries(mem) == SeqEntries(st.mem) + es && Unique(es)
    requires forall e :: e in es ==> st.lastSequence < e.seqno <= last
    requires st.lastSequence <= last < MAX_SEQUENCE
    ensures Inv(st.(mem := mem, lastSequence := last))
    ensures Entries(st.(mem := mem, lastSequence := last)) == Entries(st) + es
  {
    var m, i, v := SeqEntries(st.mem), SeqEntries(Imm(st)), VersionEntries(st.version);
    WriteOrders(m, i, v, es, st.lastSequence, last);
  }

  /** Inserting a batch one entry at a time takes the write step. */
  lemma InsertingWrites(st: State, batch: seq<Op>)
    requires Inv(st) && st.lastSequence + |batch| < MAX_SEQUENCE
    ensures WriteStep(st, batch, st.(mem := InsertAll(st.mem, BatchEntries(batch, st.lastSequence + 1)),
                                     lastSequence := st.lastSequence + |batch|))
  {
    assert SeqEntries(st.mem) <= Entries(st);
    InsertAllSorted(st.mem, BatchEntries(batch, st.lastSequence + 1));
  }

  lemma BatchFresh(batch: seq<Op>, last: nat)
    ensures Unique(SeqEntries(BatchEntries(batch, last + 1)))
    ensures forall e :: e in SeqEntries(BatchEntries(batch, last + 1)) ==> last < e.seqno <= last + |batch|
  {
  }

  lemma WriteKeepsInv(st: State, batch: seq<Op>, st': State)
    requires Inv(st) && WriteStep(st, batch, st')
    ensures Inv(st')
    ensures Entries(st') == Entries(st) + SeqEntries(BatchEntries(batch, st.lastSequence + 1))
  {
    BatchFresh(batch, st.lastSequence);
    MemGrows(st, st'.mem, SeqEntries(BatchEntries(batch, st.lastSequence + 1)), st'.lastSequence);
  }

  /** Entries newer than everything shift two stores that read alike to two that read alike. */
  lemma NewerWritesReadAlike(a: iset<Entry>, b: iset<Entry>, es: iset<Entry>, last: nat, user: UserKey, snapshot: nat)
    requires Unique(a + es) && Unique(b + es)
    requires forall e :: e in a || e in b ==> e.seqno <= last
    requires forall e :: e in es ==> e.seqno > last
    requires Read(a, user, snapshot) == Read(b, user, snapshot)
    ensures Read(a + es, user, snapshot) == Read(b + es, user, snapshot)
  {
    var n := Newest(es, user, snapshot);
    NewestFirst(es, a, user, snapshot, n, Newest(a, user, snapshot));
    NewestFirst(es, b, user, snapshot, n, Newest(b, user, snapshot));
    assert es + a == a + es && es + b == b + es;
    NewestIsUnique(a + es, user, snapshot, Newest(a + es, user, snapshot),
                   if n.Some? then n else Newest(a, user, snapshot));
    NewestIsUnique(b + es, user, snapshot, Newest(b + es, user, snapshot),
                   if n.Some? then n else Newest(b, user, snapshot));
  }

  lemma WriteKeepsReads(st: State, batch: seq<Op>, st': State, written: iset<Entry>)
    requires Inv(st) && WriteStep(st, batch, st') && Reads(st, written)
    ensures Reads(st', written + SeqEntries(BatchEntries(batch, st.lastSequence + 1)))
  {
    var es := SeqEntries(BatchEntries(batch, st.lastSequence + 1));
    BatchFresh(batch, st.lastSequence);
    WriteKeepsInv(st, batch, st');
    WrittenUnique(written, es, st.lastSequence);
    WrittenUnique(Entries(st), es, st.lastSequence);
    forall user, snapshot | SmallestSnapshot(st') <= snapshot
      ensures Read(Entries(st'), user, snapshot) == Read(written + es, user, snapshot)
    {
      NewerWritesReadAlike(Entries(st), written, es, st.lastSequence, user, snapshot);
    }
  }

  lemma WrittenUnique(a: iset<Entry>, es: iset<Entry>, last: nat)
    requires Unique(a) && Unique(es)
    requires (forall e :: e in a ==> e.seqno <= last) && (forall e :: e in es ==> e.seqno > last)
    ensures Unique(a + es)
  {
  }

  // ---------------------------------------------------------------- memtable switch and flush

  /** MakeRoomForWrite: the full memtable becomes the immutable one. */
  ghost predicate SwitchStep(st: State, st': State) {
    st.imm.None? && st' == st.(mem := [], imm := Some(st.mem))
  }

  lemma SwitchKeepsInv(st: State, st': State)
    requires Inv(st) && SwitchStep(st, st')
    ensures Inv(st') && Entries(st') == Entries(st)
  {
    var m, v := SeqEntries(st.mem), VersionEntries(st.version);
    var none := SeqEntries([]);
    assert Ordered(none, m, v, st.lastSequence);
    assert none + m + v == m + none + v;
  }

  function TableOf(number: nat, size: nat, es: seq<Entry>): Table
    requires es != []
  {
    Table(number, size, es[0], es[|es| - 1], es)
  }

  /** CompactMemTable: an empty memtable installs no table. */
  ghost predicate FlushStep(st: State, level: nat, number: nat, size: nat, st': State) {
    && st.imm.Some?
    && st.nextFile <= number < st'.nextFile
    && st' == st.(imm := None, version := st'.version, nextFile := st'.nextFile)
    && if st.imm.value == [] then st'.version == st.version
       else FlushInstalls(st.version, level, TableOf(number, size, st.imm.value), st'.version)
  }

  ghost predicate FlushInstalls(v: Version, level: nat, t: Table, v': Version) {
    FlushLevel(v, level, t.smallest.user, t.largest.user) && Flushed(v, level, t, v')
  }

  lemma FlushOrders(m: iset<Entry>, i: iset<Entry>, v: iset<Entry>, last: nat)
    requires Ordered(m, i, v, last)
    ensures Ordered(m, iset{}, v + i, last) && Newer(i, v)
    ensures m + iset{} + (v + i) == m + i + v
  {
  }

  lemma FlushedVersion(v: Version, nextFile: nat, level: nat, t: Table, v': Version)
    requires ValidVersion(v) && Numbered(v, nextFile) && ValidTable(t) && t.number >= nextFile
    requires Newer(SeqEntries(t.entries), VersionEntries(v))
    requires FlushLevel(v, level, t.smallest.user, t.largest.user) && Flushed(v, level, t, v')
    ensures ValidVersion(v') && Numbered(v', t.number + 1)
    ensures VersionEntries(v') == VersionEntries(v) + SeqEntries(t.entries)
  {
    FlushedValid(v, nextFile, level, t, v');
    FlushedNumbered(v, nextFile, level, t, v');
    FlushedEntries(v, level, t, v');
  }

  /** Installing a valid version that holds no entry the old one lacks keeps the invariant. */
  lemma Installed(st: State, v': Version, nextFile: nat)
    requires Inv(st) && ValidVersion(v') && Numbered(v', nextFile)
    requires VersionEntries(v') <= VersionEntries(st.version)
    ensures Inv(st.(version := v', nextFile := nextFile))
    ensures Entries(st.(version := v', nextFile := nextFile)) ==
              SeqEntries(st.mem) + SeqEntries(Imm(st)) + VersionEntries(v')
  {
    ShrinkOrders(SeqEntries(st.mem), SeqEntries(Imm(st)), VersionEntries(st.version), VersionEntries(v'),
                 st.lastSequence);
  }

  /** Installing a valid version that takes over the immutable memtable keeps the invariant. */
  lemma FlushInstalled(st: State, v': Version, nextFile: nat)
    requires Inv(st) && ValidVersion(v') && Numbered(v', nextFile)
    requires VersionEntries(v') == VersionEntries(st.version) + SeqEntries(Imm(st))
    ensures Inv(st.(imm := None, version := v', nextFile := nextFile))
    ensures Entries(st.(imm := None, version := v', nextFile := nextFile)) == Entries(st)
  {
    FlushOrders(SeqEntries(st.mem), SeqEntries(Imm(st)), VersionEntries(st.version), st.lastSequence);
    assert SeqEntries([]) == iset{};
  }

  lemma NumberedMonotone(v: Version, nextFile: nat, nextFile': nat)
    requires Numbered(v, nextFile) && nextFile <= nextFile'
    ensures Numbered(v, nextFile')
  {
  }

  lemma FlushKeepsInv(st: State, level: nat, number: nat, size: nat, st': State)
    requires Inv(st) && FlushStep(st, level, number, size, st')
    ensures Inv(st') && Entries(st') == Entries(st)
  {
    hide ValidVersion, Numbered, Ordered, Closed, Reshaped, ValidLevel, Flatten, NumberedFrom, Sorted, SeqEntries,
      VersionEntries, LevelEntries, Survivors, Untouched, ValidSnapshots;
    if st.imm.value == [] {
      NoEntries(VersionEntries(st.version), Imm(st));
      NumberedMonotone(st.version, st.nextFile, st'.nextFile);
      FlushInstalled(st, st'.version, st'.nextFile);
    } else {
      FlushOrders(SeqEntries(st.mem), SeqEntries(Imm(st)), VersionEntries(st.version), st.lastSequence);
      FlushedVersion(st.version, st.nextFile, level, TableOf(number, size, st.imm.value), st'.version);
      NumberedMonotone(st'.version, number + 1, st'.nextFile);
      FlushInstalled(st, st'.version, st'.nextFile);
    }
  }

  lemma NoEntries(v: iset<Entry>, es: seq<Entry>)
    requires es == []
    ensures v == v + SeqEntries(es)
  {
  }

  // ---------------------------------------------------------------- moves and compactions

  /** BackgroundCompaction: a single table with nothing below it moves down as it is. */
  ghost predicate MoveStep(st: State, level: nat, f: Table, st': State) {
    && st' == st.(version := st'.version)
    && Closed(st.version, level, [f], [])
    && Reshaped(st.version, level, [f], [], [f], st'.version)
  }

  /**
   * A compaction: its inputs, their merged entries, the smallest snapshot that was live
   * when its work began, and its outputs.
   */
  datatype Work = Work(level: nat, inputs0: Level, inputs1: Level, merged: seq<Entry>, smallest: nat, outputs: Level)

  /** The inputs as the code picks them, merged, and the outputs as the loop makes them. */
  ghost predicate Worked(v: Version, nextFile: nat, w: Work, nextFile': nat) {
    && Picked(v, w.level, w.inputs0, w.inputs1)
    && Sorted(w.merged) && SeqEntries(w.merged) == LevelEntries(w.inputs0 + w.inputs1)
    && ValidLevel(w.outputs) && Flatten(w.outputs) == Survivors(w.merged, |w.merged|, w.smallest, v, w.level)
    && NumberedFrom(w.outputs, nextFile, nextFile')
  }

  /** Neither an older version left in the level nor one left beside a dropped tombstone comes to light. */
  ghost predicate Covered(v: Version, w: Work) {
    && Closed(v, w.level, w.inputs0, w.inputs1)
    && TombstonesStay(v, w.level, w.inputs1, SeqEntries(w.merged), w.smallest)
  }

  /**
   * DoCompactionWork and InstallCompactionResults. Snapshots may be released while the
   * work is going on, so its smallest snapshot may be below the present one.
   */
  ghost predicate CompactStep(st: State, w: Work, st': State) {
    && st' == st.(version := st'.version, nextFile := st'.nextFile)
    && w.smallest <= SmallestSnapshot(st)
    && Worked(st.version, st.nextFile, w, st'.nextFile)
    && Covered(st.version, w)
    && Reshaped(st.version, w.level, w.inputs0, w.inputs1, w.outputs, st'.version)
  }

  lemma ShrinkOrders(m: iset<Entry>, i: iset<Entry>, v: iset<Entry>, v': iset<Entry>, last: nat)
    requires Ordered(m, i, v, last) && v' <= v
    ensures Ordered(m, i, v', last)
    ensures Unique(v)
  {
  }

  lemma MoveKeepsInv(st: State, level: nat, f: Table, st': State)
    requires Inv(st) && MoveStep(st, level, f, st')
    ensures Inv(st') && Entries(st') == Entries(st)
  {
    ShrinkOrders(SeqEntries(st.mem), SeqEntries(Imm(st)), VersionEntries(st.version), VersionEntries(st.version),
                 st.lastSequence);
    TrivialMoves.MovedVersion(st.version, st.nextFile, level, f, st'.version);
    Installed(st, st'.version, st.nextFile);
  }

  lemma PiecesOf(outputs: Level, kept: seq<Entry>)
    requires ValidLevel(outputs) && Flatten(outputs) == kept && Sorted(kept)
    ensures Disjoint(outputs) && LevelEntries(outputs) == SeqEntries(kept)
  {
    FlattenDisjoint(outputs);
    FlattenMembers(outputs);
  }

  lemma FreshOutputs(v: Version, nextFile: nat, level: nat, inputs0: Level, inputs1: Level, outputs: Level,
                     nextFile': nat)
    requires Numbered(v, nextFile) && Picked(v, level, inputs0, inputs1)
    requires NumberedFrom(outputs, nextFile, nextFile')
    ensures FreshNumbers(v, level, outputs, inputs1)
  {
    assert forall t :: t in inputs1 ==> t in v[level + 1];
  }

  lemma KeptAreChosen(es: seq<Entry>, smallest: nat, v: Version, level: nat)
    ensures SeqEntries(Survivors(es, |es|, smallest, v, level)) <= SeqEntries(es)
  {
    SurvivorsMembers(es, |es|, smallest, v, level);
  }

  /** The outputs hold exactly the surviving entries, under numbers no table has. */
  lemma OutputsFresh(v: Version, nextFile: nat, level: nat, inputs0: Level, inputs1: Level, es: seq<Entry>,
                     smallest: nat,
                     outputs: Level, nextFile': nat)
    requires Numbered(v, nextFile) && Picked(v, level, inputs0, inputs1)
    requires Sorted(es) && SeqEntries(es) == LevelEntries(inputs0 + inputs1)
    requires ValidLevel(outputs) && Flatten(outputs) == Survivors(es, |es|, smallest, v, level)
    requires NumberedFrom(outputs, nextFile, nextFile')
    ensures Disjoint(outputs) && FreshNumbers(v, level, outputs, inputs1)
    ensures LevelEntries(outputs) == SeqEntries(Survivors(es, |es|, smallest, v, level))
    ensures LevelEntries(outputs) <= LevelEntries(inputs0 + inputs1)
  {
    hide Numbered, Picked, Sorted, ValidLevel, Flatten, Survivors, NumberedFrom, FreshNumbers, SeqEntries, LevelEntries;
    SurvivorsSorted(es, |es|, smallest, v, level);
    PiecesOf(outputs, Survivors(es, |es|, smallest, v, level));
    FreshOutputs(v, nextFile, level, inputs0, inputs1, outputs, nextFile');
    KeptAreChosen(es, smallest, v, level);
  }

  ghost function KeptEntries(v: Version, w: Work): iset<Entry> {
    SeqEntries(Survivors(w.merged, |w.merged|, w.smallest, v, w.level))
  }

  lemma CompactedVersion(v: Version, nextFile: nat, w: Work, nextFile': nat, v': Version)
    requires ValidVersion(v) && Numbered(v, nextFile) && Unique(VersionEntries(v))
    requires Worked(v, nextFile, w, nextFile') && Closed(v, w.level, w.inputs0, w.inputs1)
    requires Reshaped(v, w.level, w.inputs0, w.inputs1, w.outputs, v')
    ensures ValidVersion(v') && Numbered(v', nextFile')
    ensures VersionEntries(v) == SeqEntries(w.merged) + Untouched(v, w.level, w.inputs0, w.inputs1)
    ensures VersionEntries(v') == KeptEntries(v, w) + Untouched(v, w.level, w.inputs0, w.inputs1)
    ensures KeptEntries(v, w) <= SeqEntries(w.merged)
    ensures VersionEntries(v') <= VersionEntries(v)
  {
    OutputsFresh(v, nextFile, w.level, w.inputs0, w.inputs1, w.merged, w.smallest, w.outputs, nextFile');
    ReshapedValid(v, nextFile, w.level, w.inputs0, w.inputs1, w.outputs, v');
    ReshapedEntries(v, nextFile, w.level, w.inputs0, w.inputs1, w.outputs, v');
    CompactedNumbered(v, nextFile, w.level, w.inputs0, w.inputs1, w.outputs, nextFile', v');
  }

  /** The numbers DoCompactionWork hands out are fresh and increasing. */
  lemma ProducedIsNumbered(outputs: Level, nextFile: nat, es: seq<Entry>)
    requires Produced(outputs, [], nextFile, es)
    ensures ValidLevel(outputs) && Flatten(outputs) == es && NumberedFrom(outputs, nextFile, nextFile + |outputs|)
  {
  }

  lemma CompactVersionOk(st: State, w: Work, st': State)
    requires Inv(st) && CompactStep(st, w, st')
    ensures ValidVersion(st'.version) && Numbered(st'.version, st'.nextFile)
    ensures VersionEntries(st'.version) <= VersionEntries(st.version)
  {
    hide ValidVersion, Numbered, Ordered, Closed, Reshaped, Worked, SeqEntries, VersionEntries, KeptEntries, Untouched,
      TombstonesStay, ValidSnapshots;
    ShrinkOrders(SeqEntries(st.mem), SeqEntries(Imm(st)), VersionEntries(st.version), VersionEntries(st.version),
                 st.lastSequence);
    CompactedVersion(st.version, st.nextFile, w, st'.nextFile, st'.version);
  }

  lemma CompactKeepsInv(st: State, w: Work, st': State)
    requires Inv(st) && CompactStep(st, w, st')
    ensures Inv(st')
  {
    hide ValidVersion, Numbered, Ordered, Covered, Reshaped, Worked, SeqEntries, VersionEntries, ValidSnapshots;
    CompactVersionOk(st, w, st');
    ShrinkOrders(SeqEntries(st.mem), SeqEntries(Imm(st)), VersionEntries(st.version), VersionEntries(st'.version),
                 st.lastSequence);
  }

  // ---------------------------------------------------------------- reads across a compaction

  /** The entries in levels two or more below the compacted one. */
  ghost function Deeper(v: Version, level: nat): iset<Entry> {
    iset e, l | level + 2 <= l < |v| && e in LevelEntries(v[l]) :: e
  }

  /** A base-level key has no entry in the deeper levels. */
  lemma BaseHasNothingDeeper(v: Version, level: nat, user: UserKey)
    requires ValidVersion(v) && IsBase(v, level, user)
    ensures forall x :: x in Deeper(v, level) ==> x.user != user
  {
    forall x | x in Deeper(v, level) ensures x.user != user {
      var l :| level + 2 <= l < |v| && x in LevelEntries(v[l]);
      var t :| t in v[l] && x in t.entries;
      EntryInBounds(t, x);
    }
  }

  /** Nothing older remains of the key of a tombstone that is dropped unhidden. */
  lemma TombstoneRule(v: Version, level: nat, inputs1: Level, chosen: iset<Entry>, e: Entry, smallest: nat,
                      near: iset<Entry>)
    requires ValidVersion(v) && level + 1 < |v| && Newer(near, chosen) && e in chosen
    requires TombstonesStay(v, level, inputs1, chosen, smallest)
    requires ObsoleteTombstone(e, smallest, v, level) && !HiddenIn(chosen, e, smallest)
    ensures forall x :: x in near + Unchosen(v[level + 1], inputs1) + Deeper(v, level) && x.user == e.user ==>
        x.seqno > e.seqno
  {
    BaseHasNothingDeeper(v, level, e.user);
    hide ValidVersion, IsBase, Unchosen, Deeper, HiddenIn;
    forall x | x in Unchosen(v[level + 1], inputs1) && x.user == e.user ensures x.seqno > e.seqno {
      assert LostBeside(v, level, e, x, smallest) <==> x.seqno <= e.seqno;
    }
  }

  lemma DroppedRule(v: Version, level: nat, inputs1: Level, es: seq<Entry>, i: nat, smallest: nat, near: iset<Entry>)
    requires ValidVersion(v) && level + 1 < |v| && Sorted(es) && Unique(SeqEntries(es)) && Newer(near, SeqEntries(es))
    requires TombstonesStay(v, level, inputs1, SeqEntries(es), smallest)
    requires i < |es| && !Kept(es, i, smallest, v, level)
    ensures Droppable(SeqEntries(es), near + Unchosen(v[level + 1], inputs1) + Deeper(v, level), smallest, es[i])
  {
    hide ValidVersion, TombstonesStay, Newer, Unchosen, Deeper, ObsoleteTombstone;
    assert es[i] in SeqEntries(es);
    if Hidden(es, i, smallest) {
      HiddenByChosen(es, i, smallest);
    } else if !HiddenIn(SeqEntries(es), es[i], smallest) {
      IsTombstone(es[i], smallest, v, level);
      TombstoneRule(v, level, inputs1, SeqEntries(es), es[i], smallest, near);
    }
  }

  lemma IsTombstone(e: Entry, smallest: nat, v: Version, level: nat)
    requires ObsoleteTombstone(e, smallest, v, level)
    ensures e.kind == Deletion && e.seqno <= smallest
  {
  }

  lemma HiddenByChosen(es: seq<Entry>, i: nat, smallest: nat)
    requires Sorted(es) && Unique(SeqEntries(es)) && i < |es| && Hidden(es, i, smallest)
    ensures HiddenIn(SeqEntries(es), es[i], smallest)
  {
    var j :| 0 <= j < i && es[j].user == es[i].user && es[j].seqno <= smallest;
    assert es[j] in SeqEntries(es) && Before(es[j], es[i]);
  }

  lemma KeptRule(v: Version, level: nat, es: seq<Entry>, i: nat, j: nat, smallest: nat)
    requires Sorted(es) && i < |es| && j < |es| && Kept(es, i, smallest, v, level)
    requires es[j].user == es[i].user && es[i].seqno < es[j].seqno
    ensures es[j].seqno > smallest
  {
  }

  /** The loop's drop rules, restated on the sets of chosen, kept and remaining entries. */
  lemma DropRules(v: Version, level: nat, inputs1: Level, es: seq<Entry>, kept: iset<Entry>, smallest: nat,
                  near: iset<Entry>)
    requires ValidVersion(v) && level + 1 < |v| && Sorted(es) && Unique(SeqEntries(es)) && Newer(near, SeqEntries(es))
    requires TombstonesStay(v, level, inputs1, SeqEntries(es), smallest)
    requires kept == SeqEntries(Survivors(es, |es|, smallest, v, level))
    ensures ValidDrop(SeqEntries(es), kept, near + Unchosen(v[level + 1], inputs1) + Deeper(v, level), smallest)
  {
    hide ValidVersion, Sorted, Unique, Newer, Droppable, Kept, Survivors, Deeper, TombstonesStay, Unchosen;
    SurvivorsMembers(es, |es|, smallest, v, level);
    forall e | e in SeqEntries(es) && e !in kept
      ensures Droppable(SeqEntries(es), near + Unchosen(v[level + 1], inputs1) + Deeper(v, level), smallest, e)
    {
      var i :| 0 <= i < |es| && es[i] == e;
      DroppedRule(v, level, inputs1, es, i, smallest, near);
    }
    forall e, x | e in kept && x in SeqEntries(es) && x.user == e.user && e.seqno < x.seqno ensures x.seqno > smallest {
      var i :| 0 <= i < |es| && es[i] == e && Kept(es, i, smallest, v, level);
      var j :| 0 <= j < |es| && es[j] == x;
      KeptRule(v, level, es, i, j, smallest);
    }
  }

  /** What a compaction leaves in place is newer than its inputs, beside them in the next level, or deeper. */
  lemma UntouchedIsNewerOrDeeper(v: Version, level: nat, inputs0: Level, inputs1: Level, es: seq<Entry>)
    requires ValidVersion(v) && Unique(VersionEntries(v)) && Closed(v, level, inputs0, inputs1)
    requires SeqEntries(es) == LevelEntries(inputs0 + inputs1)
    ensures Newer(Shallower(v, level) + Unchosen(v[level], inputs0), SeqEntries(es))
    ensures Untouched(v, level, inputs0, inputs1) ==
      Shallower(v, level) + Unchosen(v[level], inputs0) + Unchosen(v[level + 1], inputs1) + Deeper(v, level)
  {
    var chosen, upper, lower := SeqEntries(es), Unchosen(v[level], inputs0), Unchosen(v[level + 1], inputs1);
    PickedLeavesNewer(v, level, inputs0, inputs1);
    ChosenFromLevels(v[level], v[level + 1], inputs0, inputs1);
    ShallowerIsNewer(v, level, chosen);
    ElsewhereSplits(v, level);
    hide ValidVersion, Closed, Unique, Shallower, Deeper, Unchosen, LevelEntries, SeqEntries, Elsewhere;
    NewerParts(Shallower(v, level), upper, lower, Deeper(v, level), chosen);
  }

  lemma NewerParts(a: iset<Entry>, b: iset<Entry>, c: iset<Entry>, d: iset<Entry>, chosen: iset<Entry>)
    ensures Newer(a, chosen) && Newer(b, chosen) ==> Newer(a + b, chosen)
    ensures a + d + (b + c) == a + b + c + d
  {
  }

  ghost function Shallower(v: Version, level: nat): iset<Entry> {
    iset e, l | 0 <= l < level && l < |v| && e in LevelEntries(v[l]) :: e
  }

  lemma ElsewhereSplits(v: Version, level: nat)
    ensures Elsewhere(v, level) == Shallower(v, level) + Deeper(v, level)
  {
  }

  lemma ShallowerIsNewer(v: Version, level: nat, chosen: iset<Entry>)
    requires LevelsOrdered(v) && level + 1 < |v| && chosen <= LevelEntries(v[level]) + LevelEntries(v[level + 1])
    ensures Newer(Shallower(v, level), chosen)
  {
    forall x, y | x in Shallower(v, level) && y in chosen && x.user == y.user ensures x.seqno > y.seqno {
      var l :| 0 <= l < level && x in LevelEntries(v[l]);
      assert Newer(LevelEntries(v[l]), LevelEntries(v[level]));
      assert Newer(LevelEntries(v[l]), LevelEntries(v[level + 1]));
    }
  }

  /** A covered compaction changes no read at or above the smallest snapshot. */
  lemma CompactionKeepsReads(m: iset<Entry>, v: Version, w: Work, user: UserKey, snapshot: nat)
    requires |v| == NUM_LEVELS && w.level + 1 < NUM_LEVELS
    requires ValidVersion(v) && Covered(v, w)
    requires Sorted(w.merged) && SeqEntries(w.merged) == LevelEntries(w.inputs0 + w.inputs1)
    requires VersionEntries(v) == SeqEntries(w.merged) + Untouched(v, w.level, w.inputs0, w.inputs1)
    requires Newer(m, VersionEntries(v)) && Unique(m + VersionEntries(v)) && Unique(VersionEntries(v))
    requires w.smallest <= snapshot
    ensures Read(m + (KeptEntries(v, w) + Untouched(v, w.level, w.inputs0, w.inputs1)), user, snapshot)
            == Read(m + VersionEntries(v), user, snapshot)
  {
    hide ValidVersion, Closed, Sorted, VersionEntries, LevelEntries, Shallower, Deeper, Unchosen, SeqEntries, Untouched,
      Read, ValidDrop, Newer, Unique, Survivors, TombstonesStay;
    var chosen, kept := SeqEntries(w.merged), KeptEntries(v, w);
    var near, beside := Shallower(v, w.level) + Unchosen(v[w.level], w.inputs0), Unchosen(v[w.level + 1], w.inputs1);
    var untouched, deeper := Untouched(v, w.level, w.inputs0, w.inputs1), Deeper(v, w.level);
    UntouchedIsNewerOrDeeper(v, w.level, w.inputs0, w.inputs1, w.merged);
    JoinNewer(m, near, chosen, untouched);
    DropRules(v, w.level, w.inputs1, w.merged, kept, w.smallest, m + near);
    Rearranged(m, near, beside, deeper, chosen);
    Rearranged(m, near, beside, deeper, kept);
    DroppingKeepsReads(chosen, kept, m + untouched, w.smallest, user, snapshot);
  }

  lemma Rearranged(m: iset<Entry>, near: iset<Entry>, beside: iset<Entry>, deeper: iset<Entry>, c: iset<Entry>)
    ensures m + near + beside + deeper == m + (near + beside + deeper)
    ensures c + (m + (near + beside + deeper)) == m + (c + (near + beside + deeper))
  {
  }

  lemma JoinNewer(m: iset<Entry>, near: iset<Entry>, chosen: iset<Entry>, untouched: iset<Entry>)
    requires Newer(m, chosen + untouched) && Newer(near, chosen) && Unique(m + (chosen + untouched))
    ensures Newer(m + near, chosen) && Unique(chosen) && Unique(chosen + (m + untouched))
  {
  }

  lemma CompactKeepsReads(st: State, w: Work, st': State, user: UserKey, snapshot: nat)
    requires Inv(st) && CompactStep(st, w, st')
    requires SmallestSnapshot(st) <= snapshot
    ensures Read(Entries(st'), user, snapshot) == Read(Entries(st), user, snapshot)
  {
    hide ValidVersion, Numbered, Ordered, Closed, Reshaped, Worked, TombstonesStay, Sorted, SeqEntries, VersionEntries,
      LevelEntries, KeptEntries, Untouched, ValidSnapshots, Newer, Unique, Read;
    var m, i, v := SeqEntries(st.mem), SeqEntries(Imm(st)), VersionEntries(st.version);
    ShrinkOrders(m, i, v, v, st.lastSequence);
    OrderedParts(m, i, v, st.lastSequence);
    CompactedVersion(st.version, st.nextFile, w, st'.nextFile, st'.version);
    WorkInRange(st.version, st.nextFile, w, st'.nextFile);
    CompactionKeepsReads(m + i, st.version, w, user, snapshot);
  }

  lemma OrderedParts(m: iset<Entry>, i: iset<Entry>, v: iset<Entry>, last: nat)
    requires Ordered(m, i, v, last)
    ensures Newer(m + i, v) && Unique(m + i + v)
  {
  }

  lemma WorkInRange(v: Version, nextFile: nat, w: Work, nextFile': nat)
    requires ValidVersion(v) && Worked(v, nextFile, w, nextFile')
    ensures |v| == NUM_LEVELS && w.level + 1 < NUM_LEVELS
    ensures Sorted(w.merged) && SeqEntries(w.merged) == LevelEntries(w.inputs0 + w.inputs1)
  {
  }

  // ---------------------------------------------------------------- snapshots and runs

  /** DBImpl::GetSnapshot and ReleaseSnapshot on the list of live snapshots, oldest first. */
  ghost predicate TakeSnapshotStep(st: State, st': State) {
    st' == st.(snapshots := st.snapshots + [st.lastSequence])
  }

  ghost predicate ReleaseSnapshotStep(st: State, i: nat, st': State) {
    i < |st.snapshots| && st' == st.(snapshots := st.snapshots[..i] + st.snapshots[i + 1..])
  }

  /** The first snapshot of the list is always the smallest one. */
  lemma SnapshotsStayOrdered(snapshots: seq<nat>, last: nat, i: nat)
    requires ValidSnapshots(snapshots, last)
    ensures ValidSnapshots(snapshots + [last], last)
    ensures i < |snapshots| ==> ValidSnapshots(snapshots[..i] + snapshots[i + 1..], last)
    ensures |snapshots| > 1 && i < |snapshots| ==> snapshots[0] <= (snapshots[..i] + snapshots[i + 1..])[0]
  {
  }

  datatype Event =
    | Write(batch: seq<Op>)
    | Switch
    | Flush(level: nat, number: nat, size: nat)
    | Move(level: nat, table: Table)
    | Compact(work: Work)
    | TakeSnapshot
    | ReleaseSnapshot(index: nat)

  ghost predicate Step(st: State, ev: Event, st': State) {
    match ev
    case Write(batch) => WriteStep(st, batch, st')
    case Switch => SwitchStep(st, st')
    case Flush(level, number, size) => FlushStep(st, level, number, size, st')
    case Move(level, table) => MoveStep(st, level, table, st')
    case Compact(work) => CompactStep(st, work, st')
    case TakeSnapshot => TakeSnapshotStep(st, st')
    case ReleaseSnapshot(index) => ReleaseSnapshotStep(st, index, st')
  }

  /** The entries a step adds to everything ever written. */
  ghost function Added(st: State, ev: Event): iset<Entry> {
    if ev.Write? then SeqEntries(BatchEntries(ev.batch, st.lastSequence + 1)) else iset{}
  }

  lemma StepKeepsInv(st: State, ev: Event, st': State)
    requires Inv(st) && Step(st, ev, st')
    ensures Inv(st')
  {
    hide ValidVersion, Numbered, Ordered, Sorted, SeqEntries, VersionEntries, WriteStep, FlushStep, MoveStep,
      CompactStep, ValidSnapshots, SwitchStep;
    match ev
    case Write(batch) => WriteKeepsInv(st, batch, st');
    case Switch => SwitchKeepsInv(st, st');
    case Flush(level, number, size) => FlushKeepsInv(st, level, number, size, st');
    case Move(level, table) => MoveKeepsInv(st, level, table, st');
    case Compact(work) => CompactKeepsInv(st, work, st');
    case TakeSnapshot => SnapshotsStayOrdered(st.snapshots, st.lastSequence, 0);
    case ReleaseSnapshot(index) => SnapshotsStayOrdered(st.snapshots, st.lastSequence, index);
  }

  /** A step that keeps the entries and the live snapshots keeps what reads return. */
  lemma SameEntriesSameReads(st: State, st': State, written: iset<Entry>)
    requires Reads(st, written) && Entries(st') == Entries(st)
    requires SmallestSnapshot(st) <= SmallestSnapshot(st') && st.lastSequence <= st'.lastSequence
    ensures Reads(st', written)
  {
  }

  lemma StepKeepsReads(st: State, ev: Event, st': State, written: iset<Entry>)
    requires Inv(st) && Step(st, ev, st') && Reads(st, written)
    ensures Reads(st', written + Added(st, ev))
  {
    hide ValidVersion, Numbered, Ordered, Sorted, SeqEntries, VersionEntries, Entries, Reads, WriteStep;
    if !ev.Write? {
      assert written + Added(st, ev) == written;
    }
    match ev
    case Write(batch) => WriteKeepsReads(st, batch, st', written);
    case Switch =>
      SwitchKeepsInv(st, st');
      SameEntriesSameReads(st, st', written);
    case Flush(level, number, size) =>
      FlushKeepsInv(st, level, number, size, st');
      SameEntriesSameReads(st, st', written);
    case Move(level, table) =>
      MoveKeepsInv(st, level, table, st');
      SameEntriesSameReads(st, st', written);
    case Compact(work) => CompactReads(st, work, st', written);
    case TakeSnapshot =>
      SnapshotSteps(st, st', 0);
      SameEntriesSameReads(st, st', written);
    case ReleaseSnapshot(index) =>
      SnapshotSteps(st, st', index);
      SameEntriesSameReads(st, st', written);
  }

  lemma SnapshotSteps(st: State, st': State, i: nat)
    requires Inv(st) && (TakeSnapshotStep(st, st') || ReleaseSnapshotStep(st, i, st'))
    ensures Entries(st') == Entries(st)
    ensures SmallestSnapshot(st) <= SmallestSnapshot(st') && st.lastSequence <= st'.lastSequence
  {
    hide ValidVersion, Numbered, Ordered, Sorted, SeqEntries, VersionEntries;
    SnapshotsStayOrdered(st.snapshots, st.lastSequence, i);
  }

  lemma CompactReads(st: State, w: Work, st': State, written: iset<Entry>)
    requires Inv(st) && CompactStep(st, w, st') && Reads(st, written)
    ensures Reads(st', written)
  {
    hide ValidVersion, Numbered, Ordered, Sorted, SeqEntries, VersionEntries, Read, Unique, Covered, Reshaped, Worked;
    CompactVersionOk(st, w, st');
    forall user, snapshot | SmallestSnapshot(st') <= snapshot
      ensures Read(Entries(st'), user, snapshot) == Read(written, user, snapshot)
    {
      CompactKeepsReads(st, w, st', user, snapshot);
    }
  }

  const EMPTY: State := State([], None, [[], [], [], [], [], [], []], 0, [], 2)

  ghost predicate AllEmpty(v: Version) {
    |v| == NUM_LEVELS && forall l :: 0 <= l < NUM_LEVELS ==> v[l] == []
  }

  lemma EmptyOrdered(v: Version)
    requires AllEmpty(v)
    ensures LevelsOrdered(v) && VersionEntries(v) == iset{}
  {
    forall l | 0 <= l < NUM_LEVELS ensures LevelEntries(v[l]) == iset{} {
    }
    hide LevelEntries;
    assert forall ts :: ts in v ==> LevelEntries(ts) == iset{};
  }

  lemma EmptyNumbered(v: Version)
    requires AllEmpty(v)
    ensures Numbered(v, 2)
  {
    assert forall l, t :: 0 <= l < |v| ==> t !in v[l];
  }

  lemma EmptyVersion(v: Version)
    requires AllEmpty(v)
    ensures ValidVersion(v) && Numbered(v, 2) && VersionEntries(v) == iset{}
  {
    EmptyOrdered(v);
    EmptyNumbered(v);
    hide LevelsOrdered, Numbered, VersionEntries;
  }

  lemma EmptyInv()
    ensures Inv(EMPTY) && Reads(EMPTY, iset{})
  {
    hide ValidVersion, Numbered, VersionEntries;
    EmptyVersion(EMPTY.version);
    assert SeqEntries([]) == iset{};
    assert Entries(EMPTY) == iset{};
  }

  ghost predicate Run(states: seq<State>, events: seq<Event>) {
    && |states| == |events| + 1
    && states[0] == EMPTY
    && forall i :: 0 <= i < |events| ==> Step(states[i], events[i], states[i + 1])
  }

  /** Everything written in the first `n` steps of a run. */
  ghost function Written(states: seq<State>, events: seq<Event>, n: nat): iset<Entry>
    requires n <= |events| && |states| == |events| + 1
  {
    if n == 0 then iset{} else Written(states, events, n - 1) + Added(states[n - 1], events[n - 1])
  }

  /** In every state of every run the store reads as the set of everything written. */
  lemma {:induction false} RunsReadWhatWasWritten(states: seq<State>, events: seq<Event>, n: nat)
    requires Run(states, events) && n <= |events|
    ensures Inv(states[n]) && Reads(states[n], Written(states, events, n))
  {
    hide Inv, Reads, Step, Added;
    if n == 0 {
      EmptyInv();
    } else {
      RunsReadWhatWasWritten(states, events, n - 1);
      StepKeepsInv(states[n - 1], events[n - 1], states[n]);
      StepKeepsReads(states[n - 1], events[n - 1], states[n], Written(states, events, n - 1));
    }
  }
}
