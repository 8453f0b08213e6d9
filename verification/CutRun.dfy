/**
 * A run of the store that cuts a user key between two tables, and what the next move or
 * compaction of the first table then does to the key's lookups.
 */
module CutRuns {
  import opened Bytewise
  import opened InternalKeys
  import opened Lookups
  import opened Options
  import opened Versions
  import opened VersionBuilder
  import opened Picking
  import opened Compactions
  import opened LevelEdits
  import opened TrivialMoves
  import opened Database
  import opened Exposures

  /** One key written twice, with a snapshot in between, and how big tables get. */
  datatype Scene = Scene(user: UserKey, first: Bytes, second: Bytes, fileSize: seq<Entry> -> nat)

  function Older(c: Scene): Entry {
    Entry(c.user, 1, Value, c.first)
  }

  function Latest(c: Scene): Entry {
    Entry(c.user, 2, Value, c.second)
  }

  function Both(c: Scene): seq<Entry> {
    [Latest(c), Older(c)]
  }

  /** The memtable's table, and the two that a compaction cuts it into. */
  function Whole(c: Scene): Table {
    TableOf(2, c.fileSize(Both(c)), Both(c))
  }

  function Front(c: Scene): Table {
    Single(3, c.fileSize([Latest(c)]), Latest(c))
  }

  function Back(c: Scene): Table {
    Single(4, c.fileSize([Older(c)]), Older(c))
  }

  function FirstCompaction(c: Scene): Work {
    Work(2, [Whole(c)], [], Both(c), 1, [Front(c), Back(c)])
  }

  function Events(c: Scene): seq<Event> {
    [Event.Write([Put(c.user, c.first)]), TakeSnapshot, Event.Write([Put(c.user, c.second)]), Switch,
     Event.Flush(2, 2, c.fileSize(Both(c))), Event.Compact(FirstCompaction(c)), ReleaseSnapshot(0)]
  }

  function States(c: Scene): seq<State> {
    var none := EMPTY.version;
    [EMPTY,
     State([Older(c)], None, none, 1, [], 2),
     State([Older(c)], None, none, 1, [1], 2),
     State(Both(c), None, none, 2, [1], 2),
     State([], Some(Both(c)), none, 2, [1], 2),
     State([], None, [[], [], [Whole(c)], [], [], [], []], 2, [1], 3),
     State([], None, TwoTables(Front(c), Back(c)), 2, [1], 5),
     State([], None, TwoTables(Front(c), Back(c)), 2, [], 5)]
  }

  lemma Writes(c: Scene)
    ensures Step(States(c)[0], Events(c)[0], States(c)[1])
    ensures Step(States(c)[2], Events(c)[2], States(c)[3])
  {
    var one, two := BatchEntries([Put(c.user, c.first)], 1), BatchEntries([Put(c.user, c.second)], 2);
    assert one == [Older(c)] && two == [Latest(c)];
    assert SeqEntries([]) + SeqEntries(one) == SeqEntries([Older(c)]);
    assert SeqEntries([Older(c)]) + SeqEntries(two) == SeqEntries(Both(c));
  }

  lemma Flushes(c: Scene)
    ensures Step(States(c)[4], Events(c)[4], States(c)[5])
  {
    var v, v', t := EMPTY.version, States(c)[5].version, Whole(c);
    assert Flushed(v, 2, t, v') by {
      assert t in v'[2];
    }
  }

  /** The picker goes no shallower than the level of the flush. */
  lemma FlushesToTwo(c: Scene, level: nat)
    requires level < MAX_MEM_COMPACT_LEVEL
    ensures !NoDeeper(EMPTY.version, level, c.user, c.user)
  {
  }

  lemma AllSurvive(c: Scene, v: Version)
    ensures Survivors(Both(c), 2, 1, v, 2) == Both(c)
  {
    var es := Both(c);
    assert Survivors(es, 0, 1, v, 2) == [];
    assert Survivors(es, 1, 1, v, 2) == [es[0]];
    assert Kept(es, 1, 1, v, 2);
  }

  lemma CutsWhole(c: Scene)
    ensures Worked(States(c)[5].version, 3, FirstCompaction(c), 5)
  {
    var v, w := States(c)[5].version, FirstCompaction(c);
    AllSurvive(c, v);
    assert Whole(c) in v[2];
    assert w.inputs0 + w.inputs1 == [Whole(c)];
    assert Flatten([Front(c)]) == [Latest(c)];
    assert w.outputs[..1] == [Front(c)];
  }

  lemma CoversWhole(c: Scene)
    ensures Covered(States(c)[5].version, FirstCompaction(c))
  {
    assert Whole(c) in States(c)[5].version[2];
  }

  lemma InstallsCut(c: Scene)
    ensures Reshaped(States(c)[5].version, 2, [Whole(c)], [], [Front(c), Back(c)], TwoTables(Front(c), Back(c)))
  {
    assert Whole(c) in [Whole(c)];
    assert BySmallest(Front(c), Back(c));
  }

  /** The store cuts the key in two by writes, a flush and a compaction that keep every read. */
  lemma RunCutsAKey(c: Scene)
    ensures Run(States(c), Events(c))
    ensures States(c)[|Events(c)|].version == TwoTables(Front(c), Back(c)) && CutPair(Front(c), Back(c))
  {
    Writes(c);
    Flushes(c);
    CutsWhole(c);
    CoversWhole(c);
    InstallsCut(c);
    hide Worked, Covered, Reshaped, WriteStep, FlushStep;
    forall i | 0 <= i < |Events(c)| ensures Step(States(c)[i], Events(c)[i], States(c)[i + 1]) {
    }
  }

  // ---------------------------------------------------------------- the code takes these steps

  lemma ReachesWhole(c: Scene)
    ensures ValidVersion(States(c)[5].version)
  {
    hide Run, ValidVersion;
    RunCutsAKey(c);
    RunsReadWhatWasWritten(States(c), Events(c), 5);
  }

  lemma {:induction false} PiecesAreFew(ts: Level)
    requires ValidLevel(ts)
    ensures |Flatten(ts)| >= |ts|
  {
    if ts != [] {
      assert ts[|ts| - 1] in ts && forall t :: t in ts[..|ts| - 1] ==> t in ts;
      PiecesAreFew(ts[..|ts| - 1]);
    }
  }

  /** Two entries in pieces: one piece with both, or one each. */
  lemma {:induction false} PiecesOfTwo(ts: Level, a: Entry, b: Entry)
    requires ValidLevel(ts) && Flatten(ts) == [a, b]
    ensures || (|ts| == 1 && ts[0].entries == [a, b])
            || (|ts| == 2 && ts[0].entries == [a] && ts[1].entries == [b])
  {
    PiecesAreFew(ts);
    assert ts != [];
    var init, last := ts[..|ts| - 1], ts[|ts| - 1].entries;
    assert ts[|ts| - 1] in ts && last != [];
    assert Flatten(init) + last == [a, b];
    if |ts| == 2 {
      assert init[..0] == [] && Flatten(init) == [] + init[0].entries;
      assert ts[0] in ts && ts[0].entries != [];
      assert ts[0].entries + last == [a, b];
      assert (ts[0].entries + last)[0] == a && (ts[0].entries + last)[1] == b;
    }
  }

  lemma CutWhereFull(c: Scene, outputs: Level)
    requires c.fileSize([Latest(c)]) >= MAX_OUTPUT_FILE_SIZE
    requires Produced(outputs, [], 3, Both(c)) && Filled(c.fileSize, outputs, [])
    ensures outputs == [Front(c), Back(c)]
  {
    assert Flatten(outputs) == Both(c);
    PiecesOfTwo(outputs, Latest(c), Older(c));
    assert outputs[0] in outputs;
    if |outputs| == 1 {
      NotFull(c.fileSize, Latest(c), Older(c));
    } else {
      assert outputs[1] in outputs;
    }
  }

  lemma NotFull(fileSize: seq<Entry> -> nat, a: Entry, b: Entry)
    requires Unfilled(fileSize, [a, b], 2)
    ensures fileSize([a]) < MAX_OUTPUT_FILE_SIZE
  {
    assert [a, b][..1] == [a];
  }

  /** DoCompactionWork cuts the key as soon as its newer version fills a table. */
  method CompactsIntoTwo(c: Scene) returns (outputs: Level)
    requires c.fileSize([Latest(c)]) >= MAX_OUTPUT_FILE_SIZE
    ensures outputs == [Front(c), Back(c)]
  {
    var v := States(c)[5].version;
    ReachesWhole(c);
    var work := new Compaction(2, v, []);
    outputs := work.DoCompactionWork(Both(c), 1, 3, c.fileSize);
    AllSurvive(c, v);
    CutWhereFull(c, outputs);
  }

  lemma NothingBelow(v: Version, level: nat, inputs0: Level, inputs1: Level)
    requires Picked(v, level, inputs0, inputs1) && v[level + 1] == []
    ensures inputs1 == []
  {
  }

  lemma FirstIsPast(ts: Level, i: nat)
    requires i < |ts| && FirstPast(ts, None, i)
    ensures i == 0
  {
    assert Past(ts[0], None);
  }

  lemma OneOnly(ts: Level, t: Table)
    requires |ts| == 1 && t in ts
    ensures ts == [t]
  {
  }

  /** Over an empty level the picker chooses the first table alone, which then is a trivial move. */
  method PicksFirst(v: Version, level: nat) returns (inputs0: Level, inputs1: Level)
    requires ValidVersion(v) && 0 < level < NUM_LEVELS - 1 && v[level] != [] && v[level + 1] == []
    ensures inputs0 == [v[level][0]] && inputs1 == [] && Picked(v, level, inputs0, inputs1)
  {
    assert |v| == NUM_LEVELS;
    hide ValidVersion, Picked, FirstPast;
    var grandparents, pointer;
    inputs0, inputs1, grandparents, pointer := PickCompaction(v, level, None, None);
    NothingBelow(v, level, inputs0, inputs1);
    ghost var i :| 0 <= i < |v[level]| && FirstPast(v[level], None, i) && v[level][i] in inputs0;
    FirstIsPast(v[level], i);
    OneOnly(inputs0, v[level][0]);
  }

  lemma {:induction false} AllOverlap(ts: Level, n: nat)
    requires n <= |ts|
    ensures OverlappingTo(ts, n, None, None) == ts[..n]
  {
    if n > 0 {
      AllOverlap(ts, n - 1);
      assert ts[..n] == ts[..n - 1] + [ts[n - 1]];
    }
  }

  /** So does a compaction of the whole range, if that table is big. */
  method RangePicksFirst(v: Version, level: nat) returns (found: bool, inputs0: Level, inputs1: Level)
    requires ValidVersion(v) && 0 < level < NUM_LEVELS - 1 && v[level] != [] && v[level + 1] == []
    requires v[level][0].size >= MAX_FILE_SIZE_FOR_LEVEL
    ensures found && inputs0 == [v[level][0]] && inputs1 == [] && Picked(v, level, inputs0, inputs1)
  {
    assert |v| == NUM_LEVELS;
    assert v[level][0] in v[level] && Overlaps(v[level][0], None, None);
    AllOverlap(v[level], |v[level]|);
    assert Overlapping(v[level], None, None) == v[level];
    hide ValidVersion, Picked, Overlapping;
    var grandparents, pointer;
    found, inputs0, inputs1, grandparents, pointer := CompactRange(v, level, None, None);
    NothingBelow(v, level, inputs0, inputs1);
    OneOnly(inputs0, v[level][0]);
  }

  // ---------------------------------------------------------------- the old value comes back

  /** A compaction of the front table alone. */
  function SecondCompaction(c: Scene): Work {
    Work(3, [Front(c)], [], [Latest(c)], 2, [Single(5, c.fileSize([Latest(c)]), Latest(c))])
  }

  function Compacted(c: Scene): Version {
    [[], [], [], [Back(c)], SecondCompaction(c).outputs, [], []]
  }

  lemma WorksFront(c: Scene)
    ensures Worked(TwoTables(Front(c), Back(c)), 5, SecondCompaction(c), 6)
  {
    var v, w := TwoTables(Front(c), Back(c)), SecondCompaction(c);
    assert Survivors(w.merged, 0, 2, v, 3) == [];
    assert Survivors(w.merged, 1, 2, v, 3) == w.merged;
    assert w.inputs0 + w.inputs1 == [Front(c)];
    OneSingle(Front(c));
    assert Flatten([]) == [] && w.outputs[..0] == [];
    CutPicked(v, Front(c), Back(c));
  }

  lemma InstallsFront(c: Scene)
    ensures Reshaped(TwoTables(Front(c), Back(c)), 3, [Front(c)], [], SecondCompaction(c).outputs, Compacted(c))
  {
    assert Front(c) in [Front(c)];
  }

  /**
   * After the run, moving the front table or compacting it, both as picked, makes the
   * overwritten value the answer at every snapshot that saw the newer one.
   */
  lemma OverwrittenValueComesBack(c: Scene, snapshot: nat)
    requires 2 <= snapshot
    ensures var v, f := TwoTables(Front(c), Back(c)), Front(c);
      && Reshaped(v, 3, [f], [], [f], FirstMoved(f, Back(c)))
      && Worked(v, 5, SecondCompaction(c), 6)
      && Reshaped(v, 3, [f], [], SecondCompaction(c).outputs, Compacted(c))
      && LookupFrom(v, 0, c.user, snapshot) == Some(Latest(c))
      && LookupFrom(FirstMoved(f, Back(c)), 0, c.user, snapshot) == Some(Older(c))
      && LookupFrom(Compacted(c), 0, c.user, snapshot) == Some(Older(c))
  {
    hide Reshaped, Worked, LookupFrom;
    CutReshaped(TwoTables(Front(c), Back(c)), FirstMoved(Front(c), Back(c)), Front(c), Back(c));
    WorksFront(c);
    InstallsFront(c);
    CutMoveUncoversOldValue(Front(c), Back(c), snapshot);
    OneSingle(Back(c));
    EmptyLevels(Compacted(c), 3);
    AnswersAt(Compacted(c), 3, c.user, snapshot, Older(c));
  }

  // ---------------------------------------------------------------- a deleted key comes back

  /**
   * Two user keys `j < k`. Level 1 holds `j`; level 2 holds `j` and the tombstone of `k`
   * in one table and the deleted value of `k` in the next.
   */
  function J(j: UserKey, seqno: nat): Entry {
    Entry(j, seqno, Value, [])
  }

  function Tombstone(k: UserKey): Entry {
    Entry(k, 2, Deletion, [])
  }

  function Deleted(k: UserKey, value: Bytes): Table {
    Single(3, 1, Entry(k, 1, Value, value))
  }

  function Split(j: UserKey, k: UserKey): Table {
    Table(2, 1, J(j, 3), Tombstone(k), [J(j, 3), Tombstone(k)])
  }

  function Divided(j: UserKey, k: UserKey, value: Bytes): Version {
    [[], [Single(4, 1, J(j, 4))], [Split(j, k), Deleted(k, value)], [], [], [], []]
  }

  function Dropping(j: UserKey, k: UserKey): Work {
    Work(1, [Single(4, 1, J(j, 4))], [Split(j, k)], [J(j, 4), J(j, 3), Tombstone(k)], 4, [Single(5, 1, J(j, 4))])
  }

  function Undeleted(j: UserKey, k: UserKey, value: Bytes): Version {
    [[], [], [Single(5, 1, J(j, 4)), Deleted(k, value)], [], [], [], []]
  }

  lemma DropsTombstone(j: UserKey, k: UserKey, v: Version)
    requires j < k && |v| == NUM_LEVELS && v[3] == v[4] == v[5] == v[6] == []
    ensures Survivors(Dropping(j, k).merged, 3, 4, v, 1) == [J(j, 4)]
  {
    var es := Dropping(j, k).merged;
    assert Survivors(es, 0, 4, v, 1) == [];
    assert Kept(es, 0, 4, v, 1);
    assert Survivors(es, 1, 4, v, 1) == [J(j, 4)];
    assert Hidden(es, 1, 4) by {
      assert es[0].user == es[1].user && es[0].seqno <= 4;
    }
    assert ObsoleteTombstone(es[2], 4, v, 1);
    assert Survivors(es, 2, 4, v, 1) == [J(j, 4)];
  }

  lemma PicksDivided(j: UserKey, k: UserKey, value: Bytes)
    requires j < k
    ensures Picked(Divided(j, k, value), 1, Dropping(j, k).inputs0, Dropping(j, k).inputs1)
  {
    var v, w := Divided(j, k, value), Dropping(j, k);
    var ts := v[2];
    assert OverlappingTo(ts, 0, Some(j), Some(j)) == [];
    assert OverlappingTo(ts, 1, Some(j), Some(j)) == [Split(j, k)];
    assert OverlappingTo(ts, 2, Some(j), Some(j)) == [Split(j, k)];
    assert Lo(w.inputs0) == j && Hi(w.inputs0) == j;
    assert w.inputs0[0] in v[1];
  }

  lemma MergesDivided(j: UserKey, k: UserKey)
    ensures SeqEntries(Dropping(j, k).merged) == LevelEntries(Dropping(j, k).inputs0 + Dropping(j, k).inputs1)
  {
    var w := Dropping(j, k);
    var f, t, ts := w.inputs0[0], w.inputs1[0], w.inputs0 + w.inputs1;
    assert f in ts && t in ts && J(j, 4) in f.entries && J(j, 3) in t.entries && Tombstone(k) in t.entries;
    forall e | e in LevelEntries(ts) ensures e in w.merged {
      var x :| x in ts && e in x.entries;
    }
  }

  lemma WorksDivided(j: UserKey, k: UserKey, value: Bytes)
    requires j < k
    ensures Worked(Divided(j, k, value), 5, Dropping(j, k), 6)
  {
    var v, w := Divided(j, k, value), Dropping(j, k);
    PicksDivided(j, k, value);
    DropsTombstone(j, k, v);
    MergesDivided(j, k);
    hide Picked, Survivors, SeqEntries, LevelEntries;
    assert w.outputs[..0] == [] && Flatten([]) == [];
    assert ValidTable(w.outputs[0]);
  }

  lemma InstallsUndeleted(j: UserKey, k: UserKey, value: Bytes)
    requires j < k
    ensures Reshaped(Divided(j, k, value), 1, Dropping(j, k).inputs0, Dropping(j, k).inputs1, Dropping(j, k).outputs,
                     Undeleted(j, k, value))
  {
    var w := Dropping(j, k);
    assert w.inputs0[0] in w.inputs0 && w.inputs1[0] in w.inputs1;
  }

  lemma DividedValid(j: UserKey, k: UserKey, value: Bytes)
    requires j < k
    ensures ValidVersion(Divided(j, k, value)) && Unique(VersionEntries(Divided(j, k, value)))
  {
    DividedLevels(j, k, value);
    DividedOrder(j, k, value);
    hide ValidLevel, Disjoint, AgeOrdered, LevelsOrdered, Unique, VersionEntries;
  }

  lemma DividedLevels(j: UserKey, k: UserKey, value: Bytes)
    requires j < k
    ensures var v := Divided(j, k, value);
      && (forall i :: 0 <= i < NUM_LEVELS ==> ValidLevel(v[i]))
      && (forall i :: 1 <= i < NUM_LEVELS ==> Disjoint(v[i]))
      && AgeOrdered(v[0])
  {
    var v := Divided(j, k, value);
    assert ValidTable(v[1][0]) && ValidTable(v[2][0]) && ValidTable(v[2][1]);
  }

  lemma DividedOrder(j: UserKey, k: UserKey, value: Bytes)
    requires j < k
    ensures var v := Divided(j, k, value); LevelsOrdered(v) && Unique(VersionEntries(v))
  {
    DividedEntries(j, k, value);
    hide LevelEntries, VersionEntries;
  }

  lemma DividedEntries(j: UserKey, k: UserKey, value: Bytes)
    ensures var v := Divided(j, k, value);
      && LevelEntries(v[0]) == LevelEntries(v[3]) == LevelEntries(v[4]) == LevelEntries(v[5]) == LevelEntries(v[6]) ==
        iset{}
      && LevelEntries(v[1]) == iset{J(j, 4)}
      && LevelEntries(v[2]) == iset{J(j, 3), Tombstone(k), Entry(k, 1, Value, value)}
      && VersionEntries(v) == LevelEntries(v[1]) + LevelEntries(v[2])
  {
    var v := Divided(j, k, value);
    OneSingle(v[1][0]);
    var t, u := v[2][0], v[2][1];
    assert t in v[2] && u in v[2] && J(j, 3) in t.entries && Tombstone(k) in t.entries && u.smallest in u.entries;
    forall e | e in LevelEntries(v[2]) ensures e in iset{J(j, 3), Tombstone(k), Entry(k, 1, Value, value)} {
      var x: Table :| x in v[2] && e in x.entries;
    }
    assert v[1] in v && v[2] in v;
    forall e | e in VersionEntries(v) ensures e in LevelEntries(v[1]) + LevelEntries(v[2]) {
      var ts :| ts in v && e in LevelEntries(ts);
      var l :| 0 <= l < |v| && v[l] == ts;
    }
  }

  lemma UndeletedEntries(j: UserKey, k: UserKey, value: Bytes)
    ensures LevelEntries(Undeleted(j, k, value)[2]) == iset{J(j, 4), Entry(k, 1, Value, value)}
  {
    TwoSingles(Single(5, 1, J(j, 4)), Deleted(k, value));
  }

  /** A compaction of level 1, as picked, drops a tombstone and makes the deleted value the answer. */
  lemma DeletedKeyComesBack(j: UserKey, k: UserKey, value: Bytes, snapshot: nat)
    requires j < k && 4 <= snapshot
    ensures var v, w := Divided(j, k, value), Dropping(j, k);
      && ValidVersion(v) && Unique(VersionEntries(v)) && Worked(v, 5, w, 6)
      && Reshaped(v, w.level, w.inputs0, w.inputs1, w.outputs, Undeleted(j, k, value))
      && LookupFrom(v, 0, k, snapshot) == Some(Tombstone(k))
      && LookupFrom(Undeleted(j, k, value), 0, k, snapshot) == Some(Entry(k, 1, Value, value))
  {
    hide ValidVersion, Unique, VersionEntries, Worked, Reshaped, LookupFrom;
    DividedValid(j, k, value);
    WorksDivided(j, k, value);
    InstallsUndeleted(j, k, value);
    DividedAnswers(j, k, value, snapshot);
  }

  lemma DividedAnswers(j: UserKey, k: UserKey, value: Bytes, snapshot: nat)
    requires j < k && 4 <= snapshot
    ensures LookupFrom(Divided(j, k, value), 0, k, snapshot) == Some(Tombstone(k))
    ensures LookupFrom(Undeleted(j, k, value), 0, k, snapshot) == Some(Entry(k, 1, Value, value))
  {
    hide LevelEntries, LookupFrom, VersionEntries, Unique, IsNewest, Divided, Undeleted;
    DividedVisible(j, k, value, snapshot);
    UndeletedVisible(j, k, value, snapshot);
    AnswersAt(Divided(j, k, value), 2, k, snapshot, Tombstone(k));
    AnswersAt(Undeleted(j, k, value), 2, k, snapshot, Entry(k, 1, Value, value));
  }

  lemma DividedVisible(j: UserKey, k: UserKey, value: Bytes, snapshot: nat)
    requires j < k && 4 <= snapshot
    ensures var v := Divided(j, k, value);
      && |v| == NUM_LEVELS && (forall l, x :: 0 <= l < 2 && x in LevelEntries(v[l]) ==> !Visible(x, k, snapshot))
      && Unique(LevelEntries(v[2])) && IsNewest(LevelEntries(v[2]), k, snapshot, Some(Tombstone(k)))
  {
    DividedEntries(j, k, value);
    hide LevelEntries, VersionEntries;
  }

  lemma UndeletedVisible(j: UserKey, k: UserKey, value: Bytes, snapshot: nat)
    requires j < k && 4 <= snapshot
    ensures var v := Undeleted(j, k, value);
      && |v| == NUM_LEVELS && (forall l, x :: 0 <= l < 2 && x in LevelEntries(v[l]) ==> !Visible(x, k, snapshot))
      && Unique(LevelEntries(v[2])) && IsNewest(LevelEntries(v[2]), k, snapshot, Some(Entry(k, 1, Value, value)))
  {
    UndeletedEntries(j, k, value);
    EmptyLevels(Undeleted(j, k, value), 2);
    hide LevelEntries, VersionEntries;
  }
}
