/**
 * Process stops and recovery (db/db_impl.cc, db/version_set.cc). Every step changes the
 * disk at most once, so the states between steps are all the points a stop can leave.
 */
module Durability {
  import opened InternalKeys
  import opened Lookups
  import opened Options
  import opened Versions
  import opened VersionBuilder
  import opened LevelEdits
  import opened Database

  /** A log file: its records, each the entries of one batch group. */
  type Log = seq<seq<Entry>>

  /** What replaying the current MANIFEST yields. */
  datatype Manifest = Manifest(version: Version, logNumber: nat, nextFile: nat, lastSequence: nat)

  datatype Disk = Disk(logs: map<nat, Log>, tables: map<nat, seq<Entry>>, manifest: Manifest)

  ghost function RecordEntries(log: Log): iset<Entry> {
    iset e, r | r in log && e in r :: e
  }

  /** The entries of the logs numbered `from` up to, and excluding, `to`. */
  ghost function LogRange(logs: map<nat, Log>, from: nat, to: nat): iset<Entry> {
    iset e, n | n in logs && from <= n < to && e in RecordEntries(logs[n]) :: e
  }

  /** The entries of the logs recovery replays. */
  ghost function LogEntries(disk: Disk): iset<Entry> {
    iset e, n | n in disk.logs && disk.manifest.logNumber <= n && e in RecordEntries(disk.logs[n]) :: e
  }

  /** Everything recovery will find. */
  ghost function DiskEntries(disk: Disk): iset<Entry> {
    VersionEntries(disk.manifest.version) + LogEntries(disk)
  }

  /** Sequence numbers grow along each log, and from each log to the next. */
  ghost predicate LogOrder(logs: map<nat, Log>, from: nat) {
    && (forall n :: n in logs && n >= from ==> AscendingLog(logs[n]))
    && (forall m, n :: m in logs && n in logs && from <= m < n ==>
        Below(RecordEntries(logs[m]), RecordEntries(logs[n])))
  }

  ghost predicate AscendingLog(log: Log) {
    && (forall i :: 0 <= i < |log| ==> Ascending(log[i]))
    && (forall i, j :: 0 <= i < j < |log| ==> Below(SeqEntries(log[i]), SeqEntries(log[j])))
  }

  /** The file a live table names holds that table's entries. */
  ghost predicate OnDisk(tables: map<nat, seq<Entry>>, t: Table) {
    t.number in tables && tables[t.number] == t.entries
  }

  ghost predicate VersionOnDisk(v: Version, tables: map<nat, seq<Entry>>) {
    forall l, t :: 0 <= l < |v| && t in v[l] ==> OnDisk(tables, t)
  }

  /** The disk is fit to recover from. */
  ghost predicate DiskInv(disk: Disk) {
    && ValidVersion(disk.manifest.version)
    && Numbered(disk.manifest.version, disk.manifest.nextFile)
    && VersionOnDisk(disk.manifest.version, disk.tables)
    && LogOrder(disk.logs, disk.manifest.logNumber)
    && Newer(LogEntries(disk), VersionEntries(disk.manifest.version))
    && Unique(DiskEntries(disk))
    && (forall e :: e in VersionEntries(disk.manifest.version) ==> e.seqno <= disk.manifest.lastSequence)
    && (forall e :: e in DiskEntries(disk) ==> e.seqno < MAX_SEQUENCE)
    && disk.manifest.lastSequence < MAX_SEQUENCE
  }

  /** The last sequence number that recovery arrives at. */
  ghost predicate RecoveredLast(disk: Disk, last: nat) {
    && disk.manifest.lastSequence <= last
    && (forall e :: e in LogEntries(disk) ==> e.seqno <= last)
    && (last == disk.manifest.lastSequence || exists e :: e in LogEntries(disk) && e.seqno == last)
  }

  /** Recovery would read as the set of everything written. */
  ghost predicate DiskReads(disk: Disk, written: iset<Entry>) {
    && Unique(written)
    && DiskEntries(disk) <= written
    && forall last :: RecoveredLast(disk, last) ==>
         && (forall e :: e in written ==> e.seqno <= last)
         && (forall user, snapshot :: last <= snapshot ==>
               Read(DiskEntries(disk), user, snapshot) == Read(written, user, snapshot))
  }

  /** An open database and its disk. */
  datatype Store = Store(
    db: State,
    disk: Disk,
    counter: nat,             // VersionSet::next_file_number_
    logFile: nat,
    pending: set<nat>,        // pending_outputs_
    held: set<Table>,         // tables of older versions that readers still use
    inflight: seq<Op>)        // a batch that is in the log but not yet acknowledged

  ghost function Inflight(s: Store): iset<Entry> {
    SeqEntries(BatchEntries(s.inflight, s.db.lastSequence + 1))
  }

  ghost predicate LogsMatch(s: Store) {
    && s.logFile in s.disk.logs
    && s.disk.manifest.logNumber <= s.logFile < s.counter
    && (forall n :: n in s.disk.logs ==> n <= s.logFile)
    && LogRange(s.disk.logs, s.disk.manifest.logNumber, s.logFile) == SeqEntries(Imm(s.db))
    && RecordEntries(s.disk.logs[s.logFile]) == SeqEntries(s.db.mem) + Inflight(s)
    && LogOrder(s.disk.logs, s.disk.manifest.logNumber)
  }

  ghost predicate FilesMatch(s: Store) {
    && s.disk.manifest.version == s.db.version
    && s.db.nextFile <= s.disk.manifest.nextFile <= s.counter
    && VersionOnDisk(s.db.version, s.disk.tables)
    && (forall t :: t in s.held ==> OnDisk(s.disk.tables, t) && t.number < s.db.nextFile)
    && (forall n :: n in s.pending ==> s.disk.manifest.nextFile <= n < s.counter)
  }

  /** The last sequence number can be found again from the manifest or the logs. */
  ghost predicate LastMatches(s: Store) {
    && s.disk.manifest.lastSequence <= s.db.lastSequence
    && (forall e :: e in VersionEntries(s.db.version) ==> e.seqno <= s.disk.manifest.lastSequence)
    && (|| s.db.lastSequence == s.disk.manifest.lastSequence
        || exists e :: e in LogEntries(s.disk) && e.seqno == s.db.lastSequence)
    && s.db.lastSequence + |s.inflight| < MAX_SEQUENCE
  }

  ghost predicate StoreInv(s: Store) {
    Inv(s.db) && LogsMatch(s) && FilesMatch(s) && LastMatches(s)
  }

  // ---------------------------------------------------------------- stopping

  lemma LogsAreMemtables(s: Store)
    requires LogsMatch(s)
    ensures LogEntries(s.disk) == SeqEntries(s.db.mem) + Inflight(s) + SeqEntries(Imm(s.db))
  {
    var from := s.disk.manifest.logNumber;
    assert forall e :: e in LogEntries(s.disk) <==>
      e in LogRange(s.disk.logs, from, s.logFile) || e in RecordEntries(s.disk.logs[s.logFile]);
  }

  lemma StopOrders(m: iset<Entry>, i: iset<Entry>, v: iset<Entry>, f: iset<Entry>, last: nat, bound: nat)
    requires Ordered(m, i, v, last) && Unique(f)
    requires forall e :: e in f ==> last < e.seqno <= bound
    requires last <= bound < MAX_SEQUENCE
    ensures Newer(m + f + i, v) && Unique(v + (m + f + i)) && Unique(m + i + v + f)
    ensures v + (m + f + i) == m + i + v + f
    ensures forall e :: e in v + (m + f + i) ==> e.seqno < MAX_SEQUENCE
    ensures forall e :: e in m + i + v ==> e.seqno <= last
  {
  }

  /** What a stop leaves on disk: the open database's entries and the logged batch. */
  lemma StopEntries(s: Store)
    requires StoreInv(s)
    ensures DiskEntries(s.disk) == Entries(s.db) + Inflight(s)
    ensures Newer(LogEntries(s.disk), VersionEntries(s.db.version)) && Unique(DiskEntries(s.disk))
    ensures Unique(Entries(s.db)) && Unique(Entries(s.db) + Inflight(s))
    ensures forall e :: e in DiskEntries(s.disk) ==> e.seqno < MAX_SEQUENCE
    ensures forall e :: e in Entries(s.db) ==> e.seqno <= s.db.lastSequence
  {
    hide ValidVersion, Numbered, Sorted, Ordered, LogsMatch, SeqEntries, VersionEntries, LogEntries, ValidSnapshots,
      VersionOnDisk, OnDisk;
    LogsAreMemtables(s);
    BatchFresh(s.inflight, s.db.lastSequence);
    StopOrders(SeqEntries(s.db.mem), SeqEntries(Imm(s.db)), VersionEntries(s.db.version), Inflight(s),
               s.db.lastSequence,
      s.db.lastSequence + |s.inflight|);
  }

  lemma StopLeavesGoodDisk(s: Store)
    requires StoreInv(s)
    ensures DiskInv(s.disk)
  {
    hide ValidVersion, Sorted, Ordered, SeqEntries, VersionEntries, LogEntries, DiskEntries, ValidSnapshots,
      VersionOnDisk,
      OnDisk, LogOrder, Newer, Unique, Numbered;
    StopEntries(s);
    NumberedMonotone(s.db.version, s.db.nextFile, s.disk.manifest.nextFile);
  }

  /** Every acknowledged write survives a stop, and a batch in flight survives whole. */
  lemma StopKeepsReads(s: Store, acked: iset<Entry>)
    requires StoreInv(s) && Reads(s.db, acked)
    ensures DiskReads(s.disk, acked + Inflight(s))
  {
    hide ValidVersion, Sorted, Ordered, SeqEntries, VersionEntries, LogEntries, DiskEntries, ValidSnapshots,
      VersionOnDisk,
      OnDisk, LogOrder, Newer, Unique, Numbered, Entries, Inflight;
    var f := Inflight(s);
    StopEntries(s);
    InflightFresh(s);
    WrittenUnique(acked, f, s.db.lastSequence);
    SmallestIsLive(s.db);
    forall last | RecoveredLast(s.disk, last)
      ensures forall e :: e in acked + f ==> e.seqno <= last
      ensures forall user, snapshot :: last <= snapshot ==>
                Read(DiskEntries(s.disk), user, snapshot) == Read(acked + f, user, snapshot)
    {
      assert s.db.lastSequence <= last;
      forall user, snapshot | last <= snapshot
        ensures Read(DiskEntries(s.disk), user, snapshot) == Read(acked + f, user, snapshot)
      {
        NewerWritesReadAlike(Entries(s.db), acked, f, s.db.lastSequence, user, snapshot);
      }
    }
  }

  lemma InflightFresh(s: Store)
    requires LogsMatch(s)
    ensures Unique(Inflight(s)) && Inflight(s) <= LogEntries(s.disk)
    ensures forall e :: e in Inflight(s) ==> e.seqno > s.db.lastSequence
  {
    hide SeqEntries, BatchEntries, LogsMatch, LogEntries, Unique;
    BatchFresh(s.inflight, s.db.lastSequence);
    LogsAreMemtables(s);
  }

  lemma SmallestIsLive(st: State)
    requires Inv(st)
    ensures SmallestSnapshot(st) <= st.lastSequence
  {
    hide ValidVersion, Numbered, Sorted, Ordered, SeqEntries, VersionEntries;
  }

  // ---------------------------------------------------------------- recovery

  ghost predicate TablesAscend(ts: Level) {
    forall i, j :: 0 <= i < j < |ts| ==> Below(SeqEntries(ts[i].entries), SeqEntries(ts[j].entries))
  }

  /** The replayed logs as new first-level tables, in the order they were written. */
  ghost predicate Rebuilt(disk: Disk, ts: Level, nextFile: nat) {
    && ValidLevel(ts)
    && LevelEntries(ts) == LogEntries(disk)
    && NumberedFrom(ts, disk.manifest.nextFile, nextFile)
    && TablesAscend(ts)
  }

  /** The memtable and tables rebuilt so far from a log, in ascending pieces. */
  ghost predicate Replayed(ts: Level, mem: seq<Entry>, nextFile: nat, done: iset<Entry>) {
    && ValidLevel(ts) && TablesAscend(ts)
    && (forall i :: 0 <= i < |ts| ==> ts[i].number == nextFile + i)
    && Sorted(mem)
    && Below(LevelEntries(ts), SeqEntries(mem))
    && LevelEntries(ts) + SeqEntries(mem) == done
  }

  function FlushMem(ts: Level, mem: seq<Entry>, nextFile: nat, size: nat): Level {
    if mem == [] then ts else ts + [TableOf(nextFile + |ts|, size, mem)]
  }

  /** WriteLevel0Table: the memtable becomes the next table, above all before it. */
  lemma FlushReplayed(ts: Level, mem: seq<Entry>, nextFile: nat, size: nat, done: iset<Entry>)
    requires Replayed(ts, mem, nextFile, done)
    ensures Replayed(FlushMem(ts, mem, nextFile, size), [], nextFile, done)
  {
    if mem == [] {
      assert SeqEntries(mem) == iset{};
    } else {
      var t := TableOf(nextFile + |ts|, size, mem);
      OneMoreTable(ts, t);
      OneMoreAbove(ts, t);
      ValidSnoc(ts, t);
      hide Sorted, LevelEntries, ValidLevel, TablesAscend, Below;
      NothingLeft(LevelEntries(ts + [t]));
    }
  }

  lemma NothingLeft(es: iset<Entry>)
    ensures Sorted([]) && Below(es, SeqEntries([])) && es + SeqEntries([]) == es
  {
  }

  lemma OneMoreTable(ts: Level, t: Table)
    ensures LevelEntries(ts + [t]) == LevelEntries(ts) + SeqEntries(t.entries)
  {
    assert forall x :: x in ts + [t] <==> x in ts || x == t;
  }

  lemma OneMoreAbove(ts: Level, t: Table)
    requires TablesAscend(ts) && Below(LevelEntries(ts), SeqEntries(t.entries))
    ensures TablesAscend(ts + [t])
  {
    forall i | 0 <= i < |ts| ensures Below(SeqEntries(ts[i].entries), SeqEntries(t.entries)) {
      assert ts[i] in ts && SeqEntries(ts[i].entries) <= LevelEntries(ts);
    }
    hide Below, SeqEntries;
  }

  lemma InsertReplayed(ts: Level, mem: seq<Entry>, nextFile: nat, done: iset<Entry>, record: seq<Entry>)
    requires Replayed(ts, mem, nextFile, done) && Ascending(record) && Below(done, SeqEntries(record))
    ensures Replayed(ts, InsertAll(mem, record), nextFile, done + SeqEntries(record))
  {
    hide Sorted, SeqEntries, LevelEntries, ValidLevel, TablesAscend, InsertAll, Ascending;
    InsertAllSorted(mem, record);
  }

  /** RecoverLogFile: replay one log into the memtable, flushing whenever it is full. */
  method RecoverLogFile(log: Log, ts: Level, nextFile: nat, ghost done: iset<Entry>, maxSequence: nat,
                        full: seq<Entry> -> bool, size: seq<Entry> -> nat)
    returns (ts': Level, maxSequence': nat)
    requires Replayed(ts, [], nextFile, done)
    requires AscendingLog(log) && Below(done, RecordEntries(log))
    ensures Replayed(ts', [], nextFile, done + RecordEntries(log))
    ensures maxSequence <= maxSequence' && forall e :: e in RecordEntries(log) ==> e.seqno <= maxSequence'
    ensures maxSequence' == maxSequence || exists e :: e in RecordEntries(log) && e.seqno == maxSequence'
  {
    ts', maxSequence' := ts, maxSequence;
    var mem: seq<Entry> := [];
    for i := 0 to |log|
      invariant Replayed(ts', mem, nextFile, done + RecordEntries(log[..i]))
      invariant maxSequence <= maxSequence' && forall e :: e in RecordEntries(log[..i]) ==> e.seqno <= maxSequence'
      invariant maxSequence' == maxSequence || exists e :: e in RecordEntries(log) && e.seqno == maxSequence'
    {
      RecordSplit(log, i);
      ghost var done' := done + RecordEntries(log[..i]);
      InsertReplayed(ts', mem, nextFile, done', log[i]);
      mem := InsertAll(mem, log[i]);
      var last := LastSequence(log[i], maxSequence');
      maxSequence' := last;
      assert done' + SeqEntries(log[i]) == done + RecordEntries(log[..i + 1]);
      if full(mem) {
        FlushReplayed(ts', mem, nextFile, size(mem), done + RecordEntries(log[..i + 1]));
        ts', mem := FlushMem(ts', mem, nextFile, size(mem)), [];
      }
    }
    assert log[..|log|] == log;
    FlushReplayed(ts', mem, nextFile, size(mem), done + RecordEntries(log));
    ts' := FlushMem(ts', mem, nextFile, size(mem));
  }

  lemma RecordSplit(log: Log, i: nat)
    requires i < |log|
    ensures RecordEntries(log[..i + 1]) == RecordEntries(log[..i]) + SeqEntries(log[i])
    ensures SeqEntries(log[i]) <= RecordEntries(log)
    ensures AscendingLog(log) ==> Below(RecordEntries(log[..i]), SeqEntries(log[i]))
  {
    assert log[..i + 1] == log[..i] + [log[i]];
    if AscendingLog(log) {
      forall x, y | x in RecordEntries(log[..i]) && y in SeqEntries(log[i]) ensures x.seqno < y.seqno {
        var r :| r in log[..i] && x in r;
        var j :| 0 <= j < i && log[j] == r;
        assert Below(SeqEntries(log[j]), SeqEntries(log[i]));
      }
    }
  }

  /** The larger of a bound and the last sequence number of an ascending record. */
  method LastSequence(record: seq<Entry>, bound: nat) returns (r: nat)
    requires Ascending(record)
    ensures bound <= r && forall e :: e in record ==> e.seqno <= r
    ensures r == bound || exists e :: e in record && e.seqno == r
  {
    r := bound;
    if |record| > 0 && record[|record| - 1].seqno > bound {
      r := record[|record| - 1].seqno;
      assert record[|record| - 1] in record;
    }
  }

  /** The logs to replay, in increasing order (std::sort in DBImpl::Recover). */
  ghost predicate LogNumbers(disk: Disk, numbers: seq<nat>) {
    && (forall i, j :: 0 <= i < j < |numbers| ==> numbers[i] < numbers[j])
    && (forall n :: n in numbers <==> n in disk.logs && disk.manifest.logNumber <= n)
  }

  ghost function LogsUpTo(disk: Disk, numbers: seq<nat>, n: nat): iset<Entry>
    requires n <= |numbers| && forall m :: m in numbers ==> m in disk.logs
  {
    iset e, i | 0 <= i < n && e in RecordEntries(disk.logs[numbers[i]]) :: e
  }

  lemma NextLog(disk: Disk, numbers: seq<nat>, n: nat)
    requires LogNumbers(disk, numbers) && LogOrder(disk.logs, disk.manifest.logNumber) && n < |numbers|
    ensures AscendingLog(disk.logs[numbers[n]])
    ensures Below(LogsUpTo(disk, numbers, n), RecordEntries(disk.logs[numbers[n]]))
    ensures LogsUpTo(disk, numbers, n + 1) == LogsUpTo(disk, numbers, n) + RecordEntries(disk.logs[numbers[n]])
  {
    assert numbers[n] in numbers;
    forall x, y | x in LogsUpTo(disk, numbers, n) && y in RecordEntries(disk.logs[numbers[n]])
      ensures x.seqno < y.seqno
    {
      var i :| 0 <= i < n && x in RecordEntries(disk.logs[numbers[i]]);
      assert numbers[i] in numbers;
      assert Below(RecordEntries(disk.logs[numbers[i]]), RecordEntries(disk.logs[numbers[n]]));
    }
  }

  lemma AllLogs(disk: Disk, numbers: seq<nat>)
    requires LogNumbers(disk, numbers)
    ensures LogsUpTo(disk, numbers, |numbers|) == LogEntries(disk)
  {
    forall e | e in LogEntries(disk) ensures e in LogsUpTo(disk, numbers, |numbers|) {
      var n :| n in disk.logs && disk.manifest.logNumber <= n && e in RecordEntries(disk.logs[n]);
      assert n in numbers;
      var i :| 0 <= i < |numbers| && numbers[i] == n;
    }
    forall e | e in LogsUpTo(disk, numbers, |numbers|) ensures e in LogEntries(disk) {
      var i :| 0 <= i < |numbers| && e in RecordEntries(disk.logs[numbers[i]]);
      assert numbers[i] in numbers;
    }
  }

  /** DBImpl::Recover: replaying the logs in order rebuilds them as ascending tables. */
  method RecoverLogs(disk: Disk, numbers: seq<nat>, full: seq<Entry> -> bool, size: seq<Entry> -> nat)
    returns (ts: Level, last: nat)
    requires LogOrder(disk.logs, disk.manifest.logNumber) && LogNumbers(disk, numbers)
    ensures Rebuilt(disk, ts, disk.manifest.nextFile + |ts|)
    ensures RecoveredLast(disk, last)
  {
    var nextFile := disk.manifest.nextFile;
    ts := [];
    last := disk.manifest.lastSequence;
    NothingReplayed(disk, numbers, nextFile);
    for i := 0 to |numbers|
      invariant Replayed(ts, [], nextFile, LogsUpTo(disk, numbers, i))
      invariant disk.manifest.lastSequence <= last
      invariant forall e :: e in LogsUpTo(disk, numbers, i) ==> e.seqno <= last
      invariant last == disk.manifest.lastSequence || exists e :: e in LogsUpTo(disk, numbers, i) && e.seqno == last
    {
      NextLog(disk, numbers, i);
      assert numbers[i] in numbers;
      ts, last := RecoverLogFile(disk.logs[numbers[i]], ts, nextFile, LogsUpTo(disk, numbers, i), last, full, size);
    }
    AllLogs(disk, numbers);
    ReplayedIsRebuilt(ts, nextFile, LogEntries(disk));
  }

  lemma NothingReplayed(disk: Disk, numbers: seq<nat>, nextFile: nat)
    requires LogNumbers(disk, numbers)
    ensures Replayed([], [], nextFile, LogsUpTo(disk, numbers, 0))
  {
  }

  lemma ReplayedIsRebuilt(ts: Level, nextFile: nat, done: iset<Entry>)
    requires Replayed(ts, [], nextFile, done)
    ensures ValidLevel(ts) && TablesAscend(ts) && NumberedFrom(ts, nextFile, nextFile + |ts|)
    ensures LevelEntries(ts) == done
  {
    assert LevelEntries(ts) + SeqEntries([]) == LevelEntries(ts);
  }

  /** The recovered version: the manifest's, with the rebuilt tables in the first level. */
  ghost predicate RecoveredVersion(v: Version, ts: Level, v': Version) {
    && |v| == |v'| == NUM_LEVELS
    && (forall l :: 1 <= l < NUM_LEVELS ==> v'[l] == v[l])
    && Saved(v[0], ts, {}, v'[0])
  }

  lemma RecoveredLevel0(base: Level, ts: Level, nextFile: nat, nextFile': nat, r: Level)
    requires ValidLevel(base) && AgeOrdered(base) && ValidLevel(ts) && TablesAscend(ts)
    requires forall t :: t in base ==> t.number < nextFile
    requires NumberedFrom(ts, nextFile, nextFile') && Newer(LevelEntries(ts), LevelEntries(base))
    requires Saved(base, ts, {}, r)
    ensures ValidLevel(r) && AgeOrdered(r) && LevelEntries(r) == LevelEntries(base) + LevelEntries(ts)
  {
    forall s, t | s in r && t in r && s.number < t.number ensures Newer(SeqEntries(t.entries), SeqEntries(s.entries)) {
      if t in ts && s in ts {
        var i :| 0 <= i < |ts| && ts[i] == s;
        var j :| 0 <= j < |ts| && ts[j] == t;
        assert Below(SeqEntries(ts[i].entries), SeqEntries(ts[j].entries));
      } else if t in ts {
        assert SeqEntries(t.entries) <= LevelEntries(ts) && SeqEntries(s.entries) <= LevelEntries(base);
      }
    }
    forall i, j | 0 <= i < j < |r| ensures r[i].number != r[j].number {
      assert r[i] in r && r[j] in r && BySmallest(r[i], r[j]);
      if r[i] in base && r[j] in base && r[i].number == r[j].number {
        SameNumber(base, r[i], r[j]);
      }
    }
  }

  lemma RecoveredOrder(v: Version, es: iset<Entry>, v': Version)
    requires |v| == |v'| == NUM_LEVELS && LevelsOrdered(v)
    requires forall l :: 1 <= l < NUM_LEVELS ==> v'[l] == v[l]
    requires LevelEntries(v'[0]) == LevelEntries(v[0]) + es && Newer(es, VersionEntries(v))
    ensures LevelsOrdered(v')
    ensures VersionEntries(v') == VersionEntries(v) + es
  {
    forall l | 0 <= l < NUM_LEVELS
      ensures LevelEntries(v[l]) <= VersionEntries(v) && LevelEntries(v'[l]) <= VersionEntries(v')
    {
      assert v[l] in v && v'[l] in v';
    }
    forall i, j | 0 <= i < j < NUM_LEVELS ensures Newer(LevelEntries(v'[i]), LevelEntries(v'[j])) {
      assert Newer(LevelEntries(v[i]), LevelEntries(v[j]));
    }
    forall e | e in VersionEntries(v') ensures e in VersionEntries(v) + es {
      var ts :| ts in v' && e in LevelEntries(ts);
      var l :| 0 <= l < |v'| && v'[l] == ts;
    }
    forall e | e in VersionEntries(v) ensures e in VersionEntries(v') {
      var ts :| ts in v && e in LevelEntries(ts);
      var l :| 0 <= l < |v| && v[l] == ts;
    }
  }

  lemma RecoveredNumbered(v: Version, nextFile: nat, ts: Level, nextFile': nat, v': Version)
    requires Numbered(v, nextFile) && NumberedFrom(ts, nextFile, nextFile') && RecoveredVersion(v, ts, v')
    ensures Numbered(v', nextFile')
  {
    hide Numbered, NumberedFrom, SortedBySmallest, StayedOrAdded;
    forall l, t | 0 <= l < |v'| && t in v'[l] ensures StayedOrAdded(v, 0, ts, l, t) {
      RecoveredTable(v, ts, v', l, t);
    }
    NewNumbers(v, nextFile, 0, ts, nextFile', v');
    forall l | 0 <= l < |v'| ensures SortedBySmallest(v'[l]) {
      RecoveredSorted(v, nextFile, ts, v', l);
    }
    NumberedParts(v', nextFile');
  }

  lemma NumberedParts(v: Version, nextFile: nat)
    requires forall l, t :: 0 <= l < |v| && t in v[l] ==> t.number < nextFile
    requires forall l, m, s, t ::
      0 <= l < |v| && 0 <= m < |v| && s in v[l] && t in v[m] && s.number == t.number ==> l == m && s == t
    requires forall l :: 0 <= l < |v| ==> SortedBySmallest(v[l])
    ensures Numbered(v, nextFile)
  {
  }

  lemma RecoveredTable(v: Version, ts: Level, v': Version, l: nat, t: Table)
    requires RecoveredVersion(v, ts, v') && l < |v'| && t in v'[l]
    ensures l < |v| && StayedOrAdded(v, 0, ts, l, t)
  {
  }

  lemma RecoveredSorted(v: Version, nextFile: nat, ts: Level, v': Version, l: nat)
    requires Numbered(v, nextFile) && RecoveredVersion(v, ts, v') && l < |v'|
    ensures SortedBySmallest(v'[l])
  {
    hide SortedBySmallest;
  }

  /** Recovery installs a valid version that holds the manifest's tables and the logs. */
  lemma RecoveredValid(disk: Disk, ts: Level, nextFile: nat, v': Version)
    requires DiskInv(disk) && Rebuilt(disk, ts, nextFile) && RecoveredVersion(disk.manifest.version, ts, v')
    ensures ValidVersion(v') && Numbered(v', nextFile) && VersionEntries(v') == DiskEntries(disk)
  {
    var v := disk.manifest.version;
    assert v[0] in v && LevelEntries(v[0]) <= VersionEntries(v);
    RecoveredLevel0(v[0], ts, disk.manifest.nextFile, nextFile, v'[0]);
    RecoveredOrder(v, LevelEntries(ts), v');
    RecoveredNumbered(v, disk.manifest.nextFile, ts, nextFile, v');
    FlushedFromParts(v, 0, v');
  }

  /** DB::Open after a stop: rebuild, start a new log, and write a manifest that names both. */
  ghost predicate RecoverStep(disk: Disk, ts: Level, newLog: nat, s': Store) {
    && Rebuilt(disk, ts, s'.counter)
    && (forall n :: n in disk.logs ==> n < newLog) && newLog < s'.counter
    && RecoveredLast(disk, s'.db.lastSequence)
    && RecoveredVersion(disk.manifest.version, ts, s'.db.version)
    && s'.db == State([], None, s'.db.version, s'.db.lastSequence, [], s'.counter)
    && s'.disk == Disk(disk.logs[newLog := []], s'.disk.tables,
                       Manifest(s'.db.version, newLog, s'.counter, s'.db.lastSequence))
    && (forall t :: t in ts ==> OnDisk(s'.disk.tables, t))
    && (forall n :: n in disk.tables && n < disk.manifest.nextFile ==>
        n in s'.disk.tables && s'.disk.tables[n] == disk.tables[n])
    && s' == Store(s'.db, s'.disk, s'.counter, newLog, {}, {}, [])
  }

  lemma RecoverKeepsEntries(disk: Disk, ts: Level, newLog: nat, s': Store)
    requires DiskInv(disk) && RecoverStep(disk, ts, newLog, s')
    ensures Inv(s'.db) && Entries(s'.db) == DiskEntries(disk)
  {
    hide ValidVersion, Numbered, Rebuilt, RecoveredVersion, VersionEntries, LogOrder, VersionOnDisk;
    RecoveredValid(disk, ts, s'.counter, s'.db.version);
    RecoveredInv(s'.db, DiskEntries(disk));
  }

  lemma RecoveredInv(st: State, es: iset<Entry>)
    requires ValidVersion(st.version) && Numbered(st.version, st.nextFile) && VersionEntries(st.version) == es
    requires Unique(es) && (forall e :: e in es ==> e.seqno <= st.lastSequence) && st.lastSequence < MAX_SEQUENCE
    requires st.mem == [] && st.imm == None && st.snapshots == []
    ensures Inv(st) && Entries(st) == es
  {
    hide ValidVersion, Numbered, VersionEntries;
    assert SeqEntries([]) == iset{};
    assert iset{} + iset{} + es == es;
  }

  lemma RecoveredOnDisk(disk: Disk, ts: Level, newLog: nat, s': Store)
    requires DiskInv(disk) && RecoverStep(disk, ts, newLog, s')
    ensures VersionOnDisk(s'.db.version, s'.disk.tables)
  {
    hide ValidVersion, VersionEntries, LogOrder, Newer, Unique, Rebuilt;
    forall l, t | 0 <= l < |s'.db.version| && t in s'.db.version[l] ensures OnDisk(s'.disk.tables, t) {
      if t in ts {
      } else {
        assert t in disk.manifest.version[l];
        assert OnDisk(disk.tables, t);
      }
    }
  }

  lemma RecoveredLogs(disk: Disk, newLog: nat, s': Store)
    requires s'.disk.logs == disk.logs[newLog := []] && s'.disk.manifest.logNumber == newLog == s'.logFile < s'.counter
    requires (forall n :: n in disk.logs ==> n < newLog) && s'.inflight == [] && s'.db.mem == [] && s'.db.imm == None
    ensures LogsMatch(s')
  {
    assert SeqEntries([]) == iset{} && RecordEntries([]) == iset{};
    assert LogRange(s'.disk.logs, newLog, newLog) == iset{};
    assert Inflight(s') == iset{};
  }

  /** A database recovered from a fit disk is in order, and loses no write. */
  lemma RecoverKeepsInv(disk: Disk, ts: Level, newLog: nat, s': Store)
    requires DiskInv(disk) && RecoverStep(disk, ts, newLog, s')
    ensures StoreInv(s')
  {
    hide ValidVersion, Numbered, Rebuilt, RecoveredVersion, LogOrder, VersionOnDisk, Inv, LogsMatch, OnDisk;
    RecoverKeepsEntries(disk, ts, newLog, s');
    RecoveredOnDisk(disk, ts, newLog, s');
    RecoveredLogs(disk, newLog, s');
    EntriesBounded(s'.db);
  }

  lemma EntriesBounded(st: State)
    requires Inv(st)
    ensures forall e :: e in VersionEntries(st.version) ==> e.seqno <= st.lastSequence
    ensures st.lastSequence < MAX_SEQUENCE
  {
    hide ValidVersion, Numbered, Sorted, SeqEntries, VersionEntries;
  }

  lemma RecoverKeepsReads(disk: Disk, ts: Level, newLog: nat, s': Store, written: iset<Entry>)
    requires DiskInv(disk) && RecoverStep(disk, ts, newLog, s') && DiskReads(disk, written)
    ensures Reads(s'.db, written)
  {
    hide ValidVersion, Numbered, Rebuilt, RecoveredVersion, LogOrder, VersionOnDisk, Inv, Unique, Entries,
      DiskEntries, Read;
    RecoverKeepsEntries(disk, ts, newLog, s');
  }

  /** A stop during recovery: stray tables above the counter, perhaps a new empty log. */
  ghost predicate FailedRecoveryStep(disk: Disk, disk': Disk) {
    && disk'.manifest == disk.manifest
    && (forall n :: n in disk.tables && n < disk.manifest.nextFile ==>
        n in disk'.tables && disk'.tables[n] == disk.tables[n])
    && (disk'.logs == disk.logs || exists n :: NewEmptyLog(disk, n, disk'))
  }

  ghost predicate NewEmptyLog(disk: Disk, n: nat, disk': Disk) {
    (forall m :: m in disk.logs ==> m < n) && disk'.logs == disk.logs[n := []]
  }

  lemma FailedRecoveryKeepsDisk(disk: Disk, disk': Disk)
    requires DiskInv(disk) && FailedRecoveryStep(disk, disk')
    ensures DiskInv(disk') && LogEntries(disk') == LogEntries(disk)
  {
    hide ValidVersion, VersionEntries, Newer, Unique;
    EmptyLogAddsNothing(disk, disk');
    forall l, t | 0 <= l < |disk'.manifest.version| && t in disk'.manifest.version[l] ensures OnDisk(disk'.tables, t) {
      assert OnDisk(disk.tables, t);
    }
  }

  lemma EmptyLogAddsNothing(disk: Disk, disk': Disk)
    requires FailedRecoveryStep(disk, disk')
    ensures LogEntries(disk') == LogEntries(disk)
    ensures LogOrder(disk.logs, disk.manifest.logNumber) ==> LogOrder(disk'.logs, disk.manifest.logNumber)
  {
    if disk'.logs != disk.logs {
      var n :| NewEmptyLog(disk, n, disk');
      assert RecordEntries(disk'.logs[n]) == iset{};
      assert forall m :: m in disk.logs ==> m in disk'.logs && disk'.logs[m] == disk.logs[m];
      assert forall m :: m in disk'.logs ==> m == n || m in disk.logs;
      forall e | e in LogEntries(disk) ensures e in LogEntries(disk') {
        var m :| m in disk.logs && disk.manifest.logNumber <= m && e in RecordEntries(disk.logs[m]);
        assert e in RecordEntries(disk'.logs[m]);
      }
    } else {
      assert disk'.logs == disk.logs;
    }
  }

  lemma SameEntriesSameDiskReads(disk: Disk, disk': Disk, written: iset<Entry>)
    requires disk'.manifest == disk.manifest && LogEntries(disk') == LogEntries(disk) && DiskReads(disk, written)
    ensures DiskReads(disk', written)
  {
    forall last ensures RecoveredLast(disk', last) <==> RecoveredLast(disk, last) {
    }
    assert DiskEntries(disk') == DiskEntries(disk);
  }
}
