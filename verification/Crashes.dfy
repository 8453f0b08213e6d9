/**
 * Runs of an open database with stops and recoveries at any point: no acknowledged
 * write is lost, and no file that is still needed is deleted (db/db_impl.cc).
 */
module Crashes {
  import opened InternalKeys
  import opened Lookups
  import opened Options
  import opened Versions
  import opened LevelEdits
  import opened Database
  import opened Durability

  /** DBImpl::Write, first half: the batch group goes to the log as one record. */
  ghost predicate AppendStep(s: Store, batch: seq<Op>, s': Store) {
    && s.inflight == []
    && s.db.lastSequence + |batch| < MAX_SEQUENCE
    && s.logFile in s.disk.logs
    && s' == s.(disk := s.disk.(logs := s.disk.logs[s.logFile :=
                  s.disk.logs[s.logFile] + [BatchEntries(batch, s.db.lastSequence + 1)]]),
                inflight := batch)
  }

  /** DBImpl::Write, second half: into the memtable, then acknowledged. */
  ghost predicate ApplyStep(s: Store, s': Store) {
    WriteStep(s.db, s.inflight, s'.db) && s' == s.(db := s'.db, inflight := [])
  }

  /** MakeRoomForWrite: a new log starts, and the memtable is set aside for flushing. */
  ghost predicate SwitchLogStep(s: Store, s': Store) {
    && s.inflight == []
    && SwitchStep(s.db, s'.db)
    && s' == s.(db := s'.db, disk := s.disk.(logs := s.disk.logs[s.counter := []]),
                counter := s.counter + 1, logFile := s.counter)
  }

  /** A flush or compaction reserves a file number. */
  ghost predicate AllocateStep(s: Store, s': Store) {
    s' == s.(pending := s.pending + {s.counter}, counter := s.counter + 1)
  }

  /** A reserved table file is written, in any order and any number of pieces. */
  ghost predicate WritePendingStep(s: Store, n: nat, es: seq<Entry>, s': Store) {
    n in s.pending && s' == s.(disk := s.disk.(tables := s.disk.tables[n := es]))
  }

  /** CompactMemTable and LogAndApply: earlier logs are no longer needed. */
  ghost predicate CommitFlushStep(s: Store, level: nat, number: nat, size: nat, s': Store) {
    && FlushStep(s.db, level, number, size, s'.db)
    && s'.db.nextFile == s.counter
    && s.pending == {number}
    && (s.db.imm.value != [] ==> number in s.disk.tables && s.disk.tables[number] == s.db.imm.value)
    && s' == s.(db := s'.db, pending := {},
                disk := s.disk.(manifest := Manifest(s'.db.version, s.logFile, s.counter, s.db.lastSequence)))
  }

  ghost predicate CommitMoveStep(s: Store, level: nat, f: Table, s': Store) {
    && MoveStep(s.db, level, f, s'.db)
    && s.pending == {}
    && s' == s.(db := s'.db,
                disk := s.disk.(manifest :=
                  Manifest(s'.db.version, s.disk.manifest.logNumber, s.counter, s.db.lastSequence)))
  }

  ghost predicate CommitCompactStep(s: Store, w: Work, s': Store) {
    && CompactStep(s.db, w, s'.db)
    && s'.db.nextFile == s.counter
    && s.pending == Numbers(w.outputs)
    && (forall t :: t in w.outputs ==> OnDisk(s.disk.tables, t))
    && s' == s.(db := s'.db, pending := {},
                disk := s.disk.(manifest :=
                  Manifest(s'.db.version, s.disk.manifest.logNumber, s.counter, s.db.lastSequence)))
  }

  ghost predicate InVersion(v: Version, t: Table) {
    exists l :: 0 <= l < |v| && t in v[l]
  }

  /** A reader takes or gives up references to the tables of a version. */
  ghost predicate PinStep(s: Store, s': Store) {
    && s' == s.(held := s'.held)
    && forall t :: t in s'.held ==> t in s.held || InVersion(s.db.version, t)
  }

  /** DeleteObsoleteFiles, one table: no live version and no pending output has the number. */
  ghost predicate DeleteTableStep(s: Store, n: nat, s': Store) {
    && (forall t :: InVersion(s.db.version, t) ==> t.number != n)
    && (forall t :: t in s.held ==> t.number != n)
    && n !in s.pending
    && s' == s.(disk := s.disk.(tables := s.disk.tables - {n}))
  }

  /** DeleteObsoleteFiles, one log: numbered below the manifest's log number. */
  ghost predicate DeleteLogStep(s: Store, n: nat, s': Store) {
    n < s.disk.manifest.logNumber && s' == s.(disk := s.disk.(logs := s.disk.logs - {n}))
  }

  ghost predicate SnapshotStep(s: Store, ev: Event, s': Store) {
    (ev.TakeSnapshot? || ev.ReleaseSnapshot?) && Step(s.db, ev, s'.db) && s' == s.(db := s'.db)
  }

  // ---------------------------------------------------------------- each step keeps the invariant

  lemma RecordAppended(log: Log, r: seq<Entry>)
    ensures RecordEntries(log + [r]) == RecordEntries(log) + SeqEntries(r)
    ensures AscendingLog(log) && Ascending(r) && Below(RecordEntries(log), SeqEntries(r)) ==> AscendingLog(log + [r])
  {
    forall i | 0 <= i < |log| ensures SeqEntries(log[i]) <= RecordEntries(log) {
    }
  }

  lemma NoInflight(s: Store)
    requires s.inflight == []
    ensures Inflight(s) == iset{}
  {
  }

  lemma SameRange(logs: map<nat, Log>, logs': map<nat, Log>, from: nat, to: nat)
    requires forall n :: from <= n < to ==> (n in logs <==> n in logs')
    requires forall n :: from <= n < to && n in logs && n in logs' ==> logs'[n] == logs[n]
    ensures LogRange(logs', from, to) == LogRange(logs, from, to)
  {
    forall e | e in LogRange(logs, from, to) ensures e in LogRange(logs', from, to) {
      var n :| n in logs && from <= n < to && e in RecordEntries(logs[n]);
      assert n in logs' && e in RecordEntries(logs'[n]);
    }
    forall e | e in LogRange(logs', from, to) ensures e in LogRange(logs, from, to) {
      var n :| n in logs' && from <= n < to && e in RecordEntries(logs'[n]);
      assert n in logs && e in RecordEntries(logs[n]);
    }
  }

  /** A record above all sequence numbers so far keeps the logs in order. */
  lemma GrownLogs(logs: map<nat, Log>, from: nat, file: nat, r: seq<Entry>, last: nat)
    requires file in logs && from <= file && (forall n :: n in logs ==> n <= file) && LogOrder(logs, from)
    requires forall e :: e in LogRange(logs, from, file) + RecordEntries(logs[file]) ==> e.seqno <= last
    requires Ascending(r) && forall e :: e in SeqEntries(r) ==> e.seqno > last
    ensures var logs' := logs[file := logs[file] + [r]];
      && LogRange(logs', from, file) == LogRange(logs, from, file)
      && RecordEntries(logs'[file]) == RecordEntries(logs[file]) + SeqEntries(r)
      && LogOrder(logs', from)
  {
    var logs' := logs[file := logs[file] + [r]];
    RecordAppended(logs[file], r);
    SameRange(logs, logs', from, file);
    forall m, n | m in logs' && n in logs' && from <= m < n
      ensures Below(RecordEntries(logs'[m]), RecordEntries(logs'[n]))
    {
      assert Below(RecordEntries(logs[m]), RecordEntries(logs[n]));
      if n == file {
        forall x | x in RecordEntries(logs[m]) ensures x.seqno <= last {
          assert x in LogRange(logs, from, file);
        }
      }
    }
  }

  lemma MemtablesBounded(s: Store)
    requires StoreInv(s)
    ensures forall e :: e in SeqEntries(Imm(s.db)) + SeqEntries(s.db.mem) ==> e.seqno <= s.db.lastSequence
  {
    hide ValidVersion, Numbered, Sorted, LogsMatch, FilesMatch, SeqEntries, VersionEntries;
  }

  lemma AppendMatches(s: Store, batch: seq<Op>, s': Store)
    requires StoreInv(s) && AppendStep(s, batch, s')
    ensures LogsMatch(s')
  {
    hide Inv, FilesMatch, LastMatches, SeqEntries, RecordEntries, LogRange, LogOrder;
    var r := BatchEntries(batch, s.db.lastSequence + 1);
    NoInflight(s);
    MemtablesBounded(s);
    BatchFresh(batch, s.db.lastSequence);
    Rest(SeqEntries(s.db.mem));
    GrownLogs(s.disk.logs, s.disk.manifest.logNumber, s.logFile, r, s.db.lastSequence);
  }

  lemma Rest(m: iset<Entry>)
    ensures m + iset{} == m
  {
  }

  lemma AppendKeepsInv(s: Store, batch: seq<Op>, s': Store)
    requires StoreInv(s) && AppendStep(s, batch, s')
    ensures StoreInv(s')
  {
    hide Inv, VersionEntries, VersionOnDisk, LogsMatch, SeqEntries, Inflight, LogEntries;
    AppendMatches(s, batch, s');
    LogsAreMemtables(s);
    LogsAreMemtables(s');
    NoInflight(s);
    Rest(SeqEntries(s.db.mem));
    assert LogEntries(s.disk) <= LogEntries(s'.disk);
  }

  lemma ApplyMatches(s: Store, s': Store)
    requires StoreInv(s) && ApplyStep(s, s')
    ensures LogsMatch(s')
    ensures |s.inflight| > 0 ==> exists e :: e in LogEntries(s.disk) && e.seqno == s'.db.lastSequence
  {
    hide Inv, FilesMatch, LastMatches, SeqEntries, RecordEntries, LogRange, LogOrder, LogEntries;
    NoInflight(s');
    Rest(SeqEntries(s'.db.mem));
    if |s.inflight| > 0 {
      LogsAreMemtables(s);
      LastOfBatch(s.inflight, s.db.lastSequence + 1);
    }
  }

  lemma LastOfBatch(batch: seq<Op>, first: nat)
    requires batch != []
    ensures exists e :: e in SeqEntries(BatchEntries(batch, first)) && e.seqno == first + |batch| - 1
  {
    assert BatchEntries(batch, first)[|batch| - 1] in SeqEntries(BatchEntries(batch, first));
  }

  lemma ApplyKeepsInv(s: Store, s': Store)
    requires StoreInv(s) && ApplyStep(s, s')
    ensures StoreInv(s')
  {
    hide Inv, VersionEntries, VersionOnDisk, LogsMatch, SeqEntries, Inflight, LogEntries, Sorted;
    WriteKeepsInv(s.db, s.inflight, s'.db);
    ApplyMatches(s, s');
  }

  /** A new empty log above all others leaves the older ones, the last one now set aside. */
  lemma SwitchedLogs(logs: map<nat, Log>, from: nat, file: nat, next: nat)
    requires file in logs && from <= file < next && (forall n :: n in logs ==> n <= file) && LogOrder(logs, from)
    ensures var logs' := logs[next := []];
      && LogRange(logs', from, next) == LogRange(logs, from, file) + RecordEntries(logs[file])
      && RecordEntries(logs'[next]) == iset{}
      && LogOrder(logs', from)
  {
    var logs' := logs[next := []];
    forall e | e in LogRange(logs, from, file) + RecordEntries(logs[file]) ensures e in LogRange(logs', from, next) {
      var n :| n in logs && from <= n <= file && e in RecordEntries(logs[n]);
      assert e in RecordEntries(logs'[n]);
    }
  }

  lemma SwitchMatches(s: Store, s': Store)
    requires StoreInv(s) && SwitchLogStep(s, s')
    ensures LogsMatch(s')
  {
    hide Inv, FilesMatch, LastMatches, RecordEntries, LogRange, LogOrder;
    SwitchedLogs(s.disk.logs, s.disk.manifest.logNumber, s.logFile, s.counter);
    NoInflight(s);
    NoInflight(s');
    assert SeqEntries([]) == iset{};
  }

  lemma SwitchLogKeepsInv(s: Store, s': Store)
    requires StoreInv(s) && SwitchLogStep(s, s')
    ensures StoreInv(s')
  {
    hide Inv, VersionEntries, VersionOnDisk, LogsMatch, Inflight, LogEntries;
    SwitchKeepsInv(s.db, s'.db);
    SwitchMatches(s, s');
    LogsAreMemtables(s);
    LogsAreMemtables(s');
    NoInflight(s);
    NoInflight(s');
    assert SeqEntries(s'.db.mem) == iset{} && SeqEntries(Imm(s.db)) == iset{};
  }

  lemma AllocateKeepsInv(s: Store, s': Store)
    requires StoreInv(s) && AllocateStep(s, s')
    ensures StoreInv(s')
  {
    hide Inv, VersionEntries, VersionOnDisk, LogEntries, LogRange, LogOrder, RecordEntries, SeqEntries;
  }

  /** Writing a file that no live version names leaves the live tables as they are. */
  lemma TablesChange(s: Store, tables: map<nat, seq<Entry>>)
    requires StoreInv(s)
    requires forall l, t :: 0 <= l < |s.db.version| && t in s.db.version[l] ==>
               (t.number in s.disk.tables ==> t.number in tables && tables[t.number] == s.disk.tables[t.number])
    requires forall t :: t in s.held && t.number in s.disk.tables ==>
        t.number in tables && tables[t.number] == s.disk.tables[t.number]
    ensures StoreInv(s.(disk := s.disk.(tables := tables)))
  {
    hide Inv, LogRange, LogOrder, RecordEntries, SeqEntries, VersionEntries;
    var s' := s.(disk := s.disk.(tables := tables));
    assert LogEntries(s'.disk) == LogEntries(s.disk);
    forall l, t | 0 <= l < |s.db.version| && t in s.db.version[l] ensures OnDisk(tables, t) {
      assert OnDisk(s.disk.tables, t);
    }
  }

  lemma VersionNumbers(s: Store, l: nat, t: Table)
    requires StoreInv(s) && l < |s.db.version| && t in s.db.version[l]
    ensures t.number < s.db.nextFile
  {
    hide LogsMatch, FilesMatch, LastMatches, ValidVersion, Ordered, Sorted;
  }

  lemma WritePendingKeepsInv(s: Store, n: nat, es: seq<Entry>, s': Store)
    requires StoreInv(s) && WritePendingStep(s, n, es, s')
    ensures StoreInv(s')
  {
    hide Inv, LogsMatch, LastMatches, VersionOnDisk;
    forall l, t | 0 <= l < |s.db.version| && t in s.db.version[l] ensures t.number != n {
      VersionNumbers(s, l, t);
    }
    TablesChange(s, s.disk.tables[n := es]);
  }

  lemma DeleteTableKeepsInv(s: Store, n: nat, s': Store)
    requires StoreInv(s) && DeleteTableStep(s, n, s')
    ensures StoreInv(s')
  {
    hide Inv, LogsMatch, LastMatches, VersionOnDisk;
    forall l, t | 0 <= l < |s.db.version| && t in s.db.version[l] ensures t.number != n {
      assert InVersion(s.db.version, t);
    }
    TablesChange(s, s.disk.tables - {n});
  }

  lemma DeleteLogMatches(s: Store, n: nat, s': Store)
    requires LogsMatch(s) && DeleteLogStep(s, n, s')
    ensures LogsMatch(s')
  {
    SameRange(s.disk.logs, s'.disk.logs, s.disk.manifest.logNumber, s.logFile);
  }

  lemma DeleteLogKeepsInv(s: Store, n: nat, s': Store)
    requires StoreInv(s) && DeleteLogStep(s, n, s')
    ensures StoreInv(s') && LogEntries(s'.disk) == LogEntries(s.disk)
  {
    hide Inv, VersionEntries, VersionOnDisk, LogsMatch, SeqEntries, LogEntries;
    DeleteLogMatches(s, n, s');
    LogsAreMemtables(s);
    LogsAreMemtables(s');
  }

  lemma PinKeepsInv(s: Store, s': Store)
    requires StoreInv(s) && PinStep(s, s')
    ensures StoreInv(s')
  {
    hide Inv, LogRange, LogOrder, RecordEntries, SeqEntries, VersionEntries, LogEntries;
    forall t | t in s'.held ensures OnDisk(s.disk.tables, t) && t.number < s.db.nextFile {
      if t !in s.held {
        var l :| 0 <= l < |s.db.version| && t in s.db.version[l];
        VersionNumbers(s, l, t);
      }
    }
  }

  lemma SnapshotKeepsInv(s: Store, ev: Event, s': Store)
    requires StoreInv(s) && SnapshotStep(s, ev, s')
    ensures StoreInv(s')
  {
    hide Inv, LogRange, LogOrder, RecordEntries, SeqEntries, VersionEntries, LogEntries, VersionOnDisk;
    StepKeepsInv(s.db, ev, s'.db);
  }

  // ---------------------------------------------------------------- commits

  lemma LaterLogsOrdered(logs: map<nat, Log>, from: nat, from': nat)
    requires LogOrder(logs, from) && from <= from'
    ensures LogOrder(logs, from') && LogRange(logs, from', from') == iset{}
  {
  }

  lemma CommitFlushMatches(s: Store, level: nat, number: nat, size: nat, s': Store)
    requires LogsMatch(s) && CommitFlushStep(s, level, number, size, s')
    ensures LogsMatch(s')
  {
    hide LogRange, LogOrder, RecordEntries, FlushInstalls;
    LaterLogsOrdered(s.disk.logs, s.disk.manifest.logNumber, s.logFile);
    assert SeqEntries([]) == iset{};
  }

  lemma FlushedOnDisk(s: Store, level: nat, number: nat, size: nat, s': Store)
    requires StoreInv(s) && CommitFlushStep(s, level, number, size, s')
    ensures VersionOnDisk(s'.db.version, s.disk.tables)
  {
    hide Inv, LogsMatch, LastMatches;
    forall l, t | 0 <= l < |s'.db.version| && t in s'.db.version[l] ensures OnDisk(s.disk.tables, t) {
      if s.db.imm.value != [] {
        assert t in s.db.version[l] || t == TableOf(number, size, s.db.imm.value);
      }
    }
  }

  lemma CommitFlushKeepsInv(s: Store, level: nat, number: nat, size: nat, s': Store)
    requires StoreInv(s) && CommitFlushStep(s, level, number, size, s')
    ensures StoreInv(s')
  {
    hide Inv, LogsMatch, VersionOnDisk, VersionEntries, LogEntries, FlushInstalls;
    FlushKeepsInv(s.db, level, number, size, s'.db);
    CommitFlushMatches(s, level, number, size, s');
    FlushedOnDisk(s, level, number, size, s');
    EntriesBounded(s'.db);
  }

  /** The tables of an edited version were in the old one or are among the outputs. */
  lemma ReshapedOnDisk(v: Version, level: nat, inputs0: Level, inputs1: Level, outputs: Level, v': Version,
                       tables: map<nat, seq<Entry>>)
    requires Reshaped(v, level, inputs0, inputs1, outputs, v') && VersionOnDisk(v, tables)
    requires forall t :: t in outputs ==> OnDisk(tables, t)
    ensures VersionOnDisk(v', tables)
  {
    forall l, t | 0 <= l < |v'| && t in v'[l] ensures OnDisk(tables, t) {
      assert t in v[l] || t in outputs;
    }
  }

  /** A commit that leaves the memtables alone leaves the logs matching them. */
  lemma CommitMatches(s: Store, s': Store)
    requires LogsMatch(s)
    requires s'.disk.logs == s.disk.logs && s'.disk.manifest.logNumber == s.disk.manifest.logNumber
    requires s'.logFile == s.logFile && s'.counter == s.counter && s'.inflight == s.inflight
    requires s'.db.mem == s.db.mem && s'.db.imm == s.db.imm && s'.db.lastSequence == s.db.lastSequence
    ensures LogsMatch(s')
  {
  }

  lemma CommitMoveKeepsInv(s: Store, level: nat, f: Table, s': Store)
    requires StoreInv(s) && CommitMoveStep(s, level, f, s')
    ensures StoreInv(s')
  {
    hide Inv, LogsMatch, VersionOnDisk, VersionEntries, LogEntries, Closed, Reshaped, OnDisk;
    MoveKeepsInv(s.db, level, f, s'.db);
    CommitMatches(s, s');
    MovedOnDisk(s, level, f, s');
    EntriesBounded(s'.db);
  }

  lemma MovedOnDisk(s: Store, level: nat, f: Table, s': Store)
    requires StoreInv(s) && CommitMoveStep(s, level, f, s')
    ensures VersionOnDisk(s'.db.version, s.disk.tables)
  {
    hide Inv, LogsMatch, LastMatches, Reshaped;
    assert f in [f] && f in s.db.version[level];
    ReshapedOnDisk(s.db.version, level, [f], [], [f], s'.db.version, s.disk.tables);
  }

  lemma CommitCompactKeepsInv(s: Store, w: Work, s': Store)
    requires StoreInv(s) && CommitCompactStep(s, w, s')
    ensures StoreInv(s')
  {
    hide Inv, LogsMatch, VersionOnDisk, VersionEntries, LogEntries, Covered, Reshaped, OnDisk, Worked;
    CompactKeepsInv(s.db, w, s'.db);
    CommitMatches(s, s');
    ReshapedOnDisk(s.db.version, w.level, w.inputs0, w.inputs1, w.outputs, s'.db.version, s.disk.tables);
    EntriesBounded(s'.db);
  }

  // ---------------------------------------------------------------- runs

  /** The process is up, or only the disk is left. */
  datatype World = Up(store: Store) | Down(disk: Disk)

  datatype Action =
    | Append(batch: seq<Op>)
    | Apply
    | SwitchLog
    | Allocate
    | WritePending(number: nat, entries: seq<Entry>)
    | CommitFlush(level: nat, number: nat, size: nat)
    | CommitMove(level: nat, table: Table)
    | CommitCompact(work: Work)
    | Pin
    | DeleteTable(number: nat)
    | DeleteLog(number: nat)
    | Snapshot(event: Event)
    | Stop
    | Recover(rebuilt: Level, newLog: nat)
    | FailRecovery

  ghost predicate StoreStep(s: Store, a: Action, s': Store) {
    match a
    case Append(batch) => AppendStep(s, batch, s')
    case Apply => ApplyStep(s, s')
    case SwitchLog => SwitchLogStep(s, s')
    case Allocate => AllocateStep(s, s')
    case WritePending(n, es) => WritePendingStep(s, n, es, s')
    case CommitFlush(level, number, size) => CommitFlushStep(s, level, number, size, s')
    case CommitMove(level, f) => CommitMoveStep(s, level, f, s')
    case CommitCompact(w) => CommitCompactStep(s, w, s')
    case Pin => PinStep(s, s')
    case DeleteTable(n) => DeleteTableStep(s, n, s')
    case DeleteLog(n) => DeleteLogStep(s, n, s')
    case Snapshot(ev) => SnapshotStep(s, ev, s')
    case _ => false
  }

  ghost predicate WorldStep(w: World, a: Action, w': World) {
    match (w, w')
    case (Up(s), Up(s')) => StoreStep(s, a, s')
    case (Up(s), Down(disk)) => a.Stop? && disk == s.disk
    case (Down(disk), Up(s')) => a.Recover? && RecoverStep(disk, a.rebuilt, a.newLog, s')
    case (Down(disk), Down(disk')) => a.FailRecovery? && FailedRecoveryStep(disk, disk')
  }

  /** What a step adds to the acknowledged writes; a stop settles a batch in flight. */
  ghost function Settled(w: World, a: Action): iset<Entry> {
    if w.Up? && (a.Apply? || a.Stop?) then Inflight(w.store) else iset{}
  }

  ghost predicate WorldInv(w: World, acked: iset<Entry>) {
    match w
    case Up(s) => StoreInv(s) && Reads(s.db, acked)
    case Down(disk) => DiskInv(disk) && DiskReads(disk, acked)
  }

  lemma StoreStepKeepsInv(s: Store, a: Action, s': Store)
    requires StoreInv(s) && StoreStep(s, a, s')
    ensures StoreInv(s')
  {
    hide StoreInv, AppendStep, ApplyStep, SwitchLogStep, AllocateStep, WritePendingStep, CommitFlushStep,
      CommitMoveStep,
      CommitCompactStep, PinStep, DeleteTableStep, DeleteLogStep, SnapshotStep;
    match a
    case Append(batch) => AppendKeepsInv(s, batch, s');
    case Apply => ApplyKeepsInv(s, s');
    case SwitchLog => SwitchLogKeepsInv(s, s');
    case Allocate => AllocateKeepsInv(s, s');
    case WritePending(n, es) => WritePendingKeepsInv(s, n, es, s');
    case CommitFlush(level, number, size) => CommitFlushKeepsInv(s, level, number, size, s');
    case CommitMove(level, f) => CommitMoveKeepsInv(s, level, f, s');
    case CommitCompact(w) => CommitCompactKeepsInv(s, w, s');
    case Pin => PinKeepsInv(s, s');
    case DeleteTable(n) => DeleteTableKeepsInv(s, n, s');
    case DeleteLog(n) => DeleteLogKeepsInv(s, n, s');
    case Snapshot(ev) => SnapshotKeepsInv(s, ev, s');
  }

  /** The step of the database that an action takes, if it takes one. */
  function DatabaseEvent(s: Store, a: Action): Option<Event> {
    match a
    case Apply => Some(Event.Write(s.inflight))
    case SwitchLog => Some(Event.Switch)
    case CommitFlush(level, number, size) => Some(Event.Flush(level, number, size))
    case CommitMove(level, f) => Some(Event.Move(level, f))
    case CommitCompact(w) => Some(Event.Compact(w))
    case Snapshot(ev) => Some(ev)
    case _ => None
  }

  lemma StoreStepIsDatabaseStep(s: Store, a: Action, s': Store)
    requires StoreStep(s, a, s')
    ensures match DatabaseEvent(s, a)
            case Some(ev) => Step(s.db, ev, s'.db)
            case None => s'.db == s.db
    ensures DatabaseEvent(s, a).Some? ==> Added(s.db, DatabaseEvent(s, a).value) == Settled(Up(s), a)
    ensures DatabaseEvent(s, a).None? ==> Settled(Up(s), a) == iset{}
  {
    hide WriteStep, SwitchStep, FlushStep, MoveStep, CompactStep, TakeSnapshotStep, ReleaseSnapshotStep, OnDisk,
      Numbers, InVersion, SeqEntries;
  }

  lemma StoreStepKeepsReads(s: Store, a: Action, s': Store, acked: iset<Entry>)
    requires StoreInv(s) && StoreStep(s, a, s') && Reads(s.db, acked)
    ensures Reads(s'.db, acked + Settled(Up(s), a))
  {
    hide Inv, LogsMatch, FilesMatch, LastMatches, StoreStep, Reads, Step, Added, Settled;
    StoreStepIsDatabaseStep(s, a, s');
    if DatabaseEvent(s, a).Some? {
      StepKeepsReads(s.db, DatabaseEvent(s, a).value, s'.db, acked);
    } else {
      assert acked + iset{} == acked;
    }
  }

  lemma WorldStepKeepsInv(w: World, a: Action, w': World, acked: iset<Entry>)
    requires WorldInv(w, acked) && WorldStep(w, a, w')
    ensures WorldInv(w', acked + Settled(w, a))
  {
    hide StoreInv, StoreStep, DiskInv, DiskReads, Reads, RecoverStep, FailedRecoveryStep, Inflight;
    match (w, w')
    case (Up(s), Up(s')) =>
      StoreStepKeepsInv(s, a, s');
      StoreStepKeepsReads(s, a, s', acked);
    case (Up(s), Down(disk)) =>
      StopLeavesGoodDisk(s);
      StopKeepsReads(s, acked);
    case (Down(disk), Up(s')) =>
      assert acked + iset{} == acked;
      RecoverKeepsInv(disk, a.rebuilt, a.newLog, s');
      RecoverKeepsReads(disk, a.rebuilt, a.newLog, s', acked);
    case (Down(disk), Down(disk')) =>
      assert acked + iset{} == acked;
      FailedRecoveryKeepsDisk(disk, disk');
      FailedManifest(disk, disk');
      SameEntriesSameDiskReads(disk, disk', acked);
  }

  lemma FailedManifest(disk: Disk, disk': Disk)
    requires FailedRecoveryStep(disk, disk')
    ensures disk'.manifest == disk.manifest
  {
  }

  /** DBImpl::NewDB: an empty manifest, to be opened as after a stop. */
  const NEW_DISK: Disk := Disk(map[], map[], Manifest([[], [], [], [], [], [], []], 0, 2, 0))

  lemma NewDiskInv()
    ensures WorldInv(Down(NEW_DISK), iset{})
  {
    hide ValidVersion, Numbered, VersionEntries;
    EmptyVersion(NEW_DISK.manifest.version);
    assert LogEntries(NEW_DISK) == iset{} && DiskEntries(NEW_DISK) == iset{};
  }

  ghost predicate WorldRun(worlds: seq<World>, actions: seq<Action>) {
    && |worlds| == |actions| + 1
    && worlds[0] == Down(NEW_DISK)
    && forall i :: 0 <= i < |actions| ==> WorldStep(worlds[i], actions[i], worlds[i + 1])
  }

  /** The writes acknowledged, or settled by a stop, in the first `n` steps. */
  ghost function Acknowledged(worlds: seq<World>, actions: seq<Action>, n: nat): iset<Entry>
    requires n <= |actions| && |worlds| == |actions| + 1
  {
    if n == 0 then iset{} else Acknowledged(worlds, actions, n - 1) + Settled(worlds[n - 1], actions[n - 1])
  }

  /**
   * At every point of every run, with any stops and recoveries: an open database reads
   * as the set of acknowledged writes, and a stopped one can be recovered to do so.
   */
  lemma {:induction false} AcknowledgedWritesSurvive(worlds: seq<World>, actions: seq<Action>, n: nat)
    requires WorldRun(worlds, actions) && n <= |actions|
    ensures WorldInv(worlds[n], Acknowledged(worlds, actions, n))
  {
    hide WorldInv, WorldStep, Settled;
    if n == 0 {
      NewDiskInv();
    } else {
      AcknowledgedWritesSurvive(worlds, actions, n - 1);
      WorldStepKeepsInv(worlds[n - 1], actions[n - 1], worlds[n], Acknowledged(worlds, actions, n - 1));
    }
  }
}
