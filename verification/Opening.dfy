/** DB::Open: the procedures of recovery, run together, open every fit disk (db/db_impl.cc). */
module Opening {
  import opened InternalKeys
  import opened Lookups
  import opened Options
  import opened Versions
  import opened VersionBuilder
  import opened LevelEdits
  import opened Database
  import opened Durability

  ghost predicate Increasing(s: seq<nat>) {
    forall i, j :: 0 <= i < j < |s| ==> s[i] < s[j]
  }

  /** The logs to replay, sorted by number. */
  method ListLogs(disk: Disk) returns (numbers: seq<nat>)
    ensures LogNumbers(disk, numbers)
  {
    numbers := [];
    var rest := disk.logs.Keys;
    while rest != {}
      invariant rest <= disk.logs.Keys && Increasing(numbers)
      invariant forall n :: n in numbers <==> n in disk.logs && n !in rest && disk.manifest.logNumber <= n
      decreases rest
    {
      hide Increasing;
      var n :| n in rest;
      if disk.manifest.logNumber <= n {
        InsertedNumber(numbers, n);
        numbers := InsertNumber(numbers, n);
      }
      rest := rest - {n};
    }
  }

  function InsertNumber(s: seq<nat>, n: nat): seq<nat> {
    if s == [] || n < s[0] then [n] + s else [s[0]] + InsertNumber(s[1..], n)
  }

  lemma {:induction false} InsertedNumber(s: seq<nat>, n: nat)
    requires Increasing(s) && n !in s
    ensures (forall x :: x in InsertNumber(s, n) <==> x in s || x == n) && Increasing(InsertNumber(s, n))
  {
    if s != [] && !(n < s[0]) {
      InsertedNumber(s[1..], n);
      var rest := InsertNumber(s[1..], n);
      assert s == [s[0]] + s[1..];
      forall x | x in rest ensures s[0] < x {
        if x != n {
          var i :| 0 <= i < |s[1..]| && s[1..][i] == x;
        }
      }
      FirstLeast(s[0], rest);
    }
  }

  lemma FirstLeast(n: nat, s: seq<nat>)
    requires Increasing(s) && forall x :: x in s ==> n < x
    ensures Increasing([n] + s)
  {
    var r := [n] + s;
    forall i, j | 0 <= i < j < |r| ensures r[i] < r[j] {
      assert r[j] == s[j - 1] && s[j - 1] in s;
    }
  }

  /** The builder's set of added files, in its order. */
  function InsertTable(ts: Level, t: Table): Level {
    if ts == [] || BySmallest(t, ts[0]) then [t] + ts else [ts[0]] + InsertTable(ts[1..], t)
  }

  lemma BySmallestOrder(a: Table, b: Table, c: Table)
    ensures a.number != b.number ==> BySmallest(a, b) || BySmallest(b, a)
    ensures BySmallest(a, b) && BySmallest(b, c) ==> BySmallest(a, c)
  {
  }

  lemma {:induction false} InsertedTable(ts: Level, t: Table)
    requires SortedBySmallest(ts) && forall x :: x in ts ==> x.number != t.number
    ensures forall x :: x in InsertTable(ts, t) <==> x in ts || x == t
    ensures SortedBySmallest(InsertTable(ts, t))
  {
    hide BySmallest;
    if ts != [] {
      BySmallestOrder(t, ts[0], t);
      if BySmallest(t, ts[0]) {
        forall i | 0 < i < |ts| ensures BySmallest(t, ts[i]) {
          BySmallestOrder(t, ts[0], ts[i]);
        }
      } else {
        InsertedTable(ts[1..], t);
        var rest := InsertTable(ts[1..], t);
        forall j | 0 <= j < |rest| ensures BySmallest(ts[0], rest[j]) {
          assert rest[j] in rest;
        }
      }
    }
  }

  method SortTables(ts: Level, ghost nextFile: nat, ghost nextFile': nat) returns (r: Level)
    requires NumberedFrom(ts, nextFile, nextFile')
    ensures SortedBySmallest(r) && forall t :: t in r <==> t in ts
  {
    r := [];
    for i := 0 to |ts|
      invariant SortedBySmallest(r) && forall t :: t in r <==> t in ts[..i]
    {
      hide SortedBySmallest;
      InsertedTable(r, ts[i]);
      r := InsertTable(r, ts[i]);
      assert ts[..i + 1] == ts[..i] + [ts[i]];
    }
    assert ts[..|ts|] == ts;
  }

  /** The rebuilt tables, written to the disk. */
  function WithTables(tables: map<nat, seq<Entry>>, ts: Level): map<nat, seq<Entry>> {
    if ts == [] then tables else WithTables(tables, ts[..|ts| - 1])[ts[|ts| - 1].number := ts[|ts| - 1].entries]
  }

  lemma {:induction false} TablesWritten(tables: map<nat, seq<Entry>>, ts: Level, nextFile: nat, nextFile': nat)
    requires NumberedFrom(ts, nextFile, nextFile')
    ensures var all := WithTables(tables, ts);
      && (forall t :: t in ts ==> OnDisk(all, t))
      && (forall n :: n in tables && n < nextFile ==> n in all && all[n] == tables[n])
  {
    hide NumberedFrom;
    if ts != [] {
      var init, last := ts[..|ts| - 1], ts[|ts| - 1];
      OtherNumbers(ts, nextFile, nextFile');
      TablesWritten(tables, init, nextFile, nextFile');
      forall t | t in ts ensures OnDisk(WithTables(tables, ts), t) {
        EarlierOrLast(ts, t);
        OneMoreOnDisk(WithTables(tables, init), last, t);
      }
    }
  }

  lemma EarlierOrLast(ts: Level, t: Table)
    requires t in ts
    ensures t in ts[..|ts| - 1] || t == ts[|ts| - 1]
  {
    assert ts == ts[..|ts| - 1] + [ts[|ts| - 1]];
  }

  lemma OneMoreOnDisk(tables: map<nat, seq<Entry>>, last: Table, t: Table)
    requires t == last || (OnDisk(tables, t) && t.number != last.number)
    ensures OnDisk(tables[last.number := last.entries], t)
  {
  }

  lemma OtherNumbers(ts: Level, nextFile: nat, nextFile': nat)
    requires NumberedFrom(ts, nextFile, nextFile') && ts != []
    ensures var init, last := ts[..|ts| - 1], ts[|ts| - 1];
      && NumberedFrom(init, nextFile, nextFile') && last.number >= nextFile
      && forall t :: t in init ==> t.number != last.number
  {
    var init, last := ts[..|ts| - 1], ts[|ts| - 1];
    forall t | t in init ensures t.number != last.number {
      var i :| 0 <= i < |init| && init[i] == t;
      assert ts[i] == t;
    }
  }

  /** The tables joined to the manifest's version. */
  method JoinTables(v: Version, nextFile: nat, ts: Level, ghost nextFile': nat) returns (v': Version)
    requires |v| == NUM_LEVELS && Numbered(v, nextFile) && NumberedFrom(ts, nextFile, nextFile')
    ensures RecoveredVersion(v, ts, v')
  {
    var sorted := SortTables(ts, nextFile, nextFile');
    hide SortedBySmallest;
    forall s, t | s in v[0] && t in sorted ensures s.number != t.number {
      assert t in ts;
    }
    var r := SaveTo(v[0], sorted, {});
    v' := v[0 := r];
  }

  /** A number from `n` on that is above all others. */
  method Above(numbers: set<nat>, n: nat) returns (r: nat)
    ensures r >= n && forall m :: m in numbers ==> m < r
  {
    r := n;
    var rest := numbers;
    while rest != {}
      invariant r >= n && rest <= numbers && forall m :: m in numbers && m !in rest ==> m < r
      decreases rest
    {
      var m :| m in rest;
      if r <= m {
        r := m + 1;
      }
      rest := rest - {m};
    }
  }

  lemma Opened(disk: Disk, ts: Level, newLog: nat, v: Version, last: nat, tables: map<nat, seq<Entry>>, s: Store)
    requires Rebuilt(disk, ts, newLog + 1) && (forall n :: n in disk.logs ==> n < newLog)
    requires RecoveredLast(disk, last) && RecoveredVersion(disk.manifest.version, ts, v)
    requires forall t :: t in ts ==> OnDisk(tables, t)
    requires forall n :: n in disk.tables && n < disk.manifest.nextFile ==> n in tables && tables[n] == disk.tables[n]
    requires s == Store(State([], None, v, last, [], newLog + 1),
                        Disk(disk.logs[newLog := []], tables, Manifest(v, newLog, newLog + 1, last)),
                        newLog + 1, newLog, {}, {}, [])
    ensures RecoverStep(disk, ts, newLog, s)
  {
    hide Rebuilt, RecoveredLast, RecoveredVersion, OnDisk;
  }

  /** Every fit disk opens, whatever makes a memtable full: DB::Open with Recover and LogAndApply. */
  method Open(disk: Disk, full: seq<Entry> -> bool, size: seq<Entry> -> nat)
    returns (ts: Level, newLog: nat, s: Store)
    requires DiskInv(disk)
    ensures RecoverStep(disk, ts, newLog, s) && StoreInv(s)
  {
    hide DiskInv, Rebuilt, RecoveredLast, RecoveredVersion, OnDisk, StoreInv, WithTables, LogNumbers, LogOrder,
      Numbered, NumberedFrom, RecoverStep;
    FitParts(disk);
    var numbers := ListLogs(disk);
    var nextFile, last := disk.manifest.nextFile, 0;
    ts, last := RecoverLogs(disk, numbers, full, size);
    RebuiltNumbers(disk, ts, nextFile + |ts|);
    var v' := JoinTables(disk.manifest.version, nextFile, ts, nextFile + |ts|);
    newLog := Above(disk.logs.Keys, nextFile + |ts|);
    TablesWritten(disk.tables, ts, nextFile, nextFile + |ts|);
    RebuiltLater(disk, ts, nextFile + |ts|, newLog + 1);
    var tables := WithTables(disk.tables, ts);
    s := Store(State([], None, v', last, [], newLog + 1),
               Disk(disk.logs[newLog := []], tables, Manifest(v', newLog, newLog + 1, last)),
               newLog + 1, newLog, {}, {}, []);
    Opened(disk, ts, newLog, v', last, tables, s);
    RecoverKeepsInv(disk, ts, newLog, s);
  }

  lemma FitParts(disk: Disk)
    requires DiskInv(disk)
    ensures LogOrder(disk.logs, disk.manifest.logNumber) && |disk.manifest.version| == NUM_LEVELS
    ensures Numbered(disk.manifest.version, disk.manifest.nextFile)
  {
    hide LogOrder, Numbered, Newer, Unique, VersionOnDisk, VersionEntries;
  }

  lemma RebuiltNumbers(disk: Disk, ts: Level, nextFile: nat)
    requires Rebuilt(disk, ts, nextFile)
    ensures NumberedFrom(ts, disk.manifest.nextFile, nextFile)
  {
    hide ValidLevel, TablesAscend, NumberedFrom;
  }

  lemma RebuiltLater(disk: Disk, ts: Level, nextFile: nat, nextFile': nat)
    requires Rebuilt(disk, ts, nextFile) && nextFile <= nextFile'
    ensures Rebuilt(disk, ts, nextFile')
  {
  }
}
