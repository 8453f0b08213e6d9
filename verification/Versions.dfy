/** Tables, versions and point lookups through the levels (db/version_set.cc). */
module Versions {
  import opened InternalKeys
  import opened Lookups
  import opened Options

  const NUM_LEVELS: nat := 7

  /** FileMetaData, with the contents of the table it names. */
  datatype Table = Table(number: nat, size: nat, smallest: Entry, largest: Entry, entries: seq<Entry>)

  type Level = seq<Table>
  type Version = seq<Level>

  ghost predicate ValidTable(t: Table) {
    && |t.entries| > 0
    && Sorted(t.entries)
    && t.smallest == t.entries[0]
    && t.largest == t.entries[|t.entries| - 1]
  }

  predicate Covers(t: Table, user: UserKey) {
    t.smallest.user <= user <= t.largest.user
  }

  ghost function LevelEntries(ts: Level): iset<Entry> {
    iset e, t | t in ts && e in t.entries :: e
  }

  ghost function VersionEntries(v: Version): iset<Entry> {
    iset e, ts | ts in v && e in LevelEntries(ts) :: e
  }

  /** Sorted and disjoint in internal-key order, as every level but the first is kept. */
  ghost predicate Disjoint(ts: Level) {
    forall i, j :: 0 <= i < j < |ts| ==> Before(ts[i].largest, ts[j].smallest)
  }

  /** In the first level tables may overlap; a larger file number means newer data. */
  ghost predicate AgeOrdered(ts: Level) {
    && (forall i, j :: 0 <= i < j < |ts| ==> ts[i].number != ts[j].number)
    && (forall s, t :: s in ts && t in ts && s.number < t.number ==>
        Newer(SeqEntries(t.entries), SeqEntries(s.entries)))
  }

  ghost predicate ValidLevel(ts: Level) {
    forall t :: t in ts ==> ValidTable(t)
  }

  /** A shallower level is newer than a deeper one in every user key they share. */
  ghost predicate LevelsOrdered(v: Version) {
    forall i, j :: 0 <= i < j < |v| ==> Newer(LevelEntries(v[i]), LevelEntries(v[j]))
  }

  ghost predicate ValidVersion(v: Version) {
    && |v| == NUM_LEVELS
    && (forall i :: 0 <= i < NUM_LEVELS ==> ValidLevel(v[i]))
    && (forall i :: 1 <= i < NUM_LEVELS ==> Disjoint(v[i]))
    && AgeOrdered(v[0])
    && LevelsOrdered(v)
  }

  /** Each level is in order, whatever the levels are to each other. */
  ghost predicate ValidLevels(v: Version) {
    && |v| == NUM_LEVELS
    && (forall i :: 0 <= i < NUM_LEVELS ==> ValidLevel(v[i]))
    && (forall i :: 1 <= i < NUM_LEVELS ==> Disjoint(v[i]))
    && AgeOrdered(v[0])
  }

  /** `r` is the answer of the first level that holds a visible entry. */
  ghost predicate FirstAnswer(v: Version, user: UserKey, snapshot: nat, r: Option<Entry>) {
    match r
    case None => forall i :: 0 <= i < |v| ==> IsNewest(LevelEntries(v[i]), user, snapshot, None)
    case Some(_) => exists level :: AnswersFirst(v, level, user, snapshot, r)
  }

  ghost predicate AnswersFirst(v: Version, level: nat, user: UserKey, snapshot: nat, r: Option<Entry>) {
    && level < |v| && IsNewest(LevelEntries(v[level]), user, snapshot, r)
    && forall i :: 0 <= i < level ==> IsNewest(LevelEntries(v[i]), user, snapshot, None)
  }

  lemma ValidSnoc(ts: Level, t: Table)
    requires ValidLevel(ts) && t.entries != [] && Sorted(t.entries)
    requires t.smallest == t.entries[0] && t.largest == t.entries[|t.entries| - 1]
    ensures ValidLevel(ts + [t])
  {
    assert ValidTable(t);
    hide ValidTable, Sorted;
  }

  /** An entry lies between the bounds of its table. */
  lemma EntryInBounds(t: Table, e: Entry)
    requires ValidTable(t) && e in t.entries
    ensures Covers(t, e.user)
    ensures !Before(e, t.smallest) && !Before(t.largest, e)
  {
    var i :| 0 <= i < |t.entries| && t.entries[i] == e;
    assert i == 0 || Before(t.entries[0], t.entries[i]);
    assert i == |t.entries| - 1 || Before(t.entries[i], t.entries[|t.entries| - 1]);
  }

  /** FindFile: the first table whose largest key is not before `key`. */
  method FindFile(ts: Level, key: Entry) returns (r: nat)
    requires ValidLevel(ts) && Disjoint(ts)
    ensures r <= |ts|
    ensures forall i :: 0 <= i < r ==> Before(ts[i].largest, key)
    ensures forall i :: r <= i < |ts| ==> !Before(ts[i].largest, key)
  {
    var left, right := 0, |ts|;
    while left < right
      invariant 0 <= left <= right <= |ts|
      invariant forall i :: 0 <= i < left ==> Before(ts[i].largest, key)
      invariant forall i :: right <= i < |ts| ==> !Before(ts[i].largest, key)
    {
      var mid := (left + right) / 2;
      LargestIncreases(ts, mid);
      if Before(ts[mid].largest, key) {
        left := mid + 1;
      } else {
        right := mid;
      }
    }
    r := right;
  }

  /** Along a disjoint level the largest keys increase. */
  lemma LargestIncreases(ts: Level, m: nat)
    requires ValidLevel(ts) && Disjoint(ts) && m < |ts|
    ensures forall i :: 0 <= i < m ==> Before(ts[i].largest, ts[m].largest)
    ensures forall i :: m < i < |ts| ==> Before(ts[m].largest, ts[i].largest)
  {
    forall i, j | 0 <= i < j < |ts| ensures Before(ts[i].largest, ts[j].largest) {
      EntryInBounds(ts[j], ts[j].largest);
    }
  }

  /** Probing the single table that FindFile selects reads the whole disjoint level. */
  method GetFromLevel(ts: Level, user: UserKey, snapshot: nat) returns (r: Option<Entry>)
    requires ValidLevel(ts) && Disjoint(ts)
    ensures IsNewest(LevelEntries(ts), user, snapshot, r)
  {
    var index := FindFile(ts, SeekKey(user, snapshot));
    r := None;
    if index < |ts| && !(user < ts[index].smallest.user) {
      r := SeekGet(ts[index].entries, user, snapshot);
      assert ValidTable(ts[index]);
      SeekGetNewest(ts[index].entries, user, snapshot);
    }
    forall t, e | t in ts && e in t.entries && Visible(e, user, snapshot)
      ensures r.Some? && e.seqno <= r.value.seqno
    {
      var i :| 0 <= i < |ts| && ts[i] == t;
      EntryInBounds(t, e);
      assert index <= i;
      if index < i {
        LargestIncreases(ts, index);
        EntryInBounds(ts[index], ts[index].largest);
        assert Before(ts[index].largest, ts[i].smallest);
        VisibleBounds(ts[index], user, snapshot, e);
      }
    }
  }

  /**
   * If a table's largest key is at or after the seek key, and an entry visible to the
   * lookup sorts after the whole table, the table itself holds a newer visible one.
   */
  lemma VisibleBounds(t: Table, user: UserKey, snapshot: nat, later: Entry)
    requires ValidTable(t) && !Before(t.largest, SeekKey(user, snapshot))
    requires Visible(later, user, snapshot) && Before(t.largest, later)
    ensures t.smallest.user <= user
    ensures Visible(t.largest, user, snapshot) && t.largest.seqno >= later.seqno
    ensures t.largest in t.entries
  {
    EntryInBounds(t, t.largest);
  }

  /** std::sort with NewestFirst. */
  function SortNewestFirst(ts: Level): (r: Level)
    ensures |r| == |ts| && forall t :: t in r <==> t in ts
    ensures forall i, j :: 0 <= i < j < |r| ==> r[i].number >= r[j].number
  {
    if ts == [] then [] else InsertNewestFirst(ts[0], SortNewestFirst(ts[1..]))
  }

  function InsertNewestFirst(t: Table, ts: Level): (r: Level)
    requires forall i, j :: 0 <= i < j < |ts| ==> ts[i].number >= ts[j].number
    ensures |r| == |ts| + 1 && forall x :: x in r <==> x == t || x in ts
    ensures forall i, j :: 0 <= i < j < |r| ==> r[i].number >= r[j].number
  {
    if ts == [] || t.number >= ts[0].number then [t] + ts
    else
      var rest := InsertNewestFirst(t, ts[1..]);
      assert forall j :: 0 <= j < |rest| ==> rest[j] in rest;
      [ts[0]] + rest
  }

  /** The overlapping first-level tables, probed from the newest file number down. */
  method GetFromLevel0(ts: Level, user: UserKey, snapshot: nat) returns (r: Option<Entry>)
    requires ValidLevel(ts) && AgeOrdered(ts)
    ensures IsNewest(LevelEntries(ts), user, snapshot, r)
  {
    var found: Level := [];
    for i := 0 to |ts|
      invariant forall t :: t in found <==> t in ts[..i] && Covers(t, user)
    {
      if ts[i].smallest.user <= user && user <= ts[i].largest.user {
        found := found + [ts[i]];
      }
    }
    var probe := SortNewestFirst(found);
    r := None;
    for i := 0 to |probe|
      invariant r == None
      invariant forall j :: 0 <= j < i ==> IsNewest(SeqEntries(probe[j].entries), user, snapshot, None)
    {
      assert probe[i] in probe && ValidTable(probe[i]);
      r := SeekGet(probe[i].entries, user, snapshot);
      SeekGetNewest(probe[i].entries, user, snapshot);
      if r.Some? {
        Level0Found(ts, probe, i, user, snapshot, r);
        return;
      }
    }
    forall t, e | t in ts && e in t.entries ensures !Visible(e, user, snapshot) {
      EntryInBounds(t, e);
    }
  }

  lemma Level0Found(ts: Level, probe: Level, i: nat, user: UserKey, snapshot: nat, r: Option<Entry>)
    requires ValidLevel(ts) && AgeOrdered(ts) && i < |probe|
    requires forall t :: t in probe <==> t in ts && Covers(t, user)
    requires forall m, n :: 0 <= m < n < |probe| ==> probe[m].number >= probe[n].number
    requires forall j :: 0 <= j < i ==> IsNewest(SeqEntries(probe[j].entries), user, snapshot, None)
    requires r.Some? && IsNewest(SeqEntries(probe[i].entries), user, snapshot, r)
    ensures IsNewest(LevelEntries(ts), user, snapshot, r)
  {
    forall t, e | t in ts && e in t.entries && Visible(e, user, snapshot)
      ensures e.seqno <= r.value.seqno
    {
      EntryInBounds(t, e);
      var j :| 0 <= j < |probe| && probe[j] == t;
      assert e in SeqEntries(probe[j].entries);
      if j > i && t.number == probe[i].number {
        SameNumber(ts, t, probe[i]);
      } else if j > i {
        assert r.value in SeqEntries(probe[i].entries);
      }
    }
  }

  lemma SameNumber(ts: Level, a: Table, b: Table)
    requires AgeOrdered(ts) && a in ts && b in ts && a.number == b.number
    ensures a == b
  {
  }

  /** Version::Get: the first level with a visible entry answers, with the newest entry if levels are ordered. */
  method Get(v: Version, user: UserKey, snapshot: nat) returns (r: Option<Entry>)
    requires ValidLevels(v)
    ensures FirstAnswer(v, user, snapshot, r)
    ensures LevelsOrdered(v) ==> IsNewest(VersionEntries(v), user, snapshot, r)
  {
    r := None;
    for level := 0 to NUM_LEVELS
      invariant r == None
      invariant forall i :: 0 <= i < level ==> IsNewest(LevelEntries(v[i]), user, snapshot, None)
    {
      if level == 0 {
        r := GetFromLevel0(v[0], user, snapshot);
      } else {
        r := GetFromLevel(v[level], user, snapshot);
      }
      if r.Some? {
        assert AnswersFirst(v, level, user, snapshot, r);
        if LevelsOrdered(v) {
          LevelFound(v, level, user, snapshot, r);
        }
        return;
      }
    }
  }

  lemma LevelFound(v: Version, level: nat, user: UserKey, snapshot: nat, r: Option<Entry>)
    requires LevelsOrdered(v) && level < |v|
    requires forall i :: 0 <= i < level ==> IsNewest(LevelEntries(v[i]), user, snapshot, None)
    requires r.Some? && IsNewest(LevelEntries(v[level]), user, snapshot, r)
    ensures IsNewest(VersionEntries(v), user, snapshot, r)
  {
    forall ts, e | ts in v && e in LevelEntries(ts) && Visible(e, user, snapshot)
      ensures e.seqno <= r.value.seqno
    {
      var i :| 0 <= i < |v| && v[i] == ts;
      if level < i {
        assert Newer(LevelEntries(v[level]), LevelEntries(v[i]));
      }
    }
  }
}
