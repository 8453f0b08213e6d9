/**
 * When moving a table down a level is safe. A level may be cut between two versions of
 * one user key; moving the table with the newer version then uncovers the older one.
 */
module TrivialMoves {
  import opened InternalKeys
  import opened Lookups
  import opened Options
  import opened Versions
  import opened VersionBuilder
  import opened Picking
  import opened LevelEdits

  /** Version::Get from `level` down: the first level that holds a visible entry answers. */
  ghost function LookupFrom(v: Version, level: nat, user: UserKey, snapshot: nat): Option<Entry>
    decreases |v| - level
  {
    if level >= |v| then None
    else
      var r := Newest(LevelEntries(v[level]), user, snapshot);
      if r.Some? then r else LookupFrom(v, level + 1, user, snapshot)
  }

  /** Version::Get on a version whose levels each are in order returns what `LookupFrom` does. */
  method GetIsLookup(v: Version, user: UserKey, snapshot: nat) returns (r: Option<Entry>)
    requires ValidLevels(v) && forall l :: 0 <= l < |v| ==> Unique(LevelEntries(v[l]))
    ensures r == LookupFrom(v, 0, user, snapshot)
  {
    r := Get(v, user, snapshot);
    FirstAnswerIsLookup(v, user, snapshot, r);
  }

  lemma FirstAnswerIsLookup(v: Version, user: UserKey, snapshot: nat, r: Option<Entry>)
    requires FirstAnswer(v, user, snapshot, r) && forall l :: 0 <= l < |v| ==> Unique(LevelEntries(v[l]))
    ensures r == LookupFrom(v, 0, user, snapshot)
  {
    match r
    case None => AllPass(v, 0, user, snapshot);
    case Some(e) =>
      var level :| AnswersFirst(v, level, user, snapshot, r);
      AnswersAt(v, level, user, snapshot, e);
  }

  lemma {:induction false} AllPass(v: Version, from: nat, user: UserKey, snapshot: nat)
    requires forall i :: 0 <= i < |v| ==> IsNewest(LevelEntries(v[i]), user, snapshot, None)
    ensures LookupFrom(v, from, user, snapshot) == None
    decreases |v| - from
  {
    if from < |v| {
      assert Newest(LevelEntries(v[from]), user, snapshot).None?;
      AllPass(v, from + 1, user, snapshot);
    }
  }

  ghost predicate SameLookups(v: Version, v': Version) {
    forall user, snapshot :: LookupFrom(v, 0, user, snapshot) == LookupFrom(v', 0, user, snapshot)
  }

  /** The levels from `level` down. */
  ghost function EntriesFrom(v: Version, level: nat): iset<Entry> {
    iset e, l | level <= l < |v| && e in LevelEntries(v[l]) :: e
  }

  lemma {:induction false} LookupIsNewest(v: Version, level: nat, user: UserKey, snapshot: nat)
    requires LevelsOrdered(v)
    ensures IsNewest(EntriesFrom(v, level), user, snapshot, LookupFrom(v, level, user, snapshot))
    decreases |v| - level
  {
    if level < |v| {
      LookupIsNewest(v, level + 1, user, snapshot);
      var r, q := Newest(LevelEntries(v[level]), user, snapshot), LookupFrom(v, level + 1, user, snapshot);
      forall x, y | x in LevelEntries(v[level]) && y in EntriesFrom(v, level + 1) && x.user == y.user
        ensures x.seqno > y.seqno
      {
        var l :| level + 1 <= l < |v| && y in LevelEntries(v[l]);
        assert Newer(LevelEntries(v[level]), LevelEntries(v[l]));
      }
      NewestFirst(LevelEntries(v[level]), EntriesFrom(v, level + 1), user, snapshot, r, q);
      assert LevelEntries(v[level]) + EntriesFrom(v, level + 1) == EntriesFrom(v, level);
    }
  }

  lemma AllEntries(v: Version)
    ensures EntriesFrom(v, 0) == VersionEntries(v)
  {
    assert forall l :: 0 <= l < |v| ==> v[l] in v;
  }

  lemma SameEntriesSameLookups(v: Version, v': Version)
    requires ValidVersion(v) && ValidVersion(v') && Unique(VersionEntries(v))
    requires VersionEntries(v) == VersionEntries(v')
    ensures SameLookups(v, v')
  {
    AllEntries(v);
    AllEntries(v');
    forall user, snapshot ensures LookupFrom(v, 0, user, snapshot) == LookupFrom(v', 0, user, snapshot) {
      LookupIsNewest(v, 0, user, snapshot);
      LookupIsNewest(v', 0, user, snapshot);
      NewestIsUnique(VersionEntries(v), user, snapshot, LookupFrom(v, 0, user, snapshot),
                     LookupFrom(v', 0, user, snapshot));
    }
  }

  /** Levels that hold nothing visible pass a lookup on. */
  lemma {:induction false} LookupReaches(v: Version, from: nat, level: nat, user: UserKey, snapshot: nat)
    requires from <= level < |v|
    requires forall l, x :: from <= l < level && x in LevelEntries(v[l]) ==> !Visible(x, user, snapshot)
    ensures LookupFrom(v, from, user, snapshot) == LookupFrom(v, level, user, snapshot)
    decreases level - from
  {
    if from < level {
      assert Newest(LevelEntries(v[from]), user, snapshot).None?;
      LookupReaches(v, from + 1, level, user, snapshot);
    }
  }

  /** An entry in two tables of a level would be in both orders at once. */
  lemma OneTable(ts: Level, i: nat, j: nat, e: Entry)
    requires ValidLevel(ts) && Disjoint(ts) && i < |ts| && j < |ts|
    requires e in ts[i].entries && e in ts[j].entries
    ensures i == j
  {
    EntryInBounds(ts[i], e);
    EntryInBounds(ts[j], e);
  }

  /** What a move does to the level it leaves. */
  lemma MovedOut(v: Version, nextFile: nat, level: nat, f: Table, v': Version)
    requires Numbered(v, nextFile) && Reshaped(v, level, [f], [], [f], v') && f in v[level]
    ensures LevelEntries(v'[level]) == Unchosen(v[level], [f])
  {
    assert forall t :: t in [f] ==> t in v[level];
    ReshapedLevel(v, nextFile, level, [f], [], [f], v');
  }

  /** The entries at a cut: the last of one table and the first of the next. */
  lemma AtCut(ts: Level, i: nat)
    requires ValidLevel(ts) && Disjoint(ts) && i + 1 < |ts|
    requires ts[i].largest.user == ts[i + 1].smallest.user
    ensures ts[i].largest in LevelEntries(ts) && ts[i].largest !in Unchosen(ts, [ts[i]])
    ensures ts[i + 1].smallest in Unchosen(ts, [ts[i]]) && ts[i + 1].smallest.seqno <= ts[i].largest.seqno
  {
    var f, g := ts[i], ts[i + 1];
    assert f in ts && g in ts && f.largest in f.entries && g.smallest in g.entries;
    assert Before(f.largest, g.smallest);
    assert f != g;
    if f.largest in Unchosen(ts, [f]) {
      var t :| t in ts && t !in [f] && f.largest in t.entries;
      var j :| 0 <= j < |ts| && ts[j] == t;
      OneTable(ts, i, j, f.largest);
    }
  }

  lemma LastOfKey(ts: Level, e: Entry)
    requires Unique(LevelEntries(ts)) && e in LevelEntries(ts)
    ensures Newest(LevelEntries(ts), e.user, e.seqno) == Some(e)
  {
    NewestIsUnique(LevelEntries(ts), e.user, e.seqno, Newest(LevelEntries(ts), e.user, e.seqno), Some(e));
  }

  /** At a cut, taking the first table away changes what the level itself answers. */
  lemma CutLevel(ts: Level, i: nat)
    requires ValidLevel(ts) && Disjoint(ts) && Unique(LevelEntries(ts)) && i + 1 < |ts|
    requires ts[i].largest.user == ts[i + 1].smallest.user
    ensures var e := ts[i].largest;
      && e in LevelEntries(ts)
      && Newest(LevelEntries(ts), e.user, e.seqno) == Some(e)
      && Newest(Unchosen(ts, [ts[i]]), e.user, e.seqno).Some?
      && Newest(Unchosen(ts, [ts[i]]), e.user, e.seqno) != Some(e)
  {
    hide ValidLevel, Disjoint, Unique, LevelEntries, Unchosen, Newest;
    AtCut(ts, i);
    LastOfKey(ts, ts[i].largest);
    var e, x := ts[i].largest, ts[i + 1].smallest;
    assert Visible(x, e.user, e.seqno) && x in Unchosen(ts, [ts[i]]);
  }

  lemma LevelsInOrder(v: Version, level: nat)
    requires ValidVersion(v) && Unique(VersionEntries(v)) && 0 < level < NUM_LEVELS
    ensures |v| == NUM_LEVELS && LevelsOrdered(v) && ValidLevel(v[level]) && Disjoint(v[level])
    ensures Unique(LevelEntries(v[level]))
  {
    LevelUnique(v, level);
  }

  /** Levels that a move does not touch pass a lookup on as they did. */
  lemma SameAbove(v: Version, v': Version, level: nat, user: UserKey, snapshot: nat)
    requires level < |v| == |v'| && forall l :: 0 <= l < level ==> v'[l] == v[l]
    requires forall l, x :: 0 <= l < level && x in LevelEntries(v[l]) ==> !Visible(x, user, snapshot)
    ensures LookupFrom(v, 0, user, snapshot) == LookupFrom(v, level, user, snapshot)
    ensures LookupFrom(v', 0, user, snapshot) == LookupFrom(v', level, user, snapshot)
  {
    hide LevelEntries, LookupFrom;
    LookupReaches(v, 0, level, user, snapshot);
    LookupReaches(v', 0, level, user, snapshot);
  }

  /** Moving a table whose last user key continues in the next table changes a lookup. */
  lemma CutMoveIsSeen(v: Version, nextFile: nat, level: nat, i: nat, v': Version)
    requires ValidVersion(v) && Numbered(v, nextFile) && Unique(VersionEntries(v))
    requires 0 < level && level + 1 < NUM_LEVELS && i + 1 < |v[level]|
    requires v[level][i].largest.user == v[level][i + 1].smallest.user
    requires Reshaped(v, level, [v[level][i]], [], [v[level][i]], v')
    ensures !SameLookups(v, v')
  {
    hide ValidVersion, Numbered, Unique, VersionEntries, ValidLevel, Disjoint, LevelsOrdered, Newest, LevelEntries,
      Unchosen, Saved;
    LevelsInOrder(v, level);
    var f := v[level][i];
    var e := f.largest;
    CutLevel(v[level], i);
    ShallowerThan(v, level, e);
    MovedOut(v, nextFile, level, f, v');
    SameAbove(v, v', level, e.user, e.seqno);
    assert LookupFrom(v, 0, e.user, e.seqno) != LookupFrom(v', 0, e.user, e.seqno);
  }

  /**
   * A move of a single table with nothing under it below the first level keeps every
   * lookup at every snapshot exactly when the level is not cut after that table.
   */
  lemma MoveKeepsLookupsExactlyWhenUncut(v: Version, nextFile: nat, level: nat, f: Table, v': Version)
    requires ValidVersion(v) && Numbered(v, nextFile) && Unique(VersionEntries(v))
    requires 0 < level && level + 1 < NUM_LEVELS == |v| && Picked(v, level, [f], [])
    requires Reshaped(v, level, [f], [], [f], v')
    ensures SameLookups(v, v') <==> Uncut(v[level], [f])
  {
    hide ValidVersion, Numbered, Unique, VersionEntries, Picked, Reshaped, SameLookups;
    if Uncut(v[level], [f]) {
      assert Uncut(v[level + 1], []);
      MovedVersion(v, nextFile, level, f, v');
      SameEntriesSameLookups(v, v');
    } else {
      var i :| 0 <= i < |v[level]| - 1 && v[level][i] in [f] && v[level][i + 1] !in [f]
        && v[level][i].largest.user == v[level][i + 1].smallest.user;
      CutMoveIsSeen(v, nextFile, level, i, v');
    }
  }

  /** A closed move changes neither the entries nor their order. */
  lemma MovedVersion(v: Version, nextFile: nat, level: nat, f: Table, v': Version)
    requires ValidVersion(v) && Numbered(v, nextFile) && Unique(VersionEntries(v))
    requires Closed(v, level, [f], []) && Reshaped(v, level, [f], [], [f], v')
    ensures ValidVersion(v') && Numbered(v', nextFile) && VersionEntries(v') == VersionEntries(v)
  {
    assert f in [f] && [f] + [] == [f];
    MovedFresh(v, nextFile, level, f);
    ReshapedValid(v, nextFile, level, [f], [], [f], v');
    ReshapedEntries(v, nextFile, level, [f], [], [f], v');
    MovedNumbered(v, nextFile, level, f, v');
  }

  lemma MovedFresh(v: Version, nextFile: nat, level: nat, f: Table)
    requires ValidVersion(v) && Numbered(v, nextFile) && Picked(v, level, [f], [])
    ensures FreshNumbers(v, level, [f], [])
    ensures ValidLevel([f]) && Disjoint([f])
  {
    assert f in [f];
  }

  lemma ShallowerThan(v: Version, level: nat, e: Entry)
    requires LevelsOrdered(v) && level < |v| && e in LevelEntries(v[level])
    ensures forall l, x :: 0 <= l < level && x in LevelEntries(v[l]) ==> !Visible(x, e.user, e.seqno)
  {
    forall l, x | 0 <= l < level && x in LevelEntries(v[l]) ensures !Visible(x, e.user, e.seqno) {
      assert Newer(LevelEntries(v[l]), LevelEntries(v[level]));
    }
  }

  /** One entry in a table of its own. */
  function Single(number: nat, size: nat, e: Entry): Table {
    Table(number, size, e, e, [e])
  }

  /** Two tables in level 3 and nothing else. */
  function TwoTables(f: Table, g: Table): Version {
    [[], [], [], [f, g], [], [], []]
  }

  /** The first of them one level down. */
  function FirstMoved(f: Table, g: Table): Version {
    [[], [], [], [g], [f], [], []]
  }

  /** `f` and `g` hold one version of a user key each, the newer first. */
  ghost predicate CutPair(f: Table, g: Table) {
    && f == Single(f.number, f.size, f.smallest) && g == Single(g.number, g.size, g.smallest) && f.number < g.number
    && f.smallest.user == g.smallest.user && f.smallest.seqno > g.smallest.seqno
  }

  /** A key cut between two tables: the code may pick the first of them to move. */
  lemma CutIsPicked(f: Table, g: Table)
    requires CutPair(f, g)
    ensures var v := TwoTables(f, g);
      && ValidVersion(v) && Numbered(v, g.number + 1) && Unique(VersionEntries(v))
      && Picked(v, 3, [f], []) && Reshaped(v, 3, [f], [], [f], FirstMoved(f, g))
      && !Uncut(v[3], [f])
  {
    hide ValidVersion, Numbered, Unique, VersionEntries, Picked, Reshaped;
    var v := TwoTables(f, g);
    assert v[3][0] == f && v[3][1] == g;
    CutValid(v, f, g);
    CutNumbered(v, f, g);
    CutPicked(v, f, g);
    CutReshaped(v, FirstMoved(f, g), f, g);
  }

  ghost predicate IsCut(v: Version, f: Table, g: Table) {
    && |v| == NUM_LEVELS && v[3] == [f, g] && forall l :: 0 <= l < NUM_LEVELS && l != 3 ==> v[l] == []
  }

  lemma OnlyTwo(v: Version, f: Table, g: Table, l: nat, t: Table)
    requires IsCut(v, f, g) && l < NUM_LEVELS && t in v[l]
    ensures l == 3 && (t == f || t == g)
  {
  }

  lemma CutEntries(v: Version, f: Table, g: Table)
    requires IsCut(v, f, g)
    ensures forall l :: 0 <= l < NUM_LEVELS && l != 3 ==> LevelEntries(v[l]) == iset{}
    ensures forall e :: e in VersionEntries(v) ==> e in f.entries || e in g.entries
  {
    forall e | e in VersionEntries(v) ensures e in f.entries || e in g.entries {
      var ts :| ts in v && e in LevelEntries(ts);
      var l :| 0 <= l < |v| && v[l] == ts;
      var t :| t in v[l] && e in t.entries;
      OnlyTwo(v, f, g, l, t);
    }
  }

  lemma CutValid(v: Version, f: Table, g: Table)
    requires IsCut(v, f, g) && CutPair(f, g)
    ensures ValidVersion(v) && Unique(VersionEntries(v))
  {
    CutEntries(v, f, g);
    assert forall t :: t in v[3] <==> t == f || t == g;
    assert ValidTable(f) && ValidTable(g);
  }

  lemma CutNumbered(v: Version, f: Table, g: Table)
    requires IsCut(v, f, g) && CutPair(f, g)
    ensures Numbered(v, g.number + 1)
  {
    hide IsCut, BySmallest;
    forall l, t | 0 <= l < |v| && t in v[l] ensures l == 3 && (t == f || t == g) {
      CutSize(v, f, g);
      OnlyTwo(v, f, g, l, t);
    }
    forall l | 0 <= l < |v| ensures SortedBySmallest(v[l]) {
      CutSorted(v, f, g, l);
    }
  }

  lemma CutSize(v: Version, f: Table, g: Table)
    requires IsCut(v, f, g)
    ensures |v| == NUM_LEVELS
  {
  }

  lemma CutSorted(v: Version, f: Table, g: Table, l: nat)
    requires IsCut(v, f, g) && CutPair(f, g) && l < |v|
    ensures SortedBySmallest(v[l])
  {
    assert BySmallest(f, g);
  }

  lemma CutPicked(v: Version, f: Table, g: Table)
    requires |v| == NUM_LEVELS && v[3] == [f, g] && v[4] == []
    ensures Picked(v, 3, [f], [])
  {
    assert f in v[3];
  }

  lemma CutReshaped(v: Version, v': Version, f: Table, g: Table)
    requires |v| == |v'| == NUM_LEVELS && v[3] == [f, g] && v[4] == [] && v'[3] == [g] && v'[4] == [f]
    requires f.number != g.number
    requires forall i :: 0 <= i < NUM_LEVELS && i != 3 && i != 4 ==> v'[i] == v[i]
    ensures Reshaped(v, 3, [f], [], [f], v')
  {
    assert f.number in Numbers([f]) && g.number !in Numbers([f]);
  }

  /** A write, overwritten, comes back after the move: the two answers. */
  lemma CutMoveUncoversOldValue(f: Table, g: Table, snapshot: nat)
    requires CutPair(f, g) && f.smallest.seqno <= snapshot
    ensures LookupFrom(TwoTables(f, g), 0, f.smallest.user, snapshot) == Some(f.smallest)
    ensures LookupFrom(FirstMoved(f, g), 0, f.smallest.user, snapshot) == Some(g.smallest)
  {
    TwoSingles(f, g);
    OneSingle(g);
    EmptyLevels(TwoTables(f, g), 3);
    EmptyLevels(FirstMoved(f, g), 3);
    hide LevelEntries;
    AnswersAt(TwoTables(f, g), 3, f.smallest.user, snapshot, f.smallest);
    AnswersAt(FirstMoved(f, g), 3, f.smallest.user, snapshot, g.smallest);
  }

  lemma OneSingle(g: Table)
    requires g == Single(g.number, g.size, g.smallest)
    ensures LevelEntries([g]) == iset{g.smallest}
  {
    assert g in [g] && g.smallest in g.entries;
    forall e | e in LevelEntries([g]) ensures e == g.smallest {
      var t :| t in [g] && e in t.entries;
    }
  }

  lemma TwoSingles(f: Table, g: Table)
    requires f == Single(f.number, f.size, f.smallest) && g == Single(g.number, g.size, g.smallest)
    ensures LevelEntries([f, g]) == iset{f.smallest, g.smallest}
  {
    assert f in [f, g] && f.smallest in f.entries && g in [f, g] && g.smallest in g.entries;
    forall e | e in LevelEntries([f, g]) ensures e == f.smallest || e == g.smallest {
      var t :| t in [f, g] && e in t.entries;
    }
  }

  /** The first level with a visible entry answers. */
  lemma AnswersAt(v: Version, level: nat, user: UserKey, snapshot: nat, e: Entry)
    requires level < |v|
    requires forall l, x :: 0 <= l < level && x in LevelEntries(v[l]) ==> !Visible(x, user, snapshot)
    requires Unique(LevelEntries(v[level])) && IsNewest(LevelEntries(v[level]), user, snapshot, Some(e))
    ensures LookupFrom(v, 0, user, snapshot) == Some(e)
  {
    LookupReaches(v, 0, level, user, snapshot);
    NewestIsUnique(LevelEntries(v[level]), user, snapshot, Newest(LevelEntries(v[level]), user, snapshot), Some(e));
  }

  lemma EmptyLevels(v: Version, n: nat)
    requires n <= |v| && forall l :: 0 <= l < n ==> v[l] == []
    ensures forall l, x :: 0 <= l < n ==> x !in LevelEntries(v[l])
  {
  }
}
