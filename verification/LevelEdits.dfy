/** What an installed flush or compaction does to the levels of a version. */
module LevelEdits {
  import opened InternalKeys
  import opened Lookups
  import opened Options
  import opened Versions
  import opened VersionBuilder
  import opened Picking

  function Numbers(ts: Level): set<nat> {
    set t | t in ts :: t.number
  }

  /** File numbers are below the counter and name one table at one level. */
  ghost predicate Numbered(v: Version, nextFile: nat) {
    && (forall l, t :: 0 <= l < |v| && t in v[l] ==> t.number < nextFile)
    && (forall l, m, s, t :: 0 <= l < |v| && 0 <= m < |v| && s in v[l] && t in v[m] && s.number == t.number ==>
        l == m && s == t)
    && (forall l :: 0 <= l < |v| ==> SortedBySmallest(v[l]))
  }

  /** One table lies wholly before the other. */
  predicate Apart(s: Table, t: Table) {
    Before(s.largest, t.smallest) || Before(t.largest, s.smallest)
  }

  ghost predicate PairwiseApart(ts: Level) {
    forall s, t :: s in ts && t in ts && s != t ==> Apart(s, t)
  }

  /** A sorted listing of pairwise apart tables is a disjoint level, and conversely. */
  lemma ApartIsDisjoint(ts: Level)
    requires ValidLevel(ts) && SortedBySmallest(ts) && PairwiseApart(ts)
    ensures Disjoint(ts)
  {
    forall i, j | 0 <= i < j < |ts| ensures Before(ts[i].largest, ts[j].smallest) {
      assert BySmallest(ts[i], ts[j]);
      EntryInBounds(ts[j], ts[j].largest);
      EntryInBounds(ts[i], ts[i].largest);
      assert ts[i] in ts && ts[j] in ts;
    }
  }

  lemma DisjointIsApart(ts: Level, s: Table, t: Table)
    requires Disjoint(ts) && s in ts && t in ts && s != t
    ensures Apart(s, t)
  {
    var i :| 0 <= i < |ts| && ts[i] == s;
    var j :| 0 <= j < |ts| && ts[j] == t;
  }

  /** A level that loses files and gains none keeps its order. */
  lemma RemovalKeepsLevel(base: Level, deleted: set<nat>, r: Level)
    requires ValidLevel(base) && Saved(base, [], deleted, r)
    ensures ValidLevel(r)
    ensures Disjoint(base) ==> Disjoint(r)
    ensures AgeOrdered(base) ==> AgeOrdered(r)
  {
    if Disjoint(base) {
      forall s, t | s in r && t in r && s != t ensures Apart(s, t) {
        DisjointIsApart(base, s, t);
      }
      ApartIsDisjoint(r);
    }
    if AgeOrdered(base) {
      forall i, j | 0 <= i < j < |r| ensures r[i].number != r[j].number {
        assert r[i] in base && r[j] in base && BySmallest(r[i], r[j]);
        if r[i].number == r[j].number {
          SameNumber(base, r[i], r[j]);
        }
      }
    }
  }

  /** Adding disjoint files beside every file that stays gives a disjoint level. */
  lemma AdditionKeepsDisjoint(base: Level, added: Level, deleted: set<nat>, r: Level)
    requires ValidLevel(base) && Disjoint(base) && ValidLevel(added) && Disjoint(added)
    requires Saved(base, added, deleted, r)
    requires forall s, t :: s in base && s.number !in deleted && t in added ==> Apart(s, t)
    ensures ValidLevel(r) && Disjoint(r)
  {
    forall s, t | s in r && t in r && s != t ensures Apart(s, t) {
      if s in base && t in base {
        DisjointIsApart(base, s, t);
      } else if s in added && t in added {
        DisjointIsApart(added, s, t);
      }
    }
    ApartIsDisjoint(r);
  }

  /** What a compaction or a move installs at `level` and `level + 1`. */
  ghost predicate Reshaped(v: Version, level: nat, inputs0: Level, inputs1: Level, outputs: Level, v': Version) {
    && |v| == |v'| == NUM_LEVELS && level + 1 < NUM_LEVELS
    && (forall i :: 0 <= i < NUM_LEVELS && i != level && i != level + 1 ==> v'[i] == v[i])
    && Saved(v[level], [], Numbers(inputs0), v'[level])
    && Saved(v[level + 1], outputs, Numbers(inputs1), v'[level + 1])
  }

  /** Deleting by number removes exactly the chosen tables. */
  lemma DeletedByNumber(v: Version, nextFile: nat, l: nat, chosen: Level, t: Table)
    requires l < |v| && Numbered(v, nextFile)
    requires t in v[l] && forall s :: s in chosen ==> s in v[l]
    ensures t.number in Numbers(chosen) <==> t in chosen
  {
    if t.number in Numbers(chosen) {
      var s :| s in chosen && s.number == t.number;
    }
  }

  /** The entries left in the compacted level. */
  lemma ReshapedLevel(v: Version, nextFile: nat, level: nat, inputs0: Level, inputs1: Level, outputs: Level,
                      v': Version)
    requires Numbered(v, nextFile) && Reshaped(v, level, inputs0, inputs1, outputs, v')
    requires forall t :: t in inputs0 ==> t in v[level]
    ensures LevelEntries(v'[level]) == Unchosen(v[level], inputs0)
  {
    forall t | t in v[level] ensures t in v'[level] <==> t !in inputs0 {
      DeletedByNumber(v, nextFile, level, inputs0, t);
    }
    assert forall t :: t in v'[level] ==> t in v[level];
  }

  /** The output file numbers clash with no table that stays. */
  ghost predicate FreshNumbers(v: Version, level: nat, outputs: Level, inputs1: Level) {
    && level + 1 < |v|
    && (forall t :: t in outputs ==> t.number !in Numbers(inputs1))
    && (forall s, t :: s in v[level + 1] && t in outputs ==> s.number != t.number)
  }

  /** The entries of the next level: those left there and those of the outputs. */
  lemma ReshapedNext(v: Version, nextFile: nat, level: nat, inputs0: Level, inputs1: Level, outputs: Level, v': Version)
    requires Numbered(v, nextFile) && Reshaped(v, level, inputs0, inputs1, outputs, v')
    requires forall t :: t in inputs1 ==> t in v[level + 1]
    requires FreshNumbers(v, level, outputs, inputs1)
    ensures LevelEntries(v'[level + 1]) == Unchosen(v[level + 1], inputs1) + LevelEntries(outputs)
  {
    forall t | t in v[level + 1] ensures t in v'[level + 1] <==> t !in inputs1 {
      DeletedByNumber(v, nextFile, level + 1, inputs1, t);
    }
    assert forall t :: t in outputs ==> t in v'[level + 1];
    assert forall t :: t in v'[level + 1] ==> t in v[level + 1] || t in outputs;
  }

  /** The two levels stay ordered, given that nothing older was left behind. */
  lemma {:induction false} ReshapedLevelsOrdered(v: Version, level: nat, chosen: iset<Entry>, v': Version)
    requires |v| == |v'| == NUM_LEVELS && level + 1 < NUM_LEVELS && LevelsOrdered(v)
    requires forall i :: 0 <= i < NUM_LEVELS && i != level && i != level + 1 ==> v'[i] == v[i]
    requires chosen <= LevelEntries(v[level]) + LevelEntries(v[level + 1])
    requires LevelEntries(v'[level]) <= LevelEntries(v[level])
    requires LevelEntries(v'[level + 1]) <= LevelEntries(v[level + 1]) + chosen
    requires Newer(LevelEntries(v'[level]), chosen)
    ensures LevelsOrdered(v')
  {
    forall i, j | 0 <= i < j < NUM_LEVELS ensures Newer(LevelEntries(v'[i]), LevelEntries(v'[j])) {
      hide LevelEntries, Newer;
      assert Newer(LevelEntries(v[i]), LevelEntries(v[j]));
      if j == level + 1 {
        NewerThanBoth(v, level, i, chosen, v');
      } else if i == level + 1 {
        BothNewerThan(v, level, j, chosen, v');
      } else if i == level || j == level {
        NewerSubsets(LevelEntries(v[i]), LevelEntries(v[j]), LevelEntries(v'[i]), LevelEntries(v'[j]));
      }
    }
  }

  lemma NewerSubsets(a: iset<Entry>, b: iset<Entry>, a': iset<Entry>, b': iset<Entry>)
    requires Newer(a, b) && a' <= a && b' <= b
    ensures Newer(a', b')
  {
  }

  lemma NewerThanBoth(v: Version, level: nat, i: nat, chosen: iset<Entry>, v': Version)
    requires i <= level && level + 1 < |v| == |v'| && LevelsOrdered(v)
    requires chosen <= LevelEntries(v[level]) + LevelEntries(v[level + 1])
    requires i < level ==> v'[i] == v[i]
    requires LevelEntries(v'[level]) <= LevelEntries(v[level]) && Newer(LevelEntries(v'[level]), chosen)
    requires LevelEntries(v'[level + 1]) <= LevelEntries(v[level + 1]) + chosen
    ensures Newer(LevelEntries(v'[i]), LevelEntries(v'[level + 1]))
  {
    hide LevelEntries;
    assert Newer(LevelEntries(v[i]), LevelEntries(v[level + 1]));
    assert i < level ==> Newer(LevelEntries(v[i]), LevelEntries(v[level]));
  }

  lemma BothNewerThan(v: Version, level: nat, j: nat, chosen: iset<Entry>, v': Version)
    requires level + 1 < j < |v| == |v'| && LevelsOrdered(v) && v'[j] == v[j]
    requires chosen <= LevelEntries(v[level]) + LevelEntries(v[level + 1])
    requires LevelEntries(v'[level + 1]) <= LevelEntries(v[level + 1]) + chosen
    ensures Newer(LevelEntries(v'[level + 1]), LevelEntries(v'[j]))
  {
    hide LevelEntries;
    assert Newer(LevelEntries(v[level]), LevelEntries(v[j]));
    assert Newer(LevelEntries(v[level + 1]), LevelEntries(v[j]));
  }

  /** Outputs drawn from the chosen entries lie beside every table left in the next level. */
  lemma OutputsBeside(next: Level, inputs0: Level, inputs1: Level, outputs: Level, g: Table, t: Table)
    requires NextPicked(next, inputs0, inputs1) && g in next && g !in inputs1
    requires ValidLevel(outputs) && LevelEntries(outputs) <= LevelEntries(inputs0 + inputs1) && t in outputs
    ensures Apart(g, t)
  {
    LeftBeside(next, inputs0, inputs1, g);
    assert t.smallest in t.entries && t.largest in t.entries;
    assert t.smallest in LevelEntries(outputs) && t.largest in LevelEntries(outputs);
  }

  /** The inputs as the code picks them, leaving no older version of a chosen key behind in their own level. */
  ghost predicate Closed(v: Version, level: nat, inputs0: Level, inputs1: Level) {
    && Picked(v, level, inputs0, inputs1)
    && (level > 0 ==> Uncut(v[level], inputs0))
  }

  /** A closed compaction, whatever it keeps of its inputs, leaves a valid version. */
  lemma ReshapedValid(v: Version, nextFile: nat, level: nat, inputs0: Level, inputs1: Level, outputs: Level,
                      v': Version)
    requires ValidVersion(v) && Numbered(v, nextFile) && Unique(VersionEntries(v))
    requires Closed(v, level, inputs0, inputs1)
    requires ValidLevel(outputs) && Disjoint(outputs)
    requires LevelEntries(outputs) <= LevelEntries(inputs0 + inputs1)
    requires FreshNumbers(v, level, outputs, inputs1)
    requires Reshaped(v, level, inputs0, inputs1, outputs, v')
    ensures ValidVersion(v')
  {
    RemovalKeepsLevel(v[level], Numbers(inputs0), v'[level]);
    NextLevelValid(v, nextFile, level, inputs0, inputs1, outputs, v');
    ReshapedOrder(v, nextFile, level, inputs0, inputs1, outputs, v');
    ValidFromParts(v, level, v');
  }

  lemma ValidFromParts(v: Version, level: nat, v': Version)
    requires ValidVersion(v) && |v'| == NUM_LEVELS && level + 1 < NUM_LEVELS
    requires forall i :: 0 <= i < NUM_LEVELS && i != level && i != level + 1 ==> v'[i] == v[i]
    requires ValidLevel(v'[level]) && (level > 0 ==> Disjoint(v'[level])) && (level == 0 ==> AgeOrdered(v'[0]))
    requires ValidLevel(v'[level + 1]) && Disjoint(v'[level + 1])
    requires LevelsOrdered(v')
    ensures ValidVersion(v')
  {
  }

  lemma NextLevelValid(v: Version, nextFile: nat, level: nat, inputs0: Level, inputs1: Level, outputs: Level,
                       v': Version)
    requires ValidVersion(v) && Numbered(v, nextFile)
    requires Picked(v, level, inputs0, inputs1)
    requires ValidLevel(outputs) && Disjoint(outputs)
    requires LevelEntries(outputs) <= LevelEntries(inputs0 + inputs1)
    requires Reshaped(v, level, inputs0, inputs1, outputs, v')
    ensures ValidLevel(v'[level + 1]) && Disjoint(v'[level + 1])
  {
    PickedNext(v, level, inputs0, inputs1);
    forall s, t | s in v[level + 1] && s.number !in Numbers(inputs1) && t in outputs ensures Apart(s, t) {
      OutputsBeside(v[level + 1], inputs0, inputs1, outputs, s, t);
    }
    AdditionKeepsDisjoint(v[level + 1], outputs, Numbers(inputs1), v'[level + 1]);
  }

  lemma ReshapedOrder(v: Version, nextFile: nat, level: nat, inputs0: Level, inputs1: Level, outputs: Level,
                      v': Version)
    requires ValidVersion(v) && Numbered(v, nextFile) && Unique(VersionEntries(v))
    requires Closed(v, level, inputs0, inputs1)
    requires LevelEntries(outputs) <= LevelEntries(inputs0 + inputs1)
    requires FreshNumbers(v, level, outputs, inputs1)
    requires Reshaped(v, level, inputs0, inputs1, outputs, v')
    ensures LevelsOrdered(v')
  {
    var chosen := LevelEntries(inputs0 + inputs1);
    PickedLeavesNewer(v, level, inputs0, inputs1);
    ReshapedLevel(v, nextFile, level, inputs0, inputs1, outputs, v');
    ReshapedNext(v, nextFile, level, inputs0, inputs1, outputs, v');
    ChosenFromLevels(v[level], v[level + 1], inputs0, inputs1);
    ReshapedLevelsOrdered(v, level, chosen, v');
  }

  lemma ChosenFromLevels(upper: Level, lower: Level, inputs0: Level, inputs1: Level)
    requires forall t :: t in inputs0 ==> t in upper
    requires forall t :: t in inputs1 ==> t in lower
    ensures LevelEntries(inputs0 + inputs1) <= LevelEntries(upper) + LevelEntries(lower)
    ensures Unchosen(upper, inputs0) <= LevelEntries(upper)
    ensures Unchosen(lower, inputs1) <= LevelEntries(lower)
    ensures LevelEntries(upper) + LevelEntries(lower) ==
              LevelEntries(inputs0 + inputs1) + (Unchosen(upper, inputs0) + Unchosen(lower, inputs1))
  {
  }

  /** The entries of all levels but `level` and `level + 1`. */
  ghost function Elsewhere(v: Version, level: nat): iset<Entry> {
    iset e, l | 0 <= l < |v| && l != level && l != level + 1 && e in LevelEntries(v[l]) :: e
  }

  lemma SplitVersion(v: Version, level: nat)
    requires level + 1 < |v|
    ensures VersionEntries(v) == Elsewhere(v, level) + (LevelEntries(v[level]) + LevelEntries(v[level + 1]))
  {
    forall e | e in VersionEntries(v)
      ensures e in Elsewhere(v, level) + (LevelEntries(v[level]) + LevelEntries(v[level + 1]))
    {
      var ts :| ts in v && e in LevelEntries(ts);
      var l :| 0 <= l < |v| && v[l] == ts;
    }
    assert forall l :: 0 <= l < |v| ==> v[l] in v;
  }

  /** The entries a compaction of chosen inputs does not touch. */
  ghost function Untouched(v: Version, level: nat, inputs0: Level, inputs1: Level): iset<Entry>
    requires level + 1 < |v|
  {
    Elsewhere(v, level) + (Unchosen(v[level], inputs0) + Unchosen(v[level + 1], inputs1))
  }

  /** A compaction replaces the entries of its inputs by those of its outputs. */
  lemma ReshapedEntries(v: Version, nextFile: nat, level: nat, inputs0: Level, inputs1: Level, outputs: Level,
                        v': Version)
    requires |v| == NUM_LEVELS && Numbered(v, nextFile)
    requires Picked(v, level, inputs0, inputs1) && FreshNumbers(v, level, outputs, inputs1)
    requires Reshaped(v, level, inputs0, inputs1, outputs, v')
    ensures VersionEntries(v) == LevelEntries(inputs0 + inputs1) + Untouched(v, level, inputs0, inputs1)
    ensures VersionEntries(v') == LevelEntries(outputs) + Untouched(v, level, inputs0, inputs1)
  {
    ReshapedLevel(v, nextFile, level, inputs0, inputs1, outputs, v');
    ReshapedNext(v, nextFile, level, inputs0, inputs1, outputs, v');
    ChosenFromLevels(v[level], v[level + 1], inputs0, inputs1);
    SplitVersion(v, level);
    SplitVersion(v', level);
    SameElsewhere(v, v', level);
    Regroup(Elsewhere(v, level), LevelEntries(inputs0 + inputs1),
            Unchosen(v[level], inputs0) + Unchosen(v[level + 1], inputs1));
    Regroup'(Elsewhere(v, level), LevelEntries(outputs), Unchosen(v[level], inputs0), Unchosen(v[level + 1], inputs1));
  }

  lemma SameElsewhere(v: Version, v': Version, level: nat)
    requires |v| == |v'| && forall i :: 0 <= i < |v| && i != level && i != level + 1 ==> v'[i] == v[i]
    ensures Elsewhere(v', level) == Elsewhere(v, level)
  {
  }

  lemma Regroup(e: iset<Entry>, c: iset<Entry>, u: iset<Entry>)
    ensures e + (c + u) == c + (e + u)
  {
  }

  lemma Regroup'(e: iset<Entry>, c: iset<Entry>, u: iset<Entry>, w: iset<Entry>)
    ensures e + (u + (w + c)) == c + (e + (u + w))
  {
  }

  /** What a flush installs. */
  ghost predicate Flushed(v: Version, level: nat, t: Table, v': Version) {
    && |v| == |v'| == NUM_LEVELS && level < NUM_LEVELS
    && (forall i :: 0 <= i < NUM_LEVELS && i != level ==> v'[i] == v[i])
    && Saved(v[level], [t], {}, v'[level])
  }

  /** A table that meets no table of a level shares no user key with it. */
  lemma NoSharedKeys(ts: Level, t: Table)
    requires ValidLevel(ts) && ValidTable(t)
    requires forall s :: s in ts ==> !Overlaps(s, Some(t.smallest.user), Some(t.largest.user))
    ensures Newer(LevelEntries(ts), SeqEntries(t.entries))
    ensures forall s :: s in ts ==> Apart(s, t)
  {
    forall x, y | x in LevelEntries(ts) && y in SeqEntries(t.entries) ensures x.user != y.user {
      var s :| s in ts && x in s.entries;
      EntryInBounds(s, x);
      EntryInBounds(t, y);
    }
    forall s | s in ts ensures Apart(s, t) {
    }
  }

  lemma FlushedLevelEntries(base: Level, t: Table, r: Level)
    requires Saved(base, [t], {}, r)
    ensures LevelEntries(r) == LevelEntries(base) + SeqEntries(t.entries)
  {
    assert t in r;
  }

  lemma FlushedEntries(v: Version, level: nat, t: Table, v': Version)
    requires Flushed(v, level, t, v')
    ensures VersionEntries(v') == VersionEntries(v) + SeqEntries(t.entries)
  {
    FlushedLevelEntries(v[level], t, v'[level]);
    forall e | e in VersionEntries(v') ensures e in VersionEntries(v) + SeqEntries(t.entries) {
      var ts :| ts in v' && e in LevelEntries(ts);
      var l :| 0 <= l < |v'| && v'[l] == ts;
      assert v[l] in v;
    }
    forall e | e in VersionEntries(v) + SeqEntries(t.entries) ensures e in VersionEntries(v') {
      assert v'[level] in v';
      if e in VersionEntries(v) {
        var ts :| ts in v && e in LevelEntries(ts);
        var l :| 0 <= l < |v| && v[l] == ts;
        assert v'[l] in v';
      }
    }
  }

  /** The level a flush goes to keeps its order. */
  lemma FlushedLevelValid(base: Level, level: nat, t: Table, nextFile: nat, r: Level)
    requires ValidLevel(base) && ValidTable(t) && Saved(base, [t], {}, r)
    requires level > 0 ==> Disjoint(base) && forall s :: s in base ==> Apart(s, t)
    requires level == 0 ==> AgeOrdered(base) && Newer(SeqEntries(t.entries), LevelEntries(base))
    requires t.number >= nextFile && forall s :: s in base ==> s.number < nextFile
    ensures ValidLevel(r)
    ensures level > 0 ==> Disjoint(r)
    ensures level == 0 ==> AgeOrdered(r)
  {
    if level > 0 {
      AdditionKeepsDisjoint(base, [t], {}, r);
    } else {
      forall i, j | 0 <= i < j < |r| ensures r[i].number != r[j].number {
        assert r[i] in r && r[j] in r && BySmallest(r[i], r[j]);
        if r[i] in base && r[j] in base && r[i].number == r[j].number {
          SameNumber(base, r[i], r[j]);
        }
      }
      forall s, u | s in r && u in r && s.number < u.number
        ensures Newer(SeqEntries(u.entries), SeqEntries(s.entries))
      {
        assert s in base;
        if u == t {
          assert SeqEntries(s.entries) <= LevelEntries(base);
        }
      }
    }
  }

  /** A flush to the chosen level leaves a valid version that holds the memtable's entries too. */
  lemma FlushedValid(v: Version, nextFile: nat, level: nat, t: Table, v': Version)
    requires ValidVersion(v) && Numbered(v, nextFile) && ValidTable(t) && t.number >= nextFile
    requires Newer(SeqEntries(t.entries), VersionEntries(v))
    requires FlushLevel(v, level, t.smallest.user, t.largest.user)
    requires Flushed(v, level, t, v')
    ensures ValidVersion(v')
  {
    forall l | 0 <= l < NUM_LEVELS ensures Newer(SeqEntries(t.entries), LevelEntries(v[l])) {
      assert v[l] in v && LevelEntries(v[l]) <= VersionEntries(v);
    }
    forall l | 0 <= l <= level && level > 0
      ensures Newer(LevelEntries(v[l]), SeqEntries(t.entries))
      ensures forall s :: s in v[l] ==> Apart(s, t)
    {
      NoSharedKeys(v[l], t);
    }
    FlushedLevelValid(v[level], level, t, nextFile, v'[level]);
    FlushedLevelEntries(v[level], t, v'[level]);
    FlushedOrder(v, level, SeqEntries(t.entries), v');
    FlushedFromParts(v, level, v');
  }

  lemma FlushedOrder(v: Version, level: nat, es: iset<Entry>, v': Version)
    requires |v| == |v'| == NUM_LEVELS && level < NUM_LEVELS && LevelsOrdered(v)
    requires forall i :: 0 <= i < NUM_LEVELS && i != level ==> v'[i] == v[i]
    requires LevelEntries(v'[level]) == LevelEntries(v[level]) + es
    requires forall l :: 0 <= l < NUM_LEVELS ==> Newer(es, LevelEntries(v[l]))
    requires forall l :: 0 <= l < level ==> Newer(LevelEntries(v[l]), es)
    ensures LevelsOrdered(v')
  {
    forall i, j | 0 <= i < j < NUM_LEVELS ensures Newer(LevelEntries(v'[i]), LevelEntries(v'[j])) {
      assert Newer(LevelEntries(v[i]), LevelEntries(v[j]));
    }
  }

  lemma FlushedFromParts(v: Version, level: nat, v': Version)
    requires ValidVersion(v) && |v'| == NUM_LEVELS && level < NUM_LEVELS
    requires forall i :: 0 <= i < NUM_LEVELS && i != level ==> v'[i] == v[i]
    requires ValidLevel(v'[level]) && (level > 0 ==> Disjoint(v'[level])) && (level == 0 ==> AgeOrdered(v'[0]))
    requires LevelsOrdered(v')
    ensures ValidVersion(v')
  {
  }

  lemma FlushedNumbered(v: Version, nextFile: nat, level: nat, t: Table, v': Version)
    requires Numbered(v, nextFile) && t.number >= nextFile && Flushed(v, level, t, v')
    ensures Numbered(v', t.number + 1)
  {
    forall l, m, s, u | 0 <= l < |v'| && 0 <= m < |v'| && s in v'[l] && u in v'[m] && s.number == u.number
      ensures l == m && s == u
    {
      assert s == t || s in v[l];
      assert u == t || u in v[m];
    }
  }

  /** New tables take increasing numbers that no installed table has. */
  ghost predicate NumberedFrom(ts: Level, nextFile: nat, nextFile': nat) {
    && nextFile <= nextFile'
    && (forall i :: 0 <= i < |ts| ==> nextFile <= ts[i].number < nextFile')
    && (forall i, j :: 0 <= i < j < |ts| ==> ts[i].number < ts[j].number)
  }

  /** Fresh output numbers keep file numbers unique. */
  lemma CompactedNumbered(v: Version, nextFile: nat, level: nat, inputs0: Level, inputs1: Level, outputs: Level,
                          nextFile': nat, v': Version)
    requires Numbered(v, nextFile) && Reshaped(v, level, inputs0, inputs1, outputs, v')
    requires NumberedFrom(outputs, nextFile, nextFile')
    ensures Numbered(v', nextFile')
  {
    forall l, t | 0 <= l < |v'| && t in v'[l] ensures StayedOrAdded(v, level + 1, outputs, l, t) {
    }
    hide Reshaped;
    NewNumbers(v, nextFile, level + 1, outputs, nextFile', v');
    forall l | 0 <= l < |v'| ensures SortedBySmallest(v'[l]) {
      ReshapedSorted(v, nextFile, level, inputs0, inputs1, outputs, v', l);
    }
  }

  lemma ReshapedSorted(v: Version, nextFile: nat, level: nat, inputs0: Level, inputs1: Level, outputs: Level,
                       v': Version,
                       l: nat)
    requires Numbered(v, nextFile) && Reshaped(v, level, inputs0, inputs1, outputs, v') && l < |v'|
    ensures SortedBySmallest(v'[l])
  {
    hide SortedBySmallest;
  }

  /** Tables that stay, and tables added to one level under new numbers. */
  lemma NewNumbers(v: Version, nextFile: nat, at: nat, added: Level, nextFile': nat, v': Version)
    requires Numbered(v, nextFile) && NumberedFrom(added, nextFile, nextFile') && |v'| == |v|
    requires forall l, t :: 0 <= l < |v'| && t in v'[l] ==> StayedOrAdded(v, at, added, l, t)
    ensures forall l, t :: 0 <= l < |v'| && t in v'[l] ==> t.number < nextFile'
    ensures forall l, m, s, t ::
      0 <= l < |v'| && 0 <= m < |v'| && s in v'[l] && t in v'[m] && s.number == t.number ==> l == m && s == t
  {
    hide SortedBySmallest;
    forall l, m, s, t | 0 <= l < |v'| && 0 <= m < |v'| && s in v'[l] && t in v'[m] && s.number == t.number
      ensures l == m && s == t
    {
      assert StayedOrAdded(v, at, added, l, s) && StayedOrAdded(v, at, added, m, t);
    }
    forall l, t | 0 <= l < |v'| && t in v'[l] ensures t.number < nextFile' {
      assert StayedOrAdded(v, at, added, l, t);
    }
  }

  ghost predicate StayedOrAdded(v: Version, at: nat, added: Level, l: int, t: Table)
    requires 0 <= l < |v|
  {
    t in v[l] || (l == at && t in added)
  }

  lemma MovedAt(v: Version, nextFile: nat, level: nat, f: Table, v': Version, l: nat, s: Table)
    requires Numbered(v, nextFile) && Reshaped(v, level, [f], [], [f], v') && f in v[level]
    requires l < |v'| && s in v'[l]
    ensures (s in v[l] && s != f) || (l == level + 1 && s == f)
  {
    assert f.number in Numbers([f]);
  }

  lemma MovedPair(v: Version, nextFile: nat, level: nat, f: Table, v': Version, l: nat, m: nat, s: Table, t: Table)
    requires Numbered(v, nextFile) && Reshaped(v, level, [f], [], [f], v') && f in v[level]
    requires l < |v'| && m < |v'| && s in v'[l] && t in v'[m] && s.number == t.number
    ensures l == m && s == t && s.number < nextFile
  {
    MovedAt(v, nextFile, level, f, v', l, s);
    MovedAt(v, nextFile, level, f, v', m, t);
  }

  /** A moved table keeps its number at its new level. */
  lemma MovedNumbered(v: Version, nextFile: nat, level: nat, f: Table, v': Version)
    requires Numbered(v, nextFile) && Reshaped(v, level, [f], [], [f], v') && f in v[level]
    ensures Numbered(v', nextFile)
  {
    forall l, m, s, t | 0 <= l < |v'| && 0 <= m < |v'| && s in v'[l] && t in v'[m] && s.number == t.number
      ensures l == m && s == t && s.number < nextFile
    {
      MovedPair(v, nextFile, level, f, v', l, m, s, t);
    }
  }
}
