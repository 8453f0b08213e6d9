/**
 * When exactly a compaction keeps every lookup. A level may be cut between two versions of
 * one user key; taking the newer one down, or dropping it, can bring the older one to light.
 */
module Exposures {
  import opened InternalKeys
  import opened Lookups
  import opened Options
  import opened Versions
  import opened VersionBuilder
  import opened Picking
  import opened Compactions
  import opened LevelEdits
  import opened TrivialMoves
  import opened Database

  /** What a caller sees of an entry found: nothing, if it is a tombstone. */
  function Live(r: Option<Entry>): Option<Entry> {
    if r.Some? && r.value.kind == Value then r else None
  }

  function First(a: Option<Entry>, b: Option<Entry>): Option<Entry> {
    if a.Some? then a else b
  }

  /** The memtables, then the levels from the top. */
  ghost function Lookup(m: iset<Entry>, v: Version, user: UserKey, snapshot: nat): Option<Entry> {
    First(Newest(m, user, snapshot), LookupFrom(v, 0, user, snapshot))
  }

  // ---------------------------------------------------------------- one key, as sets

  /**
   * The two levels of a compaction: in each, the entries of the chosen tables and those
   * that stay; and the chosen entries that are kept.
   */
  datatype Parts = Parts(c0: iset<Entry>, r0: iset<Entry>, c1: iset<Entry>, r1: iset<Entry>, kept: iset<Entry>)

  ghost predicate Dropped(p: Parts, e: Entry, smallest: nat, base: iset<UserKey>) {
    || HiddenIn(p.c0 + p.c1, e, smallest)
    || (e.kind == Deletion && e.seqno <= smallest && e.user in base)
  }

  ghost predicate ValidParts(p: Parts, smallest: nat, base: iset<UserKey>) {
    && Unique(p.c0 + p.r0 + p.c1 + p.r1)
    && p.c0 !! p.r0 && p.c1 !! p.r1
    && Newer(p.c0 + p.r0, p.c1 + p.r1)
    && (forall e, x :: e in p.c0 && x in p.r1 ==> e.user != x.user)
    && (forall e :: e in p.kept <==> e in p.c0 + p.c1 && !Dropped(p, e, smallest, base))
  }

  /** No newer version of the key in `es` is at or below the smallest snapshot. */
  ghost predicate Exposed(es: iset<Entry>, e: Entry, smallest: nat) {
    forall x :: x in es && x.user == e.user && x.seqno > e.seqno ==> x.seqno > smallest
  }

  /** `b` is the newest version older than `e` in `es`. */
  ghost predicate NextOlder(es: iset<Entry>, e: Entry, b: Entry) {
    && b in es && b.user == e.user && b.seqno < e.seqno
    && forall y :: y in es && y.user == e.user && y.seqno < e.seqno ==> y.seqno <= b.seqno
  }

  /** A chosen entry of the upper level goes below an older one of its key that stays. */
  ghost predicate CutExposes(p: Parts, up: iset<Entry>, e: Entry, b: Entry, smallest: nat) {
    && e in p.c0 && NextOlder(p.r0, e, b)
    && (e.kind == Value || b.kind == Value)
    && Exposed(up + p.c0 + p.r0, e, smallest)
  }

  /** A tombstone of the lower level is dropped, and an older value of its key stays. */
  ghost predicate DropExposes(p: Parts, up: iset<Entry>, e: Entry, x: Entry, smallest: nat, base: iset<UserKey>) {
    && e in p.c1 && e.kind == Deletion && e.seqno <= smallest && e.user in base
    && NextOlder(p.r1, e, x) && x.kind == Value
    && Exposed(up + p.c0 + p.r0 + p.c1 + p.r1, e, smallest)
  }

  /** What the two levels and those below answer, before and after. */
  ghost function Before2(p: Parts, d: Option<Entry>, user: UserKey, s: nat): Option<Entry> {
    First(Newest(p.c0 + p.r0, user, s), First(Newest(p.c1 + p.r1, user, s), d))
  }

  ghost function After2(p: Parts, d: Option<Entry>, user: UserKey, s: nat): Option<Entry> {
    First(Newest(p.r0, user, s), First(Newest(p.r1 + p.kept, user, s), d))
  }

  lemma NewestIs(es: iset<Entry>, user: UserKey, s: nat, r: Option<Entry>)
    requires Unique(es) && IsNewest(es, user, s, r)
    ensures Newest(es, user, s) == r
  {
    NewestIsUnique(es, user, s, r, Newest(es, user, s));
  }

  /** The upper level answers with an entry that stays there. */
  lemma StaysAbove(p: Parts, smallest: nat, base: iset<UserKey>, user: UserKey, s: nat, e: Entry)
    requires ValidParts(p, smallest, base) && Newest(p.c0 + p.r0, user, s) == Some(e) && e in p.r0
    ensures Newest(p.r0, user, s) == Some(e)
  {
    NewestIs(p.r0, user, s, Some(e));
  }

  /** The upper level answers with a chosen entry, and an older one stays there. */
  lemma OlderAbove(p: Parts, up: iset<Entry>, smallest: nat, base: iset<UserKey>, user: UserKey, s: nat, e: Entry,
                   b: Entry)
    requires ValidParts(p, smallest, base) && smallest <= s
    requires forall x :: x in up ==> !Visible(x, user, s)
    requires Newest(p.c0 + p.r0, user, s) == Some(e) && e in p.c0 && Newest(p.r0, user, s) == Some(b)
    requires !CutExposes(p, up, e, b, smallest)
    ensures e.kind == Deletion && b.kind == Deletion
  {
    assert e.seqno != b.seqno;
  }

  /** The upper level answers with a chosen entry that is kept, and nothing visible stays there. */
  lemma KeptBelow(p: Parts, smallest: nat, base: iset<UserKey>, user: UserKey, s: nat, e: Entry)
    requires ValidParts(p, smallest, base) && Newest(p.c0 + p.r0, user, s) == Some(e) && e in p.c0 && e in p.kept
    ensures Newest(p.r1 + p.kept, user, s) == Some(e)
  {
    NewestIs(p.r1 + p.kept, user, s, Some(e));
  }

  /** The newest visible chosen entry is dropped only as a tombstone, and what it hides goes too. */
  lemma DroppedBelow(p: Parts, smallest: nat, base: iset<UserKey>, user: UserKey, s: nat, e: Entry)
    requires ValidParts(p, smallest, base) && smallest <= s && e in p.c0 + p.c1 && e !in p.kept
    requires Visible(e, user, s) && forall x :: x in p.c0 + p.c1 && Visible(x, user, s) ==> x.seqno <= e.seqno
    ensures e.kind == Deletion && e.seqno <= smallest && user in base
    ensures forall y :: y in p.kept ==> !Visible(y, user, s)
  {
    forall y | y in p.c0 + p.c1 && Visible(y, user, s) ensures y !in p.kept {
      if y.seqno < e.seqno {
        assert HiddenIn(p.c0 + p.c1, y, smallest);
      } else {
        assert y == e;
      }
    }
  }

  lemma NoneNewest(es: iset<Entry>, user: UserKey, s: nat)
    requires Unique(es) && forall x :: x in es ==> !Visible(x, user, s)
    ensures Newest(es, user, s) == None
  {
    NewestIs(es, user, s, None);
  }

  /** The lower level answers, with an entry that stays or is kept. */
  lemma StaysBelow(p: Parts, smallest: nat, base: iset<UserKey>, user: UserKey, s: nat, e: Entry)
    requires ValidParts(p, smallest, base)
    requires forall x :: x in p.c0 + p.r0 ==> !Visible(x, user, s)
    requires Newest(p.c1 + p.r1, user, s) == Some(e) && e in p.r1 + p.kept
    ensures Newest(p.r1 + p.kept, user, s) == Some(e)
  {
    NewestIs(p.r1 + p.kept, user, s, Some(e));
  }

  /** The lower level answers with a tombstone that is dropped: only a tombstone can be left. */
  lemma DroppedNext(
    p: Parts, up: iset<Entry>, smallest: nat, base: iset<UserKey>, user: UserKey, s: nat, e: Entry, r: Option<Entry>)
    requires ValidParts(p, smallest, base) && smallest <= s
    requires forall x :: x in up + p.c0 + p.r0 ==> !Visible(x, user, s)
    requires Newest(p.c1 + p.r1, user, s) == Some(e) && e in p.c1 && e !in p.kept
    requires forall x :: !DropExposes(p, up, e, x, smallest, base)
    requires r == Newest(p.r1 + p.kept, user, s)
    ensures e.kind == Deletion && user in base && (r.Some? ==> r.value.kind == Deletion)
  {
    DroppedBelow(p, smallest, base, user, s, e);
    if r.Some? {
      var x := r.value;
      assert x in p.r1 && x != e;
      assert x.seqno < e.seqno by {
        assert x in p.c1 + p.r1;
        assert x.seqno != e.seqno;
      }
      forall y | y in p.r1 && y.user == e.user && y.seqno < e.seqno ensures y.seqno <= x.seqno {
        assert Visible(y, user, s) && y in p.r1 + p.kept;
      }
      assert NextOlder(p.r1, e, x);
      assert Exposed(up + p.c0 + p.r0 + p.c1 + p.r1, e, smallest);
      assert !DropExposes(p, up, e, x, smallest, base);
    }
  }

  ghost predicate Exposes(p: Parts, up: iset<Entry>, smallest: nat, base: iset<UserKey>) {
    || (exists e, b :: CutExposes(p, up, e, b, smallest))
    || (exists e, x :: DropExposes(p, up, e, x, smallest, base))
  }

  /** Nothing exposed: the upper level's answer is not lost. */
  lemma AboveKeeps(
    p: Parts, up: iset<Entry>, d: Option<Entry>, smallest: nat, base: iset<UserKey>, user: UserKey, s: nat)
    requires ValidParts(p, smallest, base) && smallest <= s && (user in base ==> d == None)
    requires forall x :: x in up ==> !Visible(x, user, s)
    requires !Exposes(p, up, smallest, base) && Newest(p.c0 + p.r0, user, s).Some?
    ensures Live(Before2(p, d, user, s)) == Live(After2(p, d, user, s))
  {
    hide ValidParts, Exposed, NextOlder;
    var e := Newest(p.c0 + p.r0, user, s).value;
    var r := Newest(p.r0, user, s);
    PartsUnique(p, smallest, base);
    if e in p.r0 {
      StaysAbove(p, smallest, base, user, s, e);
    } else if r.Some? {
      assert !CutExposes(p, up, e, r.value, smallest);
      OlderAbove(p, up, smallest, base, user, s, e, r.value);
    } else if e in p.kept {
      KeptBelow(p, smallest, base, user, s, e);
    } else {
      ChosenAbove(p, smallest, base, user, s, e);
      DroppedBelow(p, smallest, base, user, s, e);
      NoOtherBelow(p, smallest, base, user, s, e);
    }
  }

  lemma PartsUnique(p: Parts, smallest: nat, base: iset<UserKey>)
    requires ValidParts(p, smallest, base)
    ensures Unique(p.c0 + p.r0) && Unique(p.c1 + p.r1) && Unique(p.r0) && Unique(p.r1 + p.kept)
    ensures Newer(p.c0 + p.r0, p.c1 + p.r1) && p.kept <= p.c0 + p.c1
  {
  }

  /** What the upper level answers with is newer than every chosen entry it sees. */
  lemma ChosenAbove(p: Parts, smallest: nat, base: iset<UserKey>, user: UserKey, s: nat, e: Entry)
    requires ValidParts(p, smallest, base) && Newest(p.c0 + p.r0, user, s) == Some(e)
    ensures forall x :: x in p.c0 + p.c1 && Visible(x, user, s) ==> x.seqno <= e.seqno
  {
    forall x | x in p.c0 + p.c1 && Visible(x, user, s) ensures x.seqno <= e.seqno {
      if x in p.c0 {
        assert x in p.c0 + p.r0;
      } else {
        assert e in p.c0 + p.r0 && x in p.c1 + p.r1;
      }
    }
  }

  /** No entry of a chosen key of the upper level stays in the lower one. */
  lemma NoOtherBelow(p: Parts, smallest: nat, base: iset<UserKey>, user: UserKey, s: nat, e: Entry)
    requires ValidParts(p, smallest, base) && e in p.c0 && e.user == user
    requires forall y :: y in p.kept ==> !Visible(y, user, s)
    ensures Newest(p.r1 + p.kept, user, s) == None
  {
    NoneNewest(p.r1 + p.kept, user, s);
  }

  /** Nothing exposed: nor is the lower level's. */
  lemma BelowKeeps(
    p: Parts, up: iset<Entry>, d: Option<Entry>, smallest: nat, base: iset<UserKey>, user: UserKey, s: nat)
    requires ValidParts(p, smallest, base) && smallest <= s && (user in base ==> d == None)
    requires forall x :: x in up ==> !Visible(x, user, s)
    requires !Exposes(p, up, smallest, base) && Newest(p.c0 + p.r0, user, s) == None
    ensures Live(Before2(p, d, user, s)) == Live(After2(p, d, user, s))
  {
    hide ValidParts, Exposed, NextOlder;
    PartsUnique(p, smallest, base);
    NoneNewest(p.r0, user, s);
    var n := Newest(p.c1 + p.r1, user, s);
    if n == None {
      NoneNewest(p.r1 + p.kept, user, s);
    } else if n.value in p.r1 + p.kept {
      StaysBelow(p, smallest, base, user, s, n.value);
    } else {
      forall x ensures !DropExposes(p, up, n.value, x, smallest, base) {
      }
      DroppedNext(p, up, smallest, base, user, s, n.value, Newest(p.r1 + p.kept, user, s));
    }
  }

  // ---------------------------------------------------------------- what is exposed is seen

  /** A lookup just above an entry that the upper level is cut under. */
  lemma CutIsSeen(
    p: Parts, up: iset<Entry>, smallest: nat, base: iset<UserKey>, e: Entry, b: Entry, d: Option<Entry>, s: nat)
    requires ValidParts(p, smallest, base) && Newer(up, p.c0 + p.r0 + p.c1 + p.r1)
    requires CutExposes(p, up, e, b, smallest) && s == (if smallest < e.seqno then e.seqno else smallest)
    ensures forall x :: x in up ==> !Visible(x, e.user, s)
    ensures Before2(p, d, e.user, s) == Some(e) && After2(p, d, e.user, s) == Some(b)
  {
    NewestIs(p.c0 + p.r0, e.user, s, Some(e));
    forall y | y in p.r0 && Visible(y, e.user, s) ensures y.seqno <= b.seqno {
      assert y.seqno != e.seqno;
    }
    NewestIs(p.r0, e.user, s, Some(b));
  }

  /** A lookup at the smallest snapshot, where a tombstone is dropped over a value that stays. */
  lemma DropIsSeen(
    p: Parts, up: iset<Entry>, smallest: nat, base: iset<UserKey>, e: Entry, x: Entry, d: Option<Entry>)
    requires ValidParts(p, smallest, base) && Newer(up, p.c0 + p.r0 + p.c1 + p.r1)
    requires DropExposes(p, up, e, x, smallest, base)
    ensures forall y :: y in up ==> !Visible(y, e.user, smallest)
    ensures Before2(p, d, e.user, smallest) == Some(e) && After2(p, d, e.user, smallest) == Some(x)
  {
    PartsUnique(p, smallest, base);
    AboveSeesNone(p, up, smallest, base, e, x);
    LeftUnderDrop(p, up, smallest, base, e, x);
    hide ValidParts, HiddenIn;
    NoneNewest(p.c0 + p.r0, e.user, smallest);
    NoneNewest(p.r0, e.user, smallest);
    NewestIs(p.c1 + p.r1, e.user, smallest, Some(e));
    NewestIs(p.r1 + p.kept, e.user, smallest, Some(x));
  }

  lemma AboveSeesNone(p: Parts, up: iset<Entry>, smallest: nat, base: iset<UserKey>, e: Entry, x: Entry)
    requires ValidParts(p, smallest, base) && Newer(up, p.c0 + p.r0 + p.c1 + p.r1)
    requires DropExposes(p, up, e, x, smallest, base)
    ensures forall y :: y in up || y in p.c0 || y in p.r0 ==> !Visible(y, e.user, smallest)
  {
    hide NextOlder;
  }

  /** What is left of the key of a dropped tombstone is not newer than the value that stays. */
  lemma LeftUnderDrop(p: Parts, up: iset<Entry>, smallest: nat, base: iset<UserKey>, e: Entry, x: Entry)
    requires ValidParts(p, smallest, base) && Newer(up, p.c0 + p.r0 + p.c1 + p.r1)
    requires DropExposes(p, up, e, x, smallest, base)
    ensures forall y :: y in p.r1 + p.kept && Visible(y, e.user, smallest) ==> y.seqno <= x.seqno
  {
    AboveSeesNone(p, up, smallest, base, e, x);
    forall y | y in p.c1 && y != e && Visible(y, e.user, smallest) ensures y !in p.kept {
      assert y.seqno != e.seqno;
      assert HiddenIn(p.c0 + p.c1, y, smallest);
    }
    forall y | y in p.r1 && Visible(y, e.user, smallest) ensures y.seqno <= x.seqno {
      assert y.seqno != e.seqno;
    }
  }

  // ---------------------------------------------------------------- a compaction's parts

  ghost function PartsOf(v: Version, w: Work): Parts
    requires w.level + 1 < |v|
  {
    Parts(LevelEntries(w.inputs0), Unchosen(v[w.level], w.inputs0),
          LevelEntries(w.inputs1), Unchosen(v[w.level + 1], w.inputs1), KeptEntries(v, w))
  }

  ghost function BaseKeys(v: Version, level: nat): iset<UserKey> {
    iset user | IsBase(v, level, user)
  }

  lemma LevelSplits(ts: Level, chosen: Level)
    requires forall t :: t in chosen ==> t in ts
    ensures LevelEntries(chosen) + Unchosen(ts, chosen) == LevelEntries(ts)
  {
  }

  lemma ChosenApart(ts: Level, chosen: Level)
    requires ValidLevel(ts) && Disjoint(ts) && forall t :: t in chosen ==> t in ts
    ensures LevelEntries(chosen) !! Unchosen(ts, chosen)
  {
    forall e | e in LevelEntries(chosen) ensures e !in Unchosen(ts, chosen) {
      var t :| t in chosen && e in t.entries;
      var i :| 0 <= i < |ts| && ts[i] == t;
      forall g | g in ts && e in g.entries ensures g == t {
        var j :| 0 <= j < |ts| && ts[j] == g;
        OneTable(ts, i, j, e);
      }
    }
  }

  /** In the first level, the tables left share no user key with the chosen ones. */
  lemma FirstLevelApart(v: Version, inputs0: Level)
    requires Chosen0(v, 0, inputs0) && ValidLevel(v[0])
    ensures LevelEntries(inputs0) !! Unchosen(v[0], inputs0)
  {
    forall e | e in LevelEntries(inputs0) ensures e !in Unchosen(v[0], inputs0) {
      var t :| t in inputs0 && e in t.entries;
      forall g | g in v[0] && e in g.entries ensures g in inputs0 {
        OutsideHull(inputs0, t, e, g, e);
      }
    }
  }

  lemma OlderLater(es: seq<Entry>, i: nat, j: nat)
    requires Sorted(es) && i <= j < |es| && es[i].user == es[j].user
    ensures es[i].seqno >= es[j].seqno
  {
    assert i == j || Before(es[i], es[j]);
  }

  lemma HiddenInMerged(es: seq<Entry>, i: nat, smallest: nat)
    requires Sorted(es) && Unique(SeqEntries(es)) && i < |es|
    ensures Hidden(es, i, smallest) <==> HiddenIn(SeqEntries(es), es[i], smallest)
  {
    hide Sorted;
    if Hidden(es, i, smallest) {
      var j :| 0 <= j < i && es[j].user == es[i].user && es[j].seqno <= smallest;
      OlderLater(es, j, i);
      NotTwice(es, j, i);
      assert es[j] in SeqEntries(es) && es[i] in SeqEntries(es);
    }
    if HiddenIn(SeqEntries(es), es[i], smallest) {
      var y :| y in SeqEntries(es) && y.user == es[i].user && es[i].seqno < y.seqno <= smallest;
      var j :| 0 <= j < |es| && es[j] == y;
      if i <= j {
        OlderLater(es, i, j);
      }
    }
  }

  lemma NotTwice(es: seq<Entry>, i: nat, j: nat)
    requires Sorted(es) && i < j < |es|
    ensures es[i] != es[j]
  {
    assert Before(es[i], es[j]);
  }

  /** What the loop keeps, without its order. */
  lemma KeptIs(v: Version, w: Work, e: Entry)
    requires Sorted(w.merged) && Unique(SeqEntries(w.merged))
    ensures e in KeptEntries(v, w) <==>
      && e in SeqEntries(w.merged) && !HiddenIn(SeqEntries(w.merged), e, w.smallest)
      && !ObsoleteTombstone(e, w.smallest, v, w.level)
  {
    SurvivorsMembers(w.merged, |w.merged|, w.smallest, v, w.level);
    forall i | 0 <= i < |w.merged|
      ensures Hidden(w.merged, i, w.smallest) <==> HiddenIn(SeqEntries(w.merged), w.merged[i], w.smallest)
    {
      HiddenInMerged(w.merged, i, w.smallest);
    }
  }

  lemma LevelParts(v: Version, w: Work)
    requires ValidVersion(v) && Picked(v, w.level, w.inputs0, w.inputs1)
    ensures var p := PartsOf(v, w);
      && p.c0 + p.r0 == LevelEntries(v[w.level]) && p.c1 + p.r1 == LevelEntries(v[w.level + 1])
      && p.c0 !! p.r0 && p.c1 !! p.r1
      && (forall e, x :: e in p.c0 && x in p.r1 ==> e.user != x.user)
  {
    hide ValidVersion, Picked, NextPicked, LevelEntries, Unchosen, KeptEntries;
    InputsInLevels(v, w.level, w.inputs0, w.inputs1);
    PickedNext(v, w.level, w.inputs0, w.inputs1);
    LevelsApart(v, w.level, w.inputs0, w.inputs1);
    LevelSplits(v[w.level], w.inputs0);
    LevelSplits(v[w.level + 1], w.inputs1);
    forall e, x | e in LevelEntries(w.inputs0) && x in Unchosen(v[w.level + 1], w.inputs1) ensures e.user != x.user {
      LeftInNext(v[w.level + 1], w.inputs0, w.inputs1, x, e);
    }
  }

  lemma LevelsApart(v: Version, level: nat, inputs0: Level, inputs1: Level)
    requires ValidVersion(v) && Picked(v, level, inputs0, inputs1)
    ensures LevelEntries(inputs0) !! Unchosen(v[level], inputs0)
    ensures LevelEntries(inputs1) !! Unchosen(v[level + 1], inputs1)
  {
    hide LevelsOrdered, AgeOrdered, LevelEntries, Unchosen, ValidTable;
    InputsInLevels(v, level, inputs0, inputs1);
    ChosenApart(v[level + 1], inputs1);
    if level == 0 {
      FirstLevelApart(v, inputs0);
    } else {
      ChosenApart(v[level], inputs0);
    }
  }

  lemma MergedIs(w: Work)
    requires SeqEntries(w.merged) == LevelEntries(w.inputs0 + w.inputs1)
    ensures SeqEntries(w.merged) == LevelEntries(w.inputs0) + LevelEntries(w.inputs1)
  {
  }

  lemma TwoLevels(v: Version, level: nat)
    requires LevelsOrdered(v) && Unique(VersionEntries(v)) && level + 1 < |v|
    ensures Unique(LevelEntries(v[level]) + LevelEntries(v[level + 1]))
    ensures Newer(LevelEntries(v[level]), LevelEntries(v[level + 1]))
  {
    assert v[level] in v && v[level + 1] in v;
  }

  lemma LevelsAreOrdered(v: Version)
    requires ValidVersion(v)
    ensures LevelsOrdered(v)
  {
  }

  lemma JoinParts(p: Parts, a: iset<Entry>, b: iset<Entry>, merged: iset<Entry>)
    requires p.c0 + p.r0 == a && p.c1 + p.r1 == b && merged == p.c0 + p.c1 && Unique(a + b)
    ensures p.c0 + p.r0 + p.c1 + p.r1 == a + b && Unique(merged)
  {
    assert p.c0 + p.r0 + p.c1 + p.r1 == (p.c0 + p.r0) + (p.c1 + p.r1);
    assert merged <= a + b;
  }

  lemma PartsValid(v: Version, nextFile: nat, w: Work, nextFile': nat)
    requires ValidVersion(v) && Unique(VersionEntries(v)) && Worked(v, nextFile, w, nextFile')
    ensures w.level + 1 < |v| && ValidParts(PartsOf(v, w), w.smallest, BaseKeys(v, w.level))
  {
    hide ValidVersion, LevelsOrdered, Picked, Sorted, Unique, Newer, VersionEntries, LevelEntries, SeqEntries,
      Unchosen, KeptEntries,
      ValidLevel, Flatten, Survivors, NumberedFrom, HiddenIn;
    WorkInRange(v, nextFile, w, nextFile');
    var p := PartsOf(v, w);
    LevelParts(v, w);
    MergedIs(w);
    LevelsAreOrdered(v);
    TwoLevels(v, w.level);
    JoinParts(p, LevelEntries(v[w.level]), LevelEntries(v[w.level + 1]), SeqEntries(w.merged));
    forall e ensures e in p.kept <==> e in p.c0 + p.c1 && !Dropped(p, e, w.smallest, BaseKeys(v, w.level)) {
      KeptIs(v, w, e);
    }
  }

  // ---------------------------------------------------------------- a compaction's lookups

  ghost predicate AlikeOutside(v: Version, v': Version, level: nat) {
    && |v| == |v'| && level + 1 < |v|
    && forall i :: 0 <= i < |v| && i != level && i != level + 1 ==> v'[i] == v[i]
  }

  ghost predicate SeesNone(v: Version, from: nat, level: nat, user: UserKey, s: nat) {
    forall l, x :: from <= l < level && l < |v| && x in LevelEntries(v[l]) ==> !Visible(x, user, s)
  }

  /** The levels above the compacted one answer alike, or pass the lookup on. */
  lemma {:induction false} LookupAbove(v: Version, v': Version, from: nat, level: nat, user: UserKey, s: nat)
    requires AlikeOutside(v, v', level) && from <= level
    ensures SeesNone(v, from, level, user, s) ==>
      && LookupFrom(v, from, user, s) == LookupFrom(v, level, user, s)
      && LookupFrom(v', from, user, s) == LookupFrom(v', level, user, s)
    ensures !SeesNone(v, from, level, user, s) ==> LookupFrom(v, from, user, s) == LookupFrom(v', from, user, s)
    decreases level - from
  {
    if from < level {
      LookupAbove(v, v', from + 1, level, user, s);
      assert v'[from] == v[from];
      if Newest(LevelEntries(v[from]), user, s) == None {
        assert forall x :: x in LevelEntries(v[from]) ==> !Visible(x, user, s);
        assert SeesNone(v, from, level, user, s) <==> SeesNone(v, from + 1, level, user, s);
      } else {
        assert !SeesNone(v, from, level, user, s);
      }
    }
  }

  lemma {:induction false} LookupBelow(v: Version, v': Version, level: nat, from: nat, user: UserKey, s: nat)
    requires AlikeOutside(v, v', level) && level + 2 <= from
    ensures LookupFrom(v, from, user, s) == LookupFrom(v', from, user, s)
    decreases |v| - from
  {
    if from < |v| {
      LookupBelow(v, v', level, from + 1, user, s);
    }
  }

  /** A base-level key is in no deeper level. */
  lemma NoneDeeper(v: Version, level: nat, user: UserKey, s: nat)
    requires ValidVersion(v) && user in BaseKeys(v, level)
    ensures LookupFrom(v, level + 2, user, s) == None
  {
    BaseHasNothingDeeper(v, level, user);
    LookupIsNewest(v, level + 2, user, s);
    assert EntriesFrom(v, level + 2) == Deeper(v, level);
  }

  lemma LookupHere(v: Version, level: nat, user: UserKey, s: nat, upper: iset<Entry>, lower: iset<Entry>)
    requires level + 1 < |v| && LevelEntries(v[level]) == upper && LevelEntries(v[level + 1]) == lower
    ensures LookupFrom(v, level, user, s) ==
      First(Newest(upper, user, s), First(Newest(lower, user, s), LookupFrom(v, level + 2, user, s)))
  {
    hide Newest;
    assert LookupFrom(v, level + 1, user, s) == First(Newest(lower, user, s), LookupFrom(v, level + 2, user, s));
  }

  lemma InputsInLevels(v: Version, level: nat, inputs0: Level, inputs1: Level)
    requires Picked(v, level, inputs0, inputs1)
    ensures level + 1 < |v|
    ensures forall t :: t in inputs0 ==> t in v[level]
    ensures forall t :: t in inputs1 ==> t in v[level + 1]
  {
  }

  /** What the compaction leaves in its two levels. */
  lemma PartsAfter(v: Version, nextFile: nat, w: Work, nextFile': nat, v': Version)
    requires ValidVersion(v) && Numbered(v, nextFile) && Worked(v, nextFile, w, nextFile')
    requires Reshaped(v, w.level, w.inputs0, w.inputs1, w.outputs, v')
    ensures AlikeOutside(v, v', w.level)
    ensures LevelEntries(v'[w.level]) == PartsOf(v, w).r0
    ensures LevelEntries(v'[w.level + 1]) == PartsOf(v, w).r1 + PartsOf(v, w).kept
  {
    hide ValidVersion, Numbered, Sorted, SeqEntries, LevelEntries, ValidLevel, Flatten, Survivors, NumberedFrom,
      Disjoint,
      FreshNumbers, Saved, Unchosen, Overlapping;
    OutputsFresh(v, nextFile, w.level, w.inputs0, w.inputs1, w.merged, w.smallest, w.outputs, nextFile');
    InputsInLevels(v, w.level, w.inputs0, w.inputs1);
    ReshapedLevel(v, nextFile, w.level, w.inputs0, w.inputs1, w.outputs, v');
    ReshapedNext(v, nextFile, w.level, w.inputs0, w.inputs1, w.outputs, v');
  }

  ghost predicate Reaches(m: iset<Entry>, v: Version, level: nat, user: UserKey, s: nat) {
    forall x :: x in m + Shallower(v, level) ==> !Visible(x, user, s)
  }

  lemma ReachesSplits(m: iset<Entry>, v: Version, level: nat, user: UserKey, s: nat)
    requires Unique(m)
    ensures Reaches(m, v, level, user, s) <==> Newest(m, user, s) == None && SeesNone(v, 0, level, user, s)
  {
    if SeesNone(v, 0, level, user, s) {
      forall x | x in Shallower(v, level) ensures !Visible(x, user, s) {
        var l :| 0 <= l < level && l < |v| && x in LevelEntries(v[l]);
      }
    }
    if Reaches(m, v, level, user, s) {
      NoneNewest(m, user, s);
      forall l, x | 0 <= l < level && l < |v| && x in LevelEntries(v[l]) ensures !Visible(x, user, s) {
        assert x in Shallower(v, level);
      }
    }
  }

  /** A lookup before and after, in terms of the parts. */
  lemma LookupParts(
    m: iset<Entry>, v: Version, nextFile: nat, w: Work, nextFile': nat, v': Version, user: UserKey, s: nat)
    requires ValidVersion(v) && Numbered(v, nextFile) && Unique(m) && Worked(v, nextFile, w, nextFile')
    requires Reshaped(v, w.level, w.inputs0, w.inputs1, w.outputs, v')
    ensures w.level + 1 < |v|
    ensures var p, d := PartsOf(v, w), LookupFrom(v, w.level + 2, user, s);
      if Reaches(m, v, w.level, user, s)
      then Lookup(m, v, user, s) == Before2(p, d, user, s) && Lookup(m, v', user, s) == After2(p, d, user, s)
      else Lookup(m, v, user, s) == Lookup(m, v', user, s)
  {
    hide ValidVersion, Numbered, Unique, Worked, Reshaped, LevelEntries, Newest, Reaches, SeesNone, LookupFrom,
      Unchosen, KeptEntries;
    PartsAfter(v, nextFile, w, nextFile', v');
    WorkInRange(v, nextFile, w, nextFile');
    WorkParts(v, nextFile, w, nextFile');
    var p := PartsOf(v, w);
    ReachesSplits(m, v, w.level, user, s);
    LookupAbove(v, v', 0, w.level, user, s);
    LookupBelow(v, v', w.level, w.level + 2, user, s);
    LookupHere(v, w.level, user, s, p.c0 + p.r0, p.c1 + p.r1);
    LookupHere(v', w.level, user, s, p.r0, p.r1 + p.kept);
  }

  lemma WorkParts(v: Version, nextFile: nat, w: Work, nextFile': nat)
    requires ValidVersion(v) && Worked(v, nextFile, w, nextFile')
    ensures w.level + 1 < |v|
    ensures var p := PartsOf(v, w);
      p.c0 + p.r0 == LevelEntries(v[w.level]) && p.c1 + p.r1 == LevelEntries(v[w.level + 1])
  {
    hide ValidVersion, PartsOf;
    WorkInRange(v, nextFile, w, nextFile');
    LevelParts(v, w);
  }

  /** Callers see the same at every snapshot from `smallest` up. */
  ghost predicate SameAnswers(m: iset<Entry>, v: Version, v': Version, smallest: nat) {
    forall user, s :: smallest <= s ==> Live(Lookup(m, v, user, s)) == Live(Lookup(m, v', user, s))
  }

  /** A compaction brings an older version of some key to light. */
  ghost predicate BringsBack(m: iset<Entry>, v: Version, w: Work)
    requires w.level + 1 < |v|
  {
    Exposes(PartsOf(v, w), m + Shallower(v, w.level), w.smallest, BaseKeys(v, w.level))
  }

  lemma AboveIsNewer(m: iset<Entry>, v: Version, w: Work)
    requires LevelsOrdered(v) && w.level + 1 < |v| && Newer(m, VersionEntries(v))
    requires var p := PartsOf(v, w);
      p.c0 + p.r0 == LevelEntries(v[w.level]) && p.c1 + p.r1 == LevelEntries(v[w.level + 1])
    ensures var p := PartsOf(v, w); Newer(m + Shallower(v, w.level), p.c0 + p.r0 + p.c1 + p.r1)
  {
    hide PartsOf;
    var p := PartsOf(v, w);
    var two := LevelEntries(v[w.level]) + LevelEntries(v[w.level + 1]);
    ShallowerIsNewer(v, w.level, two);
    InVersion(v, w.level);
    assert p.c0 + p.r0 + p.c1 + p.r1 == (p.c0 + p.r0) + (p.c1 + p.r1);
  }

  lemma InVersion(v: Version, level: nat)
    requires level + 1 < |v|
    ensures LevelEntries(v[level]) + LevelEntries(v[level + 1]) <= VersionEntries(v)
  {
    assert v[level] in v && v[level + 1] in v;
  }

  lemma NothingBackKeepsAnswers(
    m: iset<Entry>, v: Version, nextFile: nat, w: Work, nextFile': nat, v': Version, user: UserKey, s: nat)
    requires ValidVersion(v) && Numbered(v, nextFile) && Unique(m) && Unique(VersionEntries(v))
    requires Worked(v, nextFile, w, nextFile') && Reshaped(v, w.level, w.inputs0, w.inputs1, w.outputs, v')
    requires w.level + 1 < |v| && !BringsBack(m, v, w) && w.smallest <= s
    ensures Live(Lookup(m, v, user, s)) == Live(Lookup(m, v', user, s))
  {
    hide ValidVersion, Numbered, Unique, VersionEntries, Worked, Reshaped, PartsOf, ValidParts, Exposes, Lookup,
      LookupFrom, Before2, After2, BaseKeys, Newest;
    LookupParts(m, v, nextFile, w, nextFile', v', user, s);
    PartsValid(v, nextFile, w, nextFile');
    if Reaches(m, v, w.level, user, s) {
      var p, d, up, base := PartsOf(v, w), LookupFrom(v, w.level + 2, user, s), m + Shallower(v, w.level),
        BaseKeys(v, w.level);
      if user in base {
        NoneDeeper(v, w.level, user, s);
      }
      if Newest(p.c0 + p.r0, user, s) == None {
        BelowKeeps(p, up, d, w.smallest, base, user, s);
      } else {
        AboveKeeps(p, up, d, w.smallest, base, user, s);
      }
    }
  }

  lemma BroughtBackIsSeen(m: iset<Entry>, v: Version, nextFile: nat, w: Work, nextFile': nat, v': Version)
    requires ValidVersion(v) && Numbered(v, nextFile) && Unique(m) && Unique(VersionEntries(v))
    requires Worked(v, nextFile, w, nextFile') && Reshaped(v, w.level, w.inputs0, w.inputs1, w.outputs, v')
    requires Newer(m, VersionEntries(v)) && w.level + 1 < |v| && BringsBack(m, v, w)
    ensures !SameAnswers(m, v, v', w.smallest)
  {
    hide ValidVersion, Numbered, Unique, Newer, VersionEntries, Worked, Reshaped, PartsOf, ValidParts, Lookup,
      LookupFrom, Before2, After2, BaseKeys, Exposed, NextOlder, LevelsOrdered;
    var p, up, base := PartsOf(v, w), m + Shallower(v, w.level), BaseKeys(v, w.level);
    PartsValid(v, nextFile, w, nextFile');
    WorkParts(v, nextFile, w, nextFile');
    LevelsAreOrdered(v);
    AboveIsNewer(m, v, w);
    if e, b :| CutExposes(p, up, e, b, w.smallest) {
      var s := if w.smallest < e.seqno then e.seqno else w.smallest;
      CutIsSeen(p, up, w.smallest, base, e, b, LookupFrom(v, w.level + 2, e.user, s), s);
      LookupParts(m, v, nextFile, w, nextFile', v', e.user, s);
      OlderIsOther(p, up, e, b, w.smallest);
      assert Live(Lookup(m, v, e.user, s)) != Live(Lookup(m, v', e.user, s));
    } else {
      var e, x :| DropExposes(p, up, e, x, w.smallest, base);
      DropIsSeen(p, up, w.smallest, base, e, x, LookupFrom(v, w.level + 2, e.user, w.smallest));
      LookupParts(m, v, nextFile, w, nextFile', v', e.user, w.smallest);
      assert Live(Lookup(m, v, e.user, w.smallest)) != Live(Lookup(m, v', e.user, w.smallest));
    }
  }

  lemma OlderIsOther(p: Parts, up: iset<Entry>, e: Entry, b: Entry, smallest: nat)
    requires CutExposes(p, up, e, b, smallest)
    ensures e != b && Live(Some(e)) != Live(Some(b))
  {
  }

  /**
   * A compaction as the code picks and works it, with no condition on where levels are
   * cut, keeps what callers see at every snapshot from its smallest up exactly when it
   * brings nothing back.
   */
  lemma CompactionKeepsAnswersExactlyWhenNothingComesBack(
    m: iset<Entry>, v: Version, nextFile: nat, w: Work, nextFile': nat, v': Version)
    requires ValidVersion(v) && Numbered(v, nextFile) && Newer(m, VersionEntries(v)) && Unique(m + VersionEntries(v))
    requires Worked(v, nextFile, w, nextFile') && Reshaped(v, w.level, w.inputs0, w.inputs1, w.outputs, v')
    ensures w.level + 1 < |v| && (SameAnswers(m, v, v', w.smallest) <==> !BringsBack(m, v, w))
  {
    hide ValidVersion, Numbered, Newer, VersionEntries, Worked, Reshaped, BringsBack, Lookup;
    WorkInRange(v, nextFile, w, nextFile');
    UniqueParts(m, VersionEntries(v));
    if BringsBack(m, v, w) {
      BroughtBackIsSeen(m, v, nextFile, w, nextFile', v');
    } else {
      forall user, s | w.smallest <= s ensures Live(Lookup(m, v, user, s)) == Live(Lookup(m, v', user, s)) {
        NothingBackKeepsAnswers(m, v, nextFile, w, nextFile', v', user, s);
      }
    }
  }

  lemma UniqueParts(a: iset<Entry>, b: iset<Entry>)
    requires Unique(a + b)
    ensures Unique(a) && Unique(b)
  {
    assert a <= a + b && b <= a + b;
  }

  lemma NewerLeftExposesNothing(p: Parts, up: iset<Entry>, merged: iset<Entry>, smallest: nat)
    requires p.c0 <= merged && Newer(p.r0, merged)
    ensures forall e, b :: !CutExposes(p, up, e, b, smallest)
  {
  }

  lemma HiddenDropExposesNothing(p: Parts, up: iset<Entry>, e: Entry, x: Entry, smallest: nat, base: iset<UserKey>)
    requires e in p.c1 && HiddenIn(p.c0 + p.c1, e, smallest)
    ensures !DropExposes(p, up, e, x, smallest, base)
  {
  }

  /** A covered compaction is one that brings nothing back. */
  lemma CoveredBringsNothingBack(m: iset<Entry>, v: Version, nextFile: nat, w: Work, nextFile': nat)
    requires ValidVersion(v) && Unique(VersionEntries(v)) && Worked(v, nextFile, w, nextFile') && Covered(v, w)
    ensures w.level + 1 < |v| && !BringsBack(m, v, w)
  {
    hide ValidVersion, Unique, VersionEntries, Worked, Newer, Picked, Uncut, SeqEntries, LevelEntries, Unchosen, IsBase,
      KeptEntries, Exposed, HiddenIn, CutExposes, Shallower;
    WorkInRange(v, nextFile, w, nextFile');
    MergedIs(w);
    PickedLeavesNewer(v, w.level, w.inputs0, w.inputs1);
    var p, up, base := PartsOf(v, w), m + Shallower(v, w.level), BaseKeys(v, w.level);
    NewerLeftExposesNothing(p, up, SeqEntries(w.merged), w.smallest);
    forall e, x ensures !DropExposes(p, up, e, x, w.smallest, base) {
      if DropExposes(p, up, e, x, w.smallest, base) {
        assert LostBeside(v, w.level, e, x, w.smallest);
        HiddenDropExposesNothing(p, up, e, x, w.smallest, base);
      }
    }
  }
}
