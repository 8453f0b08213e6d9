/** The compaction loop: which entries it drops, and why no read can tell. */
module Compactions {
  import opened InternalKeys
  import opened Lookups
  import opened Options
  import opened Versions
  import opened Picking

  const MAX_OUTPUT_FILE_SIZE: nat := 2 * 1048576

  /** No table two or more levels below `level` covers the key. */
  ghost predicate IsBase(v: Version, level: nat, user: UserKey) {
    forall l, t :: level + 2 <= l < |v| && t in v[l] ==> !Covers(t, user)
  }

  /** A newer entry of the same user key is already at or below every live snapshot. */
  ghost predicate Hidden(es: seq<Entry>, i: nat, smallest: nat)
    requires i < |es|
  {
    exists j :: 0 <= j < i && es[j].user == es[i].user && es[j].seqno <= smallest
  }

  ghost predicate ObsoleteTombstone(e: Entry, smallest: nat, v: Version, level: nat) {
    e.kind == Deletion && e.seqno <= smallest && IsBase(v, level, e.user)
  }

  /**
   * No tombstone is dropped while an older version of its key stays in the next level,
   * in a table that was not chosen: such a tombstone is hidden by a newer chosen entry.
   */
  ghost predicate TombstonesStay(v: Version, level: nat, inputs1: Level, chosen: iset<Entry>, smallest: nat)
    requires level + 1 < |v|
  {
    forall e, x :: e in chosen && x in Unchosen(v[level + 1], inputs1) && LostBeside(v, level, e, x, smallest) ==>
      HiddenIn(chosen, e, smallest)
  }

  /** Dropping tombstone `e` leaves `x` without it. */
  ghost predicate LostBeside(v: Version, level: nat, e: Entry, x: Entry, smallest: nat) {
    ObsoleteTombstone(e, smallest, v, level) && x.user == e.user && x.seqno <= e.seqno
  }

  ghost predicate HiddenIn(chosen: iset<Entry>, e: Entry, smallest: nat) {
    exists y :: y in chosen && y.user == e.user && e.seqno < y.seqno <= smallest
  }

  ghost predicate Kept(es: seq<Entry>, i: nat, smallest: nat, v: Version, level: nat)
    requires i < |es|
  {
    !Hidden(es, i, smallest) && !ObsoleteTombstone(es[i], smallest, v, level)
  }

  /** The kept entries among the first `n`, in order. */
  ghost function Survivors(es: seq<Entry>, n: nat, smallest: nat, v: Version, level: nat): seq<Entry>
    requires n <= |es|
  {
    if n == 0 then []
    else Survivors(es, n - 1, smallest, v, level) + if Kept(es, n - 1, smallest, v, level) then [es[n - 1]] else []
  }

  lemma {:induction false} SurvivorsMembers(es: seq<Entry>, n: nat, smallest: nat, v: Version, level: nat)
    requires n <= |es|
    ensures forall e :: e in Survivors(es, n, smallest, v, level) <==>
              exists i :: 0 <= i < n && es[i] == e && Kept(es, i, smallest, v, level)
  {
    if n > 0 {
      SurvivorsMembers(es, n - 1, smallest, v, level);
    }
  }

  lemma {:induction false} SurvivorsSorted(es: seq<Entry>, n: nat, smallest: nat, v: Version, level: nat)
    requires n <= |es| && Sorted(es)
    ensures Sorted(Survivors(es, n, smallest, v, level))
  {
    if n > 0 {
      SurvivorsSorted(es, n - 1, smallest, v, level);
      SurvivorsMembers(es, n - 1, smallest, v, level);
      var kept := Survivors(es, n - 1, smallest, v, level);
      assert forall i :: 0 <= i < |kept| ==> kept[i] in kept;
    }
  }

  /** In sorted input only the entry just before can hide, as the loop assumes. */
  lemma HiddenByPrevious(es: seq<Entry>, i: nat, smallest: nat)
    requires i < |es| && Sorted(es)
    ensures Hidden(es, i, smallest) <==> i > 0 && es[i - 1].user == es[i].user && es[i - 1].seqno <= smallest
  {
    if Hidden(es, i, smallest) {
      var j :| 0 <= j < i && es[j].user == es[i].user && es[j].seqno <= smallest;
      assert j == i - 1 || Before(es[j], es[i - 1]);
      assert Before(es[i - 1], es[i]);
    }
  }

  /** A reader at some snapshot that is still in use would be given the entry. */
  ghost predicate Seen(es: seq<Entry>, e: Entry, smallest: nat) {
    exists snapshot: nat :: Newest(SeqEntries(es), e.user, snapshot) == Some(e) && smallest <= snapshot
  }

  lemma LaterIsOlder(es: seq<Entry>, i: nat, j: nat)
    requires i < j < |es| && Sorted(es) && Unique(SeqEntries(es)) && es[i].user == es[j].user
    ensures es[j].seqno < es[i].seqno
  {
    assert Before(es[i], es[j]) && es[i] in SeqEntries(es) && es[j] in SeqEntries(es);
  }

  lemma OthersAreOlder(es: seq<Entry>, i: nat, smallest: nat, snapshot: nat, x: Entry)
    requires i < |es| && Sorted(es) && Unique(SeqEntries(es)) && !Hidden(es, i, smallest)
    requires snapshot == (if es[i].seqno < smallest then smallest else es[i].seqno)
    requires x in SeqEntries(es) && Visible(x, es[i].user, snapshot) && x != es[i]
    ensures x.seqno < es[i].seqno
  {
    var j :| 0 <= j < |es| && es[j] == x;
    if j < i {
      LaterIsOlder(es, j, i);
      assert false;
    } else {
      LaterIsOlder(es, i, j);
    }
  }

  lemma SeenExactlyWhenNotHidden(es: seq<Entry>, i: nat, smallest: nat)
    requires i < |es| && Sorted(es) && Unique(SeqEntries(es))
    ensures Seen(es, es[i], smallest) <==> !Hidden(es, i, smallest)
  {
    hide Sorted, Unique;
    var e := es[i];
    assert e in SeqEntries(es);
    if Hidden(es, i, smallest) {
      var j :| 0 <= j < i && es[j].user == e.user && es[j].seqno <= smallest;
      LaterIsOlder(es, j, i);
      assert es[j] in SeqEntries(es);
    } else {
      var snapshot := if e.seqno < smallest then smallest else e.seqno;
      var r := Newest(SeqEntries(es), e.user, snapshot);
      if r != Some(e) {
        OthersAreOlder(es, i, smallest, snapshot, r.value);
        assert false;
      }
    }
  }

  /** An entry survives exactly when it can still be read, unless it is a tombstone with nothing deeper. */
  lemma SurvivesExactlyWhenSeen(es: seq<Entry>, i: nat, smallest: nat, v: Version, level: nat)
    requires i < |es| && Sorted(es) && Unique(SeqEntries(es))
    ensures es[i] in Survivors(es, |es|, smallest, v, level) <==>
      Seen(es, es[i], smallest) && !ObsoleteTombstone(es[i], smallest, v, level)
  {
    hide Seen, Hidden, ObsoleteTombstone, Unique, Survivors;
    SeenExactlyWhenNotHidden(es, i, smallest);
    SurvivorsMembers(es, |es|, smallest, v, level);
    assert forall j :: 0 <= j < |es| && es[j] == es[i] ==> j == i;
  }

  function Flatten(ts: Level): seq<Entry> {
    if ts == [] then [] else Flatten(ts[..|ts| - 1]) + ts[|ts| - 1].entries
  }

  lemma {:induction false} FlattenMembers(ts: Level)
    ensures forall e :: e in Flatten(ts) <==> exists t :: t in ts && e in t.entries
  {
    if ts != [] {
      FlattenMembers(ts[..|ts| - 1]);
      assert ts == ts[..|ts| - 1] + [ts[|ts| - 1]];
    }
  }

  /** Nonempty consecutive pieces of one sorted run form a disjoint level. */
  lemma {:induction false} FlattenDisjoint(ts: Level)
    requires ValidLevel(ts) && Sorted(Flatten(ts))
    ensures Disjoint(ts)
  {
    if ts != [] {
      var init, last := ts[..|ts| - 1], ts[|ts| - 1];
      assert forall i, j :: 0 <= i < j < |Flatten(init)| ==>
          Flatten(init)[i] == Flatten(ts)[i] && Flatten(init)[j] == Flatten(ts)[j];
      FlattenDisjoint(init);
      FlattenMembers(init);
      forall i | 0 <= i < |init| ensures Before(ts[i].largest, last.smallest) {
        assert init[i] in ts && last in ts && init[i] in init && init[i].largest in init[i].entries;
        assert init[i].largest in Flatten(init);
        var a :| 0 <= a < |Flatten(init)| && Flatten(init)[a] == init[i].largest;
        assert Flatten(ts)[a] == init[i].largest && Flatten(ts)[|Flatten(init)|] == last.entries[0];
      }
    }
  }

  /** Exactly the first `n` grandparents lead up to the key: they end before it, and the next does not. */
  ghost predicate Passed(grandparents: Level, key: Entry, n: nat) {
    && n <= |grandparents| && (forall g :: 0 <= g < n ==> Before(grandparents[g].largest, key))
    && (n < |grandparents| ==> !Before(grandparents[n].largest, key))
  }

  /** From its first entry to its last a table goes past no more grandparent bytes than the limit. */
  ghost predicate Limited(grandparents: Level, es: seq<Entry>) {
    es != [] ==> exists a: nat, b: nat ::
      && Passed(grandparents, es[0], a) && Passed(grandparents, es[|es| - 1], b) && a <= b
      && TotalSize(grandparents[a..b]) <= MAX_GRANDPARENT_OVERLAP_BYTES
  }

  /** How many tables are closed before they reach the size limit. */
  function Short(ts: Level): nat {
    if ts == [] then 0
    else Short(ts[..|ts| - 1]) + if ts[|ts| - 1].size < MAX_OUTPUT_FILE_SIZE then 1 else 0
  }

  /** No table spans too much, and all but one of those closed early are paid for by grandparents of their own. */
  ghost predicate WellCut(grandparents: Level, outputs: Level) {
    && (forall t :: t in outputs ==> Limited(grandparents, t.entries))
    && (Short(outputs) - 1) * (MAX_GRANDPARENT_OVERLAP_BYTES + 1) <= TotalSize(grandparents)
  }

  /** The table being built began when the scan had passed `mark` grandparents or more. */
  ghost predicate BegunAfter(grandparents: Level, building: seq<Entry>, mark: nat) {
    building != [] ==> exists a: nat :: Passed(grandparents, building[0], a) && mark <= a
  }

  /** So far: every table closed early is paid for by grandparents before `mark`. */
  ghost predicate CutSoFar(grandparents: Level, outputs: Level, building: seq<Entry>, mark: nat) {
    && (forall t :: t in outputs ==> Limited(grandparents, t.entries))
    && Limited(grandparents, building) && BegunAfter(grandparents, building, mark)
    && mark <= |grandparents|
    && Short(outputs) * (MAX_GRANDPARENT_OVERLAP_BYTES + 1) <= TotalSize(grandparents[..mark])
  }

  lemma TotalSizeParts(ts: Level, a: nat, b: nat, c: nat)
    requires a <= b <= c <= |ts|
    ensures TotalSize(ts[a..c]) == TotalSize(ts[a..b]) + TotalSize(ts[b..c])
  {
    assert ts[a..c] == ts[a..b] + ts[b..c];
    if b < c {
      TotalSizeIsSum(ts[a..b], ts[b..c], ts[b]);
    } else {
      assert ts[a..c] == ts[a..b] && ts[b..c] == [];
    }
  }

  lemma ShortSnoc(ts: Level, t: Table)
    ensures Short(ts + [t]) == Short(ts) + if t.size < MAX_OUTPUT_FILE_SIZE then 1 else 0
  {
    assert (ts + [t])[..|ts|] == ts;
  }

  lemma CutFromLater(grandparents: Level, outputs: Level, mark: nat, mark': nat)
    requires CutSoFar(grandparents, outputs, [], mark) && mark <= mark' <= |grandparents|
    ensures CutSoFar(grandparents, outputs, [], mark')
  {
    hide Limited, TotalSize;
    TotalSizeParts(grandparents, 0, mark, mark');
  }

  lemma CutAtLimit(grandparents: Level, outputs: Level, t: Table, mark: nat, mark': nat)
    requires CutSoFar(grandparents, outputs, t.entries, mark) && mark <= mark' <= |grandparents|
    requires TotalSize(grandparents[mark..mark']) > MAX_GRANDPARENT_OVERLAP_BYTES
    ensures CutSoFar(grandparents, outputs + [t], [], mark')
  {
    hide Limited, TotalSize, Short;
    TotalSizeParts(grandparents, 0, mark, mark');
    ShortSnoc(outputs, t);
    NothingLimited(grandparents, mark');
  }

  lemma CutWhenFull(grandparents: Level, outputs: Level, t: Table, mark: nat)
    requires CutSoFar(grandparents, outputs, t.entries, mark) && t.size >= MAX_OUTPUT_FILE_SIZE
    ensures CutSoFar(grandparents, outputs + [t], [], mark)
  {
    hide Limited, TotalSize, Short;
    ShortSnoc(outputs, t);
    NothingLimited(grandparents, mark);
  }

  lemma NothingLimited(grandparents: Level, mark: nat)
    ensures Limited(grandparents, []) && BegunAfter(grandparents, [], mark)
  {
  }

  /** Another entry, with the scan at it and not over the limit. */
  lemma CutGoesOn(grandparents: Level, outputs: Level, building: seq<Entry>, e: Entry, mark: nat, n: nat)
    requires CutSoFar(grandparents, outputs, building, mark) && mark <= n && Passed(grandparents, e, n)
    requires TotalSize(grandparents[mark..n]) <= MAX_GRANDPARENT_OVERLAP_BYTES
    requires building != [] ==> Before(building[0], e)
    ensures CutSoFar(grandparents, outputs, building + [e], mark)
  {
    hide TotalSize, Short;
    var a := n;
    if building != [] {
      a :| Passed(grandparents, building[0], a) && mark <= a;
      PassedLess(grandparents, building[0], e, a, n);
    }
    TotalSizeParts(grandparents, mark, a, n);
    assert Passed(grandparents, (building + [e])[0], a);
  }

  lemma PassedLess(grandparents: Level, k: Entry, l: Entry, a: nat, b: nat)
    requires Before(k, l) && Passed(grandparents, k, a) && Passed(grandparents, l, b)
    ensures a <= b
  {
    assert b < a ==> Before(grandparents[b].largest, k);
  }

  lemma CutDone(grandparents: Level, outputs: Level, mark: nat)
    requires CutSoFar(grandparents, outputs, [], mark)
    ensures WellCut(grandparents, outputs)
  {
    hide Limited, TotalSize, Short;
    TotalSizeParts(grandparents, 0, mark, |grandparents|);
    assert grandparents[0..|grandparents|] == grandparents;
  }

  lemma CutLast(grandparents: Level, outputs: Level, t: Table, mark: nat)
    requires CutSoFar(grandparents, outputs, t.entries, mark)
    ensures WellCut(grandparents, outputs + [t])
  {
    hide Limited, TotalSize, Short;
    TotalSizeParts(grandparents, 0, mark, |grandparents|);
    assert grandparents[0..|grandparents|] == grandparents;
    ShortSnoc(outputs, t);
  }

  /** A running compaction of `level` into `level + 1`. */
  class Compaction {
    const level: nat
    const version: Version
    const grandparents: Level
    var levelPtrs: seq<nat>
    var grandparentIndex: nat
    var seenKey: bool
    var overlappedBytes: nat

    constructor (level: nat, version: Version, grandparents: Level)
      requires |version| == NUM_LEVELS
      ensures this.level == level && this.version == version && this.grandparents == grandparents
      ensures Unstarted()
    {
      this.level := level;
      this.version := version;
      this.grandparents := grandparents;
      levelPtrs := seq(NUM_LEVELS, _ => 0);
      grandparentIndex, seenKey, overlappedBytes := 0, false, 0;
    }

    ghost predicate Unstarted()
      reads this
    {
      (forall user :: Ready(user)) && grandparentIndex == 0 && !seenKey && overlappedBytes == 0
    }

    /** The scan has passed only tables that end before `user`. */
    ghost predicate Ready(user: UserKey)
      reads this
    {
      && |levelPtrs| == |version| == NUM_LEVELS
      && forall l, i :: level + 2 <= l < NUM_LEVELS && 0 <= i < levelPtrs[l] && i < |version[l]| ==>
           version[l][i].largest.user < user
    }

    /** Over nondecreasing keys the one-pass scan decides exactly `IsBase`. */
    method IsBaseLevelForKey(user: UserKey) returns (base: bool)
      requires Ready(user)
      requires ValidVersion(version)
      modifies this`levelPtrs
      ensures Ready(user)
      ensures base <==> IsBase(version, level, user)
    {
      var l := level + 2;
      while l < NUM_LEVELS
        invariant level + 2 <= l
        invariant Ready(user)
        invariant forall m, t :: level + 2 <= m < l && m < NUM_LEVELS && t in version[m] ==> !Covers(t, user)
      {
        var files := version[l];
        while levelPtrs[l] < |files|
          invariant Ready(user)
          invariant files == version[l]
          decreases |files| - levelPtrs[l]
        {
          var f := files[levelPtrs[l]];
          if user <= f.largest.user {
            if user >= f.smallest.user {
              assert f in version[l] && Covers(f, user);
              return false;
            }
            break;
          }
          levelPtrs := levelPtrs[l := levelPtrs[l] + 1];
        }
        PassedOrAhead(files, levelPtrs[l], user);
        l := l + 1;
      }
      return true;
    }

    /**
     * Whether the next output table should start before `key`: the scan moves past the
     * grandparents that end before the key, and counts their bytes since the table began.
     */
    method ShouldStopBefore(key: Entry) returns (stop: bool)
      requires grandparentIndex <= |grandparents|
      modifies this`grandparentIndex, this`seenKey, this`overlappedBytes
      ensures seenKey && old(grandparentIndex) <= grandparentIndex <= |grandparents|
      ensures forall g :: old(grandparentIndex) <= g < grandparentIndex ==> Before(grandparents[g].largest, key)
      ensures grandparentIndex < |grandparents| ==> !Before(grandparents[grandparentIndex].largest, key)
      ensures var passed := grandparents[old(grandparentIndex)..grandparentIndex];
              var overlapped := old(overlappedBytes) + if old(seenKey) then TotalSize(passed) else 0;
              && (stop <==> overlapped > MAX_GRANDPARENT_OVERLAP_BYTES)
              && overlappedBytes == if stop then 0 else overlapped
    {
      ghost var first := grandparentIndex;
      while grandparentIndex < |grandparents| && Before(grandparents[grandparentIndex].largest, key)
        invariant first <= grandparentIndex <= |grandparents| && seenKey == old(seenKey)
        invariant forall g :: first <= g < grandparentIndex ==> Before(grandparents[g].largest, key)
        invariant overlappedBytes ==
          old(overlappedBytes) + if seenKey then TotalSize(grandparents[first..grandparentIndex]) else 0
        decreases |grandparents| - grandparentIndex
      {
        assert grandparents[first..grandparentIndex + 1] ==
          grandparents[first..grandparentIndex] + [grandparents[grandparentIndex]];
        TotalSizeIsSum(grandparents[first..grandparentIndex], [grandparents[grandparentIndex]],
                       grandparents[grandparentIndex]);
        if seenKey {
          overlappedBytes := overlappedBytes + grandparents[grandparentIndex].size;
        }
        grandparentIndex := grandparentIndex + 1;
      }
      seenKey := true;
      if overlappedBytes > MAX_GRANDPARENT_OVERLAP_BYTES {
        overlappedBytes := 0;
        return true;
      }
      return false;
    }

    /** After the first `i` keys the scan stands at the last of them, having counted since `mark`. */
    ghost predicate Scanned(es: seq<Entry>, i: nat, mark: nat)
      requires i <= |es|
      reads this
    {
      && mark <= grandparentIndex <= |grandparents| && (seenKey <==> i > 0)
      && overlappedBytes == TotalSize(grandparents[mark..grandparentIndex]) <= MAX_GRANDPARENT_OVERLAP_BYTES
      && if i > 0 then Passed(grandparents, es[i - 1], grandparentIndex) else grandparentIndex == 0
    }

    /** The scan at the next key: a stop begins a new count. */
    method Scan(es: seq<Entry>, i: nat, ghost mark: nat) returns (stop: bool, ghost mark': nat)
      requires i < |es| && Sorted(es) && Scanned(es, i, mark)
      modifies this`grandparentIndex, this`seenKey, this`overlappedBytes
      ensures Scanned(es, i + 1, mark') && mark <= mark'
      ensures if stop then TotalSize(grandparents[mark..mark']) > MAX_GRANDPARENT_OVERLAP_BYTES
              else i > 0 ==> mark' == mark
    {
      hide TotalSize;
      ghost var n := grandparentIndex;
      stop := ShouldStopBefore(es[i]);
      assert i > 0 ==> Before(es[i - 1], es[i]);
      assert forall g :: 0 <= g < n ==> Before(grandparents[g].largest, es[i - 1]);
      assert Passed(grandparents, es[i], grandparentIndex);
      mark' := if stop || i == 0 then grandparentIndex else mark;
      TotalSizeParts(grandparents, mark, n, grandparentIndex);
      NoneToCount(grandparents, grandparentIndex);
    }

    /** The drop rules, as the loop decides them from the previous entry of the key. */
    method ShouldDrop(es: seq<Entry>, i: nat, previous: Option<Entry>, smallest: nat) returns (drop: bool)
      requires i < |es| && Sorted(es) && ValidVersion(version)
      requires smallest < MAX_SEQUENCE
      requires previous == if i == 0 then None else Some(es[i - 1])
      requires Ready(es[i].user)
      modifies this`levelPtrs
      ensures Ready(es[i].user)
      ensures drop <==> !Kept(es, i, smallest, version, level)
    {
      var e := es[i];
      HiddenByPrevious(es, i, smallest);
      var lastSequenceForKey := if previous.Some? && previous.value.user == e.user then previous.value.seqno
                                else MAX_SEQUENCE;
      if lastSequenceForKey <= smallest {
        drop := true;
      } else if e.kind == Deletion && e.seqno <= smallest {
        drop := IsBaseLevelForKey(e.user);
      } else {
        drop := false;
      }
    }

    /** One iteration of the loop: cut before the entry, drop it, or add it to the output. */
    method CompactEntry(es: seq<Entry>, i: nat, previous: Option<Entry>, smallest: nat, nextFile: nat,
                        fileSize: seq<Entry> -> nat, outputs: Level, building: seq<Entry>, ghost mark: nat)
      returns (outputs': Level, building': seq<Entry>, ghost mark': nat)
      requires i < |es| && Sorted(es) && ValidVersion(version)
      requires smallest < MAX_SEQUENCE
      requires previous == if i == 0 then None else Some(es[i - 1])
      requires Ready(es[i].user) && Scanned(es, i, mark)
      requires Produced(outputs, building, nextFile, Survivors(es, i, smallest, version, level))
      requires Filled(fileSize, outputs, building) && CutSoFar(grandparents, outputs, building, mark)
      modifies this
      ensures Ready(es[i].user) && Scanned(es, i + 1, mark')
      ensures Produced(outputs', building', nextFile, Survivors(es, i + 1, smallest, version, level))
      ensures Filled(fileSize, outputs', building') && CutSoFar(grandparents, outputs', building', mark')
    {
      hide Sorted, Before, ValidVersion, Kept, Filled, CutSoFar, TotalSize, Passed;
      var stop;
      stop, mark' := Scan(es, i, mark);
      SurvivorsSorted(es, i, smallest, version, level);
      outputs', building' := StopOutput(stop, outputs, building, nextFile, fileSize, grandparents, mark, mark');
      var drop := ShouldDrop(es, i, previous, smallest);
      if !drop {
        SurvivorsSorted(es, i + 1, smallest, version, level);
        outputs', building' := AddToOutput(outputs', building', es[i], nextFile, fileSize, grandparents, mark',
                                           grandparentIndex);
      }
    }

    /** The loop over the merged inputs. */
    method CompactEntries(es: seq<Entry>, smallest: nat, nextFile: nat, fileSize: seq<Entry> -> nat)
      returns (outputs: Level, building: seq<Entry>)
      requires Sorted(es) && ValidVersion(version)
      requires smallest < MAX_SEQUENCE
      requires Unstarted()
      modifies this
      ensures Produced(outputs, building, nextFile, Survivors(es, |es|, smallest, version, level))
      ensures Filled(fileSize, outputs, building) && exists mark :: CutSoFar(grandparents, outputs, building, mark)
    {
      hide Survivors, ValidVersion, Produced, Filled, CutSoFar;
      outputs, building := [], [];
      ghost var mark := 0;
      NothingCut(grandparents);
      NothingProduced(es, smallest, version, level, nextFile, fileSize);
      var previous: Option<Entry> := None;
      for i := 0 to |es|
        invariant previous == if i == 0 then None else Some(es[i - 1])
        invariant Scanned(es, i, mark)
        invariant i < |es| ==> Ready(es[i].user)
        invariant Produced(outputs, building, nextFile, Survivors(es, i, smallest, version, level))
        invariant Filled(fileSize, outputs, building) && CutSoFar(grandparents, outputs, building, mark)
      {
        outputs, building, mark :=
          CompactEntry(es, i, previous, smallest, nextFile, fileSize, outputs, building, mark);
        previous := Some(es[i]);
        assert i + 1 < |es| ==> Before(es[i], es[i + 1]);
      }
    }

    /**
     * DoCompactionWork over the merged inputs `es`: whatever the table sizes, the
     * outputs are consecutive pieces of exactly the surviving entries. None goes on once
     * it has reached the size limit or past more grandparents than their limit, and there
     * are no more tables closed early than the grandparents account for, and the last one.
     */
    method DoCompactionWork(es: seq<Entry>, smallest: nat, nextFile: nat, fileSize: seq<Entry> -> nat)
      returns (outputs: Level)
      requires Sorted(es) && ValidVersion(version)
      requires smallest < MAX_SEQUENCE
      requires Unstarted()
      modifies this
      ensures Produced(outputs, [], nextFile, Survivors(es, |es|, smallest, version, level))
      ensures Disjoint(outputs) && Filled(fileSize, outputs, []) && WellCut(grandparents, outputs)
    {
      hide Survivors, Sorted, ValidVersion, Filled, Disjoint, CutSoFar, WellCut, Flatten;
      var building;
      outputs, building := CompactEntries(es, smallest, nextFile, fileSize);
      SurvivorsSorted(es, |es|, smallest, version, level);
      ghost var finished := outputs;
      ghost var mark :| CutSoFar(grandparents, outputs, building, mark);
      if building != [] {
        outputs := FinishOutput(outputs, building, nextFile, fileSize(building));
        FilledInit(fileSize, finished, building);
        FilledFinished(fileSize, finished, building, nextFile);
        CutLast(grandparents, finished, outputs[|finished|], mark);
      } else {
        CutDone(grandparents, outputs, mark);
      }
      ProducedDisjoint(outputs, nextFile, Survivors(es, |es|, smallest, version, level));
    }
  }

  lemma NothingCut(grandparents: Level)
    ensures CutSoFar(grandparents, [], [], 0)
  {
  }

  lemma NoneToCount(grandparents: Level, n: nat)
    requires n <= |grandparents|
    ensures TotalSize(grandparents[n..n]) == 0
  {
  }

  lemma NothingProduced(
    es: seq<Entry>, smallest: nat, v: Version, level: nat, nextFile: nat, fileSize: seq<Entry> -> nat)
    ensures Produced([], [], nextFile, Survivors(es, 0, smallest, v, level)) && Filled(fileSize, [], [])
  {
  }

  lemma ProducedDisjoint(outputs: Level, nextFile: nat, es: seq<Entry>)
    requires Produced(outputs, [], nextFile, es) && Sorted(es)
    ensures Disjoint(outputs)
  {
    assert Flatten(outputs) == es;
    FlattenDisjoint(outputs);
  }

  /** The first `n` entries of a table being built never reached the size limit. */
  ghost predicate Unfilled(fileSize: seq<Entry> -> nat, es: seq<Entry>, n: nat) {
    forall k :: 0 < k < n && k <= |es| ==> fileSize(es[..k]) < MAX_OUTPUT_FILE_SIZE
  }

  /** A table is closed no later than when it reaches the size limit. */
  ghost predicate Filled(fileSize: seq<Entry> -> nat, outputs: Level, building: seq<Entry>) {
    && (forall t :: t in outputs ==> t.size == fileSize(t.entries) && Unfilled(fileSize, t.entries, |t.entries|))
    && Unfilled(fileSize, building, |building| + 1)
  }

  lemma FilledInit(fileSize: seq<Entry> -> nat, outputs: Level, building: seq<Entry>)
    requires building != [] && Filled(fileSize, outputs, building)
    ensures Filled(fileSize, outputs, building[..|building| - 1])
  {
    var init := building[..|building| - 1];
    forall k | 0 < k < |building| ensures fileSize(init[..k]) < MAX_OUTPUT_FILE_SIZE {
      assert building[..k] == init[..k];
    }
  }

  lemma FilledFinished(fileSize: seq<Entry> -> nat, outputs: Level, building: seq<Entry>, nextFile: nat)
    requires building != [] && Filled(fileSize, outputs, building[..|building| - 1])
    requires Produced(outputs, building, nextFile, Flatten(outputs) + building)
    requires Sorted(Flatten(outputs) + building)
    ensures Filled(fileSize, FinishOutput(outputs, building, nextFile, fileSize(building)), [])
  {
    var init := building[..|building| - 1];
    forall k | 0 < k < |building| ensures fileSize(building[..k]) < MAX_OUTPUT_FILE_SIZE {
      assert building[..k] == init[..k];
    }
  }

  /** The finished tables and the one being built hold exactly `es`, in order. */
  ghost predicate Produced(outputs: Level, building: seq<Entry>, nextFile: nat, es: seq<Entry>) {
    && Flatten(outputs) + building == es
    && ValidLevel(outputs) && CountedFrom(outputs, nextFile)
  }

  /** Tables already passed end before the key, and those ahead begin after it. */
  lemma PassedOrAhead(ts: Level, p: nat, user: UserKey)
    requires ValidLevel(ts) && Disjoint(ts)
    requires forall i :: 0 <= i < p && i < |ts| ==> ts[i].largest.user < user
    requires p < |ts| ==> user < ts[p].smallest.user
    ensures forall t :: t in ts ==> !Covers(t, user)
  {
    forall t | t in ts ensures !Covers(t, user) {
      var i :| 0 <= i < |ts| && ts[i] == t;
      if p < i {
        EntryInBounds(ts[p], ts[p].largest);
        assert Before(ts[p].largest, ts[i].smallest);
      }
    }
  }

  /** The table being built holds a sorted piece. */
  lemma PieceSorted(done: seq<Entry>, building: seq<Entry>)
    requires Sorted(done + building)
    ensures Sorted(building)
  {
    assert forall i :: 0 <= i < |building| ==> building[i] == (done + building)[|done| + i];
  }

  ghost predicate CountedFrom(ts: Level, nextFile: nat) {
    forall i :: 0 <= i < |ts| ==> ts[i].number == nextFile + i
  }

  lemma CountedSnoc(ts: Level, nextFile: nat, t: Table)
    requires CountedFrom(ts, nextFile) && t.number == nextFile + |ts|
    ensures CountedFrom(ts + [t], nextFile)
  {
  }

  lemma ClosedPiece(outputs: Level, building: seq<Entry>, nextFile: nat, t: Table)
    requires building != [] && Sorted(building) && ValidLevel(outputs) && CountedFrom(outputs, nextFile)
    requires t.number == nextFile + |outputs| && t.entries == building
    requires t.smallest == building[0] && t.largest == building[|building| - 1]
    ensures Produced(outputs + [t], [], nextFile, Flatten(outputs) + building)
  {
    hide Flatten, ValidLevel, Sorted, CountedFrom;
    FlattenSnoc(outputs, t);
    ValidSnoc(outputs, t);
    CountedSnoc(outputs, nextFile, t);
    NothingAfter(Flatten(outputs + [t]));
  }

  lemma NothingAfter(es: seq<Entry>)
    ensures es + [] == es
  {
  }

  lemma FlattenSnoc(ts: Level, t: Table)
    ensures Flatten(ts + [t]) == Flatten(ts) + t.entries
  {
    assert (ts + [t])[..|ts|] == ts;
  }

  /** FinishCompactionOutputFile: close the table being built. */
  function FinishOutput(outputs: Level, building: seq<Entry>, nextFile: nat, size: nat): (r: Level)
    requires building != []
    requires Produced(outputs, building, nextFile, Flatten(outputs) + building)
    requires Sorted(Flatten(outputs) + building)
    ensures Produced(r, [], nextFile, Flatten(outputs) + building)
  {
    var t := Table(nextFile + |outputs|, size, building[0], building[|building| - 1], building);
    PieceSorted(Flatten(outputs), building);
    ClosedPiece(outputs, building, nextFile, t);
    outputs + [t]
  }

  /** Close the table being built, if the scan says so. */
  method StopOutput(stop: bool, outputs: Level, building: seq<Entry>, nextFile: nat, fileSize: seq<Entry> -> nat,
                    ghost grandparents: Level, ghost mark: nat, ghost mark': nat)
    returns (r: Level, rest: seq<Entry>)
    requires Produced(outputs, building, nextFile, Flatten(outputs) + building)
    requires Sorted(Flatten(outputs) + building)
    requires Filled(fileSize, outputs, building) && CutSoFar(grandparents, outputs, building, mark)
    requires mark <= mark' <= |grandparents| && (building != [] && !stop ==> mark' == mark)
    requires stop ==> TotalSize(grandparents[mark..mark']) > MAX_GRANDPARENT_OVERLAP_BYTES
    ensures Produced(r, rest, nextFile, Flatten(outputs) + building)
    ensures Filled(fileSize, r, rest) && CutSoFar(grandparents, r, rest, mark')
  {
    hide Sorted, Filled, CutSoFar, TotalSize, Flatten;
    r, rest := outputs, building;
    if building == [] {
      CutFromLater(grandparents, outputs, mark, mark');
    } else if stop {
      r, rest := FinishOutput(outputs, building, nextFile, fileSize(building)), [];
      FilledInit(fileSize, outputs, building);
      FilledFinished(fileSize, outputs, building, nextFile);
      CutAtLimit(grandparents, outputs, r[|outputs|], mark, mark');
    }
  }

  /** Add one entry to the table being built, and close the table if it is big enough. */
  method AddToOutput(outputs: Level, building: seq<Entry>, e: Entry, nextFile: nat, fileSize: seq<Entry> -> nat,
                     ghost grandparents: Level, ghost mark: nat, ghost n: nat)
    returns (r: Level, rest: seq<Entry>)
    requires Produced(outputs, building, nextFile, Flatten(outputs) + building)
    requires Sorted(Flatten(outputs) + building + [e])
    requires Filled(fileSize, outputs, building) && CutSoFar(grandparents, outputs, building, mark)
    requires mark <= n && Passed(grandparents, e, n)
    requires TotalSize(grandparents[mark..n]) <= MAX_GRANDPARENT_OVERLAP_BYTES
    ensures Produced(r, rest, nextFile, Flatten(outputs) + building + [e])
    ensures Filled(fileSize, r, rest) && CutSoFar(grandparents, r, rest, mark)
  {
    hide Sorted, CutSoFar, Passed, TotalSize, Flatten;
    r, rest := outputs, building + [e];
    assert Flatten(outputs) + rest == Flatten(outputs) + building + [e];
    assert rest[..|building|] == building;
    BeganBefore(Flatten(outputs), building, e);
    CutGoesOn(grandparents, outputs, building, e, mark, n);
    if fileSize(rest) >= MAX_OUTPUT_FILE_SIZE {
      FilledFinished(fileSize, outputs, rest, nextFile);
      r, rest := FinishOutput(outputs, rest, nextFile, fileSize(rest)), [];
      CutWhenFull(grandparents, outputs, r[|outputs|], mark);
    } else {
      FilledMore(fileSize, outputs, building, e);
    }
  }

  lemma BeganBefore(done: seq<Entry>, building: seq<Entry>, e: Entry)
    requires Sorted(done + building + [e])
    ensures building != [] ==> Before(building[0], e)
  {
    var all := done + building + [e];
    assert building != [] ==> all[|done|] == building[0] && all[|all| - 1] == e;
  }

  lemma FilledMore(fileSize: seq<Entry> -> nat, outputs: Level, building: seq<Entry>, e: Entry)
    requires Filled(fileSize, outputs, building) && fileSize(building + [e]) < MAX_OUTPUT_FILE_SIZE
    ensures Filled(fileSize, outputs, building + [e])
  {
    var rest := building + [e];
    forall k | 0 < k < |rest| + 1 ensures fileSize(rest[..k]) < MAX_OUTPUT_FILE_SIZE {
      assert rest[..k] == if k <= |building| then building[..k] else rest;
    }
  }

  /** A dropped entry is hidden at every live snapshot, or is a tombstone with nothing left to hide. */
  ghost predicate Droppable(chosen: iset<Entry>, rest: iset<Entry>, smallest: nat, e: Entry) {
    || HiddenIn(chosen, e, smallest)
    || (e.kind == Deletion && e.seqno <= smallest && forall x :: x in rest && x.user == e.user ==> x.seqno > e.seqno)
  }

  /** Of the chosen entries, those not kept may go, and those kept are not hidden. */
  ghost predicate ValidDrop(chosen: iset<Entry>, kept: iset<Entry>, rest: iset<Entry>, smallest: nat) {
    && kept <= chosen
    && (forall e :: e in chosen && e !in kept ==> Droppable(chosen, rest, smallest, e))
    && (forall e, x :: e in kept && x in chosen && x.user == e.user && e.seqno < x.seqno ==> x.seqno > smallest)
  }

  /**
   * Dropping entries keeps every read at or above `smallest`: a dropped entry is
   * hidden by a newer chosen one, or is a tombstone with nothing older left to hide.
   */
  lemma DroppingKeepsReads(chosen: iset<Entry>, kept: iset<Entry>, rest: iset<Entry>, smallest: nat,
                           user: UserKey, snapshot: nat)
    requires Unique(chosen + rest) && ValidDrop(chosen, kept, rest, smallest) && smallest <= snapshot
    ensures Read(kept + rest, user, snapshot) == Read(chosen + rest, user, snapshot)
  {
    var before, after := Newest(chosen + rest, user, snapshot), Newest(kept + rest, user, snapshot);
    if before.None? {
      assert after.None?;
    } else if before.value in kept + rest {
      assert after.Some? && after.value.seqno == before.value.seqno;
      assert after.value in chosen + rest && before.value in chosen + rest;
      assert after == before;
    } else {
      var e := before.value;
      assert e in chosen && e !in kept;
      assert forall x :: x in chosen + rest && Visible(x, user, snapshot) && x != e ==> x.seqno < e.seqno;
    }
  }
}
