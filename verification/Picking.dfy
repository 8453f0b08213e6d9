/** Choosing the tables of a compaction (db/version_set.cc). */
module Picking {
  import opened InternalKeys
  import opened Lookups
  import opened Options
  import opened Versions

  const EXPANDED_COMPACTION_BYTE_SIZE_LIMIT: nat := 25 * 2 * 1048576
  const MAX_FILE_SIZE_FOR_LEVEL: nat := 2 * 1048576
  const MAX_GRANDPARENT_OVERLAP_BYTES: nat := 10 * 2 * 1048576
  const MAX_MEM_COMPACT_LEVEL: nat := 2

  /** A bound that is absent does not restrict the range. */
  type Bound = Option<UserKey>

  predicate Overlaps(t: Table, lo: Bound, hi: Bound) {
    && !(lo.Some? && t.largest.user < lo.value)
    && !(hi.Some? && t.smallest.user > hi.value)
  }

  predicate Inside(t: Table, lo: Bound, hi: Bound) {
    && (lo.Some? ==> lo.value <= t.smallest.user)
    && (hi.Some? ==> t.largest.user <= hi.value)
  }

  /** The tables meeting a range, in level order. */
  function Overlapping(ts: Level, lo: Bound, hi: Bound): (r: Level)
    ensures forall t :: t in r <==> t in ts && Overlaps(t, lo, hi)
  {
    OverlappingMembers(ts, |ts|, lo, hi);
    OverlappingTo(ts, |ts|, lo, hi)
  }

  function OverlappingTo(ts: Level, n: nat, lo: Bound, hi: Bound): Level
    requires n <= |ts|
  {
    if n == 0 then []
    else OverlappingTo(ts, n - 1, lo, hi) + if Overlaps(ts[n - 1], lo, hi) then [ts[n - 1]] else []
  }

  lemma {:induction false} OverlappingMembers(ts: Level, n: nat, lo: Bound, hi: Bound)
    requires n <= |ts|
    ensures forall t :: t in OverlappingTo(ts, n, lo, hi) <==> t in ts[..n] && Overlaps(t, lo, hi)
  {
    if n > 0 {
      OverlappingMembers(ts, n - 1, lo, hi);
      assert ts[..n] == ts[..n - 1] + [ts[n - 1]];
    }
  }

  /** No table sticks out of a range it meets. */
  ghost predicate OverlapClosed(ts: Level, lo: Bound, hi: Bound) {
    forall t :: t in ts && Overlaps(t, lo, hi) ==> Inside(t, lo, hi)
  }

  ghost predicate Contains(lo: Bound, hi: Bound, lo': Bound, hi': Bound) {
    && (lo.None? || (lo'.Some? && lo.value <= lo'.value))
    && (hi.None? || (hi'.Some? && hi'.value <= hi.value))
  }

  /** The least overlap-closed range around a query. */
  ghost predicate LeastClosed(ts: Level, begin: Bound, end: Bound, lo: Bound, hi: Bound) {
    && OverlapClosed(ts, lo, hi) && Contains(lo, hi, begin, end)
    && BelowClosed(ts, begin, end, lo, hi)
  }

  ghost predicate BelowClosed(ts: Level, begin: Bound, end: Bound, lo: Bound, hi: Bound) {
    forall x, y :: OverlapClosed(ts, x, y) && Contains(x, y, begin, end) ==> Contains(x, y, lo, hi)
  }

  /** How many table ends still stick out below and above the range. */
  function Outside(ts: Level, lo: Bound, hi: Bound): nat {
    if ts == [] then 0
    else
      (if lo.Some? && ts[0].smallest.user < lo.value then 1 else 0)
      + (if hi.Some? && ts[0].largest.user > hi.value then 1 else 0)
      + Outside(ts[1..], lo, hi)
  }

  /** Widening the range never lets more ends stick out, and absorbs the end it moves to. */
  lemma {:induction false} OutsideShrinks(ts: Level, lo: Bound, hi: Bound, t: Table, lo': Bound, hi': Bound)
    requires Widens(lo, hi, t, lo', hi')
    ensures Outside(ts, lo', hi') <= Outside(ts, lo, hi)
    ensures t in ts ==> Outside(ts, lo', hi') < Outside(ts, lo, hi)
  {
    if ts != [] {
      OutsideShrinks(ts[1..], lo, hi, t, lo', hi');
    }
  }

  /** One end of the range moves out to the end of a table. */
  ghost predicate Widens(lo: Bound, hi: Bound, t: Table, lo': Bound, hi': Bound) {
    || (lo.Some? && t.smallest.user < lo.value && lo' == Some(t.smallest.user) && hi' == hi)
    || (hi.Some? && t.largest.user > hi.value && lo' == lo && hi' == Some(t.largest.user))
  }

  /** A closed range around the current one also contains any table the current one meets. */
  lemma ClosedAbsorbs(ts: Level, begin: Bound, end: Bound, lo: Bound, hi: Bound, t: Table, lo': Bound, hi': Bound)
    requires Contains(lo, hi, begin, end) && BelowClosed(ts, begin, end, lo, hi)
    requires t in ts && Overlaps(t, lo, hi) && Widens(lo, hi, t, lo', hi')
    ensures Contains(lo', hi', begin, end) && BelowClosed(ts, begin, end, lo', hi')
    ensures Outside(ts, lo', hi') < Outside(ts, lo, hi)
  {
    OutsideShrinks(ts, lo, hi, t, lo', hi');
    forall x, y | OverlapClosed(ts, x, y) && Contains(x, y, begin, end) ensures Contains(x, y, lo', hi') {
      assert Contains(x, y, lo, hi);
      assert Overlaps(t, x, y);
    }
  }

  /**
   * Version::GetOverlappingInputs. In the first level the search restarts whenever a
   * table widens the range, and ends at the least closed range around the query.
   */
  method GetOverlappingInputs(ts: Level, level: nat, begin: Bound, end: Bound) returns (inputs: Level, lo: Bound,
                                                                                        hi: Bound)
    ensures inputs == Overlapping(ts, lo, hi)
    ensures level > 0 ==> lo == begin && hi == end
    ensures level == 0 ==> LeastClosed(ts, begin, end, lo, hi)
  {
    inputs, lo, hi := [], begin, end;
    var i := 0;
    while i < |ts|
      invariant 0 <= i <= |ts|
      invariant inputs == OverlappingTo(ts, i, lo, hi)
      invariant level > 0 ==> lo == begin && hi == end
      invariant level == 0 ==> forall j :: 0 <= j < i && Overlaps(ts[j], lo, hi) ==> Inside(ts[j], lo, hi)
      invariant Contains(lo, hi, begin, end) && BelowClosed(ts, begin, end, lo, hi)
      decreases Outside(ts, lo, hi), |ts| - i
    {
      var f := ts[i];
      i := i + 1;
      if Overlaps(f, lo, hi) {
        inputs := inputs + [f];
        if level == 0 {
          if lo.Some? && f.smallest.user < lo.value {
            ClosedAbsorbs(ts, begin, end, lo, hi, f, Some(f.smallest.user), hi);
            lo, inputs, i := Some(f.smallest.user), [], 0;
          } else if hi.Some? && f.largest.user > hi.value {
            ClosedAbsorbs(ts, begin, end, lo, hi, f, lo, Some(f.largest.user));
            hi, inputs, i := Some(f.largest.user), [], 0;
          }
        }
      }
    }
  }

  /** The smallest user key of some tables. */
  function Lo(ts: Level): (r: UserKey)
    requires ts != []
    ensures forall t :: t in ts ==> r <= t.smallest.user
    ensures exists t :: t in ts && r == t.smallest.user
  {
    if |ts| == 1 then assert ts[0] in ts; ts[0].smallest.user
    else var r := Lo(ts[1..]); assert ts[0] in ts; if ts[0].smallest.user < r then ts[0].smallest.user else r
  }

  /** The largest user key of some tables. */
  function Hi(ts: Level): (r: UserKey)
    requires ts != []
    ensures forall t :: t in ts ==> t.largest.user <= r
    ensures exists t :: t in ts && r == t.largest.user
  {
    if |ts| == 1 then assert ts[0] in ts; ts[0].largest.user
    else var r := Hi(ts[1..]); assert ts[0] in ts; if r < ts[0].largest.user then ts[0].largest.user else r
  }

  /** The least and the greatest internal key of some tables. */
  ghost predicate LeastKey(ts: Level, e: Entry) {
    (exists t :: t in ts && t.smallest == e) && forall t :: t in ts ==> !Before(t.smallest, e)
  }

  ghost predicate GreatestKey(ts: Level, e: Entry) {
    (exists t :: t in ts && t.largest == e) && forall t :: t in ts ==> !Before(e, t.largest)
  }

  /** VersionSet::GetRange: the scan for the extreme internal keys finds the user-key hull. */
  method GetRange(ts: Level) returns (smallest: Entry, largest: Entry)
    requires ts != []
    ensures smallest.user == Lo(ts) && largest.user == Hi(ts)
    ensures LeastKey(ts, smallest) && GreatestKey(ts, largest)
  {
    smallest, largest := ts[0].smallest, ts[0].largest;
    for i := 1 to |ts|
      invariant exists t :: t in ts && t.smallest == smallest
      invariant exists t :: t in ts && t.largest == largest
      invariant forall j :: 0 <= j < i ==> !Before(ts[j].smallest, smallest) && !Before(largest, ts[j].largest)
    {
      assert ts[i] in ts;
      if Before(ts[i].smallest, smallest) {
        smallest := ts[i].smallest;
      }
      if Before(largest, ts[i].largest) {
        largest := ts[i].largest;
      }
    }
  }

  /** TotalFileSize. */
  function TotalSize(ts: Level): nat {
    if ts == [] then 0 else ts[0].size + TotalSize(ts[1..])
  }

  /** It is the sum of the sizes: of any two parts, down to single tables. */
  lemma {:induction false} TotalSizeIsSum(a: Level, b: Level, t: Table)
    ensures TotalSize(a + b) == TotalSize(a) + TotalSize(b) && TotalSize([t]) == t.size
  {
    if a == [] {
      assert a + b == b;
    } else {
      TotalSizeIsSum(a[1..], b, t);
      assert (a + b)[1..] == a[1..] + b;
    }
  }

  /** GetOverlappingInputs for a range of user keys. */
  ghost predicate Meeting(ts: Level, level: nat, begin: Bound, end: Bound, r: Level) {
    if level > 0 then r == Overlapping(ts, begin, end)
    else exists lo, hi :: LeastClosed(ts, begin, end, lo, hi) && r == Overlapping(ts, lo, hi)
  }

  /** More tables of the level can come along without more of the next, and within the size limit. */
  predicate Extends(v: Version, level: nat, picked: Level, inputs1: Level, grown: Level)
    requires level + 1 < |v|
  {
    && |grown| > |picked|
    && TotalSize(inputs1) + TotalSize(grown) < EXPANDED_COMPACTION_BYTE_SIZE_LIMIT
    && |Overlapping(v[level + 1], Some(Lo(grown)), Some(Hi(grown)))| == |inputs1|
  }

  /** The inputs of the level: the tables picked, or all that meet the whole range, where that extends them. */
  ghost predicate Grown(v: Version, level: nat, picked: Level, inputs1: Level, inputs0: Level)
    requires level + 1 < |v| && picked != []
  {
    if inputs1 == [] then inputs0 == picked
    else exists grown ::
      && Meeting(v[level], level, Some(Lo(picked + inputs1)), Some(Hi(picked + inputs1)), grown)
      && inputs0 == if Extends(v, level, picked, inputs1, grown) then grown else picked
  }

  /** A compaction set up around the tables picked; the pointer for the next one is its greatest key. */
  ghost predicate SetUp(v: Version, level: nat, picked: Level, inputs0: Level, inputs1: Level, grandparents: Level,
                        pointer: Entry)
  {
    && |v| == NUM_LEVELS && level + 1 < NUM_LEVELS && picked != [] && inputs0 != []
    && inputs1 == Overlapping(v[level + 1], Some(Lo(picked)), Some(Hi(picked)))
    && Grown(v, level, picked, inputs1, inputs0)
    && grandparents == Grandparents(v, level, inputs0 + inputs1)
    && GreatestKey(inputs0, pointer)
  }

  /** Tables of a level; in the first level, with every table that meets their hull. */
  ghost predicate Chosen0(v: Version, level: nat, inputs0: Level) {
    && |v| == NUM_LEVELS && level + 1 < NUM_LEVELS
    && inputs0 != []
    && (forall t :: t in inputs0 ==> t in v[level])
    && (level == 0 ==> forall t :: t in v[0] && Overlaps(t, Some(Lo(inputs0)), Some(Hi(inputs0))) ==> t in inputs0)
  }

  /** The next level contributes exactly the tables meeting the hull of `inputs0`. */
  ghost predicate Picked(v: Version, level: nat, inputs0: Level, inputs1: Level) {
    && Chosen0(v, level, inputs0)
    && inputs1 == Overlapping(v[level + 1], Some(Lo(inputs0)), Some(Hi(inputs0)))
  }

  /** The tables meeting a wider range include those meeting a narrower one. */
  lemma {:induction false} WiderKeepsMore(ts: Level, n: nat, lo: Bound, hi: Bound, lo': Bound, hi': Bound)
    requires n <= |ts| && Contains(lo', hi', lo, hi)
    ensures |OverlappingTo(ts, n, lo, hi)| <= |OverlappingTo(ts, n, lo', hi')|
    ensures |OverlappingTo(ts, n, lo, hi)| == |OverlappingTo(ts, n, lo', hi')| ==>
              OverlappingTo(ts, n, lo, hi) == OverlappingTo(ts, n, lo', hi')
  {
    if n > 0 {
      WiderKeepsMore(ts, n - 1, lo, hi, lo', hi');
    }
  }

  /** Everything meeting a range that some chosen tables lie in keeps them chosen. */
  lemma OverlappingChosen(ts: Level, lo: Bound, hi: Bound, picked: Level)
    requires ValidLevel(ts) && picked != [] && forall t :: t in picked ==> t in ts && Inside(t, lo, hi)
    ensures forall t :: t in picked ==> t in Overlapping(ts, lo, hi)
    ensures Overlapping(ts, lo, hi) != []
  {
    forall t | t in picked ensures Overlaps(t, lo, hi) {
      EntryInBounds(t, t.largest);
    }
    assert picked[0] in picked;
  }

  /** In a closed range no table outside the result meets the result's own hull. */
  lemma ClosedIsChosen(ts: Level, r: Level, lo: Bound, hi: Bound)
    requires OverlapClosed(ts, lo, hi) && r == Overlapping(ts, lo, hi) && r != []
    ensures forall t :: t in ts && Overlaps(t, Some(Lo(r)), Some(Hi(r))) ==> t in r
  {
    var l, h := Lo(r), Hi(r);
    assert forall t :: t in r ==> Inside(t, lo, hi);
    assert lo.Some? ==> lo.value <= l;
    assert hi.Some? ==> h <= hi.value;
  }

  /** The tables two levels down that meet the whole compaction. */
  function Grandparents(v: Version, level: nat, inputs: Level): Level
    requires |v| == NUM_LEVELS && inputs != []
  {
    if level + 2 < NUM_LEVELS then Overlapping(v[level + 2], Some(Lo(inputs)), Some(Hi(inputs))) else []
  }

  /** VersionSet::SetupOtherInputs. */
  method SetupOtherInputs(v: Version, level: nat, picked: Level)
    returns (inputs0: Level, inputs1: Level, grandparents: Level, pointer: Entry)
    requires ValidVersion(v) && Chosen0(v, level, picked)
    ensures Picked(v, level, inputs0, inputs1) && SetUp(v, level, picked, inputs0, inputs1, grandparents, pointer)
    ensures forall t :: t in picked ==> t in inputs0
    ensures inputs1 == [] ==> inputs0 == picked
  {
    hide ValidVersion, Chosen0, Overlapping, LeastKey, GreatestKey, Grown, LeastClosed, Lo, Hi;
    ChosenParts(v, level, picked);
    var smallest, largest := GetRange(picked);
    var lo, hi;
    inputs1, lo, hi := GetOverlappingInputs(v[level + 1], level + 1, Some(smallest.user), Some(largest.user));
    inputs0 := picked;
    if inputs1 != [] {
      inputs0 := GrowInputs(v, level, picked, inputs1);
    } else {
      NotGrown(v, level, picked);
    }
    smallest, largest := GetRange(inputs0);
    pointer := largest;
    grandparents := [];
    if level + 2 < NUM_LEVELS {
      var allStart, allLimit := GetRange(inputs0 + inputs1);
      grandparents, lo, hi := GetOverlappingInputs(v[level + 2], level + 2, Some(allStart.user), Some(allLimit.user));
    }
  }

  /** Take more tables of `level`, if that needs no more of the next and the whole stays small. */
  method GrowInputs(v: Version, level: nat, picked: Level, inputs1: Level) returns (inputs0: Level)
    requires ValidVersion(v) && Chosen0(v, level, picked) && inputs1 != []
    requires inputs1 == Overlapping(v[level + 1], Some(Lo(picked)), Some(Hi(picked)))
    ensures Picked(v, level, inputs0, inputs1) && Grown(v, level, picked, inputs1, inputs0)
    ensures forall t :: t in picked ==> t in inputs0
  {
    hide ValidVersion, Chosen0, Overlapping, TotalSize, LeastKey, GreatestKey, Meeting, Grown, LeastClosed, Lo, Hi;
    ChosenParts(v, level, picked);
    var allStart, allLimit := GetRange(picked + inputs1);
    var grown, lo, hi := GetOverlappingInputs(v[level], level, Some(allStart.user), Some(allLimit.user));
    MeetingIs(v[level], level, Some(allStart.user), Some(allLimit.user), lo, hi);
    inputs0 := picked;
    if |grown| > |picked| && TotalSize(inputs1) + TotalSize(grown) < EXPANDED_COMPACTION_BYTE_SIZE_LIMIT {
      GrownIsChosen(v, level, picked, inputs1, lo, hi);
      var newStart, newLimit := GetRange(grown);
      var expanded1, _, _ := GetOverlappingInputs(v[level + 1], level + 1, Some(newStart.user), Some(newLimit.user));
      if |expanded1| == |inputs1| {
        SameNext(v[level + 1], picked, grown);
        inputs0 := grown;
      }
    }
    GrownIs(v, level, picked, inputs1, grown, inputs0);
  }

  lemma NotGrown(v: Version, level: nat, picked: Level)
    requires level + 1 < |v| && picked != []
    ensures Grown(v, level, picked, [], picked)
  {
  }

  lemma ChosenParts(v: Version, level: nat, picked: Level)
    requires Chosen0(v, level, picked)
    ensures |v| == NUM_LEVELS && level + 1 < NUM_LEVELS && picked != []
  {
  }

  lemma MeetingIs(ts: Level, level: nat, begin: Bound, end: Bound, lo: Bound, hi: Bound)
    requires level > 0 ==> lo == begin && hi == end
    requires level == 0 ==> LeastClosed(ts, begin, end, lo, hi)
    ensures Meeting(ts, level, begin, end, Overlapping(ts, lo, hi))
  {
    hide Overlapping, LeastClosed;
  }

  lemma GrownIs(v: Version, level: nat, picked: Level, inputs1: Level, grown: Level, inputs0: Level)
    requires level + 1 < |v| && picked != [] && inputs1 != []
    requires Meeting(v[level], level, Some(Lo(picked + inputs1)), Some(Hi(picked + inputs1)), grown)
    requires inputs0 == if Extends(v, level, picked, inputs1, grown) then grown else picked
    ensures Grown(v, level, picked, inputs1, inputs0)
  {
    hide Meeting, Extends;
  }

  lemma GrownIsChosen(v: Version, level: nat, picked: Level, inputs1: Level, lo: Bound, hi: Bound)
    requires ValidVersion(v) && Chosen0(v, level, picked)
    requires level > 0 ==> lo == Some(Lo(picked + inputs1)) && hi == Some(Hi(picked + inputs1))
    requires level == 0 ==> LeastClosed(v[0], Some(Lo(picked + inputs1)), Some(Hi(picked + inputs1)), lo, hi)
    ensures var grown := Overlapping(v[level], lo, hi);
      grown != [] && Chosen0(v, level, grown) && forall t :: t in picked ==> t in grown
  {
    hide ValidVersion, Chosen0, Overlapping, BelowClosed;
    ChosenParts(v, level, picked);
    ExpansionChosen(v, level, picked, inputs1, Overlapping(v[level], lo, hi), lo, hi);
  }

  lemma SameNext(next: Level, picked: Level, grown: Level)
    requires picked != [] && grown != [] && forall t :: t in picked ==> t in grown
    requires |Overlapping(next, Some(Lo(picked)), Some(Hi(picked)))| ==
             |Overlapping(next, Some(Lo(grown)), Some(Hi(grown)))|
    ensures Overlapping(next, Some(Lo(picked)), Some(Hi(picked))) == Overlapping(next, Some(Lo(grown)), Some(Hi(grown)))
  {
    WiderKeepsMore(next, |next|, Some(Lo(picked)), Some(Hi(picked)), Some(Lo(grown)), Some(Hi(grown)));
  }

  /** Growing the inputs of `level` keeps what was picked, and keeps the first level closed. */
  lemma ExpansionChosen(v: Version, level: nat, picked: Level, inputs1: Level, expanded: Level, lo: Bound, hi: Bound)
    requires ValidVersion(v) && Chosen0(v, level, picked)
    requires expanded == Overlapping(v[level], lo, hi)
    requires level == 0 ==> OverlapClosed(v[0], lo, hi)
    requires Contains(lo, hi, Some(Lo(picked + inputs1)), Some(Hi(picked + inputs1)))
    ensures expanded != [] && Chosen0(v, level, expanded)
    ensures forall t :: t in picked ==> t in expanded
    ensures Contains(Some(Lo(expanded)), Some(Hi(expanded)), Some(Lo(picked)), Some(Hi(picked)))
  {
    assert forall t :: t in picked ==> t in picked + inputs1;
    OverlappingChosen(v[level], lo, hi, picked);
    if level == 0 {
      ClosedIsChosen(v[0], expanded, lo, hi);
    }
  }

  predicate Past(t: Table, pointer: Option<Entry>) {
    pointer.None? || Before(pointer.value, t.largest)
  }

  /** The first table past the pointer, or the very first when none is. */
  ghost predicate FirstPast(ts: Level, pointer: Option<Entry>, i: nat)
    requires i < |ts|
  {
    || (Past(ts[i], pointer) && forall j :: 0 <= j < i ==> !Past(ts[j], pointer))
    || (i == 0 && forall j :: 0 <= j < |ts| ==> !Past(ts[j], pointer))
  }

  /** The first table past the compaction pointer, with wrap-around to the beginning. */
  method PastPointer(ts: Level, pointer: Option<Entry>) returns (i: nat)
    requires ts != []
    ensures i < |ts| && FirstPast(ts, pointer, i)
  {
    i := 0;
    while i < |ts| && !Past(ts[i], pointer)
      invariant i <= |ts| && forall j :: 0 <= j < i ==> !Past(ts[j], pointer)
    {
      i := i + 1;
    }
    if i == |ts| {
      i := 0;
    }
  }

  /** A table by itself; in the first level, with all tables it leads to. */
  method ChooseFrom(v: Version, level: nat, first: Table) returns (inputs0: Level)
    requires |v| == NUM_LEVELS && level + 1 < NUM_LEVELS && ValidLevel(v[level]) && first in v[level]
    ensures Chosen0(v, level, inputs0) && first in inputs0 && WithFirst(v, level, first, inputs0)
  {
    inputs0 := [first];
    if level == 0 {
      var smallest, largest := GetRange(inputs0);
      var lo, hi;
      inputs0, lo, hi := GetOverlappingInputs(v[0], 0, Some(smallest.user), Some(largest.user));
      EntryInBounds(first, first.largest);
      assert first in inputs0;
      ClosedIsChosen(v[0], inputs0, lo, hi);
    }
  }

  /** What a compaction is picked around: a table, in the first level with all that its range leads to. */
  ghost predicate WithFirst(v: Version, level: nat, first: Table, picked: Level)
    requires level < |v|
  {
    if level > 0 then picked == [first]
    else Meeting(v[0], 0, Some(first.smallest.user), Some(first.largest.user), picked)
  }

  /** The table that a seek compaction was told, or the first one past the pointer. */
  ghost predicate FirstInput(ts: Level, pointer: Option<Entry>, seekTable: Option<Table>, first: Table) {
    match seekTable
    case Some(t) => first == t
    case None => exists i :: 0 <= i < |ts| && FirstPast(ts, pointer, i) && first == ts[i]
  }

  /** PickCompaction's whole result. */
  ghost predicate PickedAround(v: Version, level: nat, pointer: Option<Entry>, seekTable: Option<Table>, inputs0: Level,
                               inputs1: Level, grandparents: Level, pointer': Entry)
    requires level < |v|
  {
    exists first, picked ::
      && FirstInput(v[level], pointer, seekTable, first) && WithFirst(v, level, first, picked)
      && SetUp(v, level, picked, inputs0, inputs1, grandparents, pointer')
  }

  /**
   * VersionSet::PickCompaction, once the level is decided: a size compaction takes the
   * first table past the compaction pointer, a seek compaction the table it was told.
   */
  method PickCompaction(v: Version, level: nat, pointer: Option<Entry>, seekTable: Option<Table>)
    returns (inputs0: Level, inputs1: Level, grandparents: Level, pointer': Entry)
    requires ValidVersion(v) && level + 1 < NUM_LEVELS && v[level] != []
    requires seekTable.Some? ==> seekTable.value in v[level]
    ensures Picked(v, level, inputs0, inputs1)
    ensures PickedAround(v, level, pointer, seekTable, inputs0, inputs1, grandparents, pointer')
    ensures match seekTable
            case Some(t) => t in inputs0
            case None => exists i :: 0 <= i < |v[level]| && FirstPast(v[level], pointer, i) && v[level][i] in inputs0
    ensures level > 0 && inputs1 == [] ==> |inputs0| == 1  // with few grandparent bytes, a trivial move
  {
    hide FirstPast, LevelsOrdered, AgeOrdered, Disjoint, Chosen0, Picked, SetUp, Meeting;
    var first;
    if seekTable.Some? {
      first := seekTable.value;
    } else {
      var i := PastPointer(v[level], pointer);
      first := v[level][i];
    }
    var picked := ChooseFrom(v, level, first);
    inputs0, inputs1, grandparents, pointer' := SetupOtherInputs(v, level, picked);
    assert FirstInput(v[level], pointer, seekTable, first);
  }

  /** The first tables of a range, up to the one that makes them big enough. */
  method CutShort(ts: Level) returns (r: Level)
    requires ts != []
    ensures CutTo(ts, r) && (ts[0].size >= MAX_FILE_SIZE_FOR_LEVEL ==> |r| == 1)
  {
    var total, i := 0, 0;
    while i < |ts| && total < MAX_FILE_SIZE_FOR_LEVEL
      invariant 0 <= i <= |ts|
      invariant total == TotalSize(ts[..i])
      invariant i > 0 ==> total >= ts[0].size
      invariant i > 1 ==> ts[0].size < MAX_FILE_SIZE_FOR_LEVEL
      invariant forall k :: 0 <= k < i ==> TotalSize(ts[..k]) < MAX_FILE_SIZE_FOR_LEVEL
    {
      assert ts[..i + 1] == ts[..i] + [ts[i]];
      TotalSizeIsSum(ts[..i], [ts[i]], ts[i]);
      total := total + ts[i].size;
      i := i + 1;
    }
    r := ts[..i];
  }

  /** The shortest beginning of a list that is big enough, or all of it. */
  ghost predicate CutTo(ts: Level, r: Level) {
    && r != [] && r <= ts
    && (r == ts || TotalSize(r) >= MAX_FILE_SIZE_FOR_LEVEL)
    && forall k :: 0 <= k < |r| ==> TotalSize(ts[..k]) < MAX_FILE_SIZE_FOR_LEVEL
  }

  /** What CompactRange picks: all that meets the range in the first level, and below it the beginning of that. */
  ghost predicate RangePicked(v: Version, level: nat, begin: Bound, end: Bound, picked: Level)
    requires level < |v|
  {
    if level > 0 then CutTo(Overlapping(v[level], begin, end), picked) else Meeting(v[0], 0, begin, end, picked)
  }

  /** The tables of a range as CompactRange takes them. */
  method ChooseRange(v: Version, level: nat, begin: Bound, end: Bound) returns (inputs0: Level)
    requires |v| == NUM_LEVELS && level + 1 < NUM_LEVELS && ValidLevel(v[level])
    ensures inputs0 != [] <==> exists t :: t in v[level] && Overlaps(t, begin, end)
    ensures inputs0 != [] ==> Chosen0(v, level, inputs0) && RangePicked(v, level, begin, end, inputs0)
    ensures level == 0 ==> forall t :: t in v[level] && Overlaps(t, begin, end) ==> t in inputs0
    ensures inputs0 != [] && level > 0 ==>
      && Overlapping(v[level], begin, end) != [] && Overlapping(v[level], begin, end)[0] in inputs0
      && (Overlapping(v[level], begin, end)[0].size >= MAX_FILE_SIZE_FOR_LEVEL ==> |inputs0| == 1)
  {
    var lo, hi;
    inputs0, lo, hi := GetOverlappingInputs(v[level], level, begin, end);
    QueryMet(v[level], level, begin, end, lo, hi);
    if inputs0 == [] {
      return;
    }
    if level > 0 {
      var all := inputs0;
      inputs0 := CutShort(all);
      hide TotalSize;
      assert inputs0[0] == all[0] && forall t :: t in inputs0 ==> t in all;
    } else {
      ClosedIsChosen(v[0], inputs0, lo, hi);
    }
  }

  /** VersionSet::CompactRange: above the first level a large range is cut short. */
  method CompactRange(v: Version, level: nat, begin: Bound, end: Bound)
    returns (found: bool, inputs0: Level, inputs1: Level, grandparents: Level, pointer: Option<Entry>)
    requires ValidVersion(v) && level + 1 < NUM_LEVELS
    ensures found ==> Picked(v, level, inputs0, inputs1)
    ensures found ==> pointer.Some? && exists picked ::
      && RangePicked(v, level, begin, end, picked)
      && SetUp(v, level, picked, inputs0, inputs1, grandparents, pointer.value)
    ensures found <==> exists t :: t in v[level] && Overlaps(t, begin, end)
    ensures found && level == 0 ==> forall t :: t in v[level] && Overlaps(t, begin, end) ==> t in inputs0
    ensures found && level > 0 ==>
      && Overlapping(v[level], begin, end) != [] && Overlapping(v[level], begin, end)[0] in inputs0
      && (inputs1 == [] && Overlapping(v[level], begin, end)[0].size >= MAX_FILE_SIZE_FOR_LEVEL ==> |inputs0| == 1)
  {
    hide LevelsOrdered, AgeOrdered, Disjoint, Chosen0, Picked, SetUp, Overlapping, Overlaps, RangePicked;
    inputs0 := ChooseRange(v, level, begin, end);
    inputs1, grandparents, pointer, found := [], [], None, inputs0 != [];
    if found {
      var picked := inputs0;
      var largest;
      inputs0, inputs1, grandparents, largest := SetupOtherInputs(v, level, picked);
      pointer := Some(largest);
    }
  }

  /** The search finds something exactly when some table meets the query, and then all that do. */
  lemma QueryMet(ts: Level, level: nat, begin: Bound, end: Bound, lo: Bound, hi: Bound)
    requires level > 0 ==> lo == begin && hi == end
    requires level == 0 ==> LeastClosed(ts, begin, end, lo, hi)
    requires forall t :: t in ts ==> t.smallest.user <= t.largest.user
    ensures Overlapping(ts, lo, hi) != [] <==> exists t :: t in ts && Overlaps(t, begin, end)
    ensures forall t :: t in ts && Overlaps(t, begin, end) ==> t in Overlapping(ts, lo, hi)
  {
    hide Overlapping;
    if !exists t :: t in ts && Overlaps(t, begin, end) {
      if level == 0 {
        assert OverlapClosed(ts, begin, end);
        assert Contains(begin, end, lo, hi);
      }
      forall t | t in ts ensures !Overlaps(t, lo, hi) {
        assert !Overlaps(t, begin, end);
      }
      FirstIsMember(Overlapping(ts, lo, hi));
    }
  }

  lemma FirstIsMember(ts: Level)
    ensures ts != [] ==> ts[0] in ts
  {
  }

  ghost predicate BoundedSequences(ts: Level) {
    forall t :: t in ts ==> t.largest.seqno <= MAX_SEQUENCE
  }

  /** SomeFileOverlapsRange: on a disjoint level one binary search decides. */
  method SomeFileOverlapsRange(disjoint: bool, ts: Level, lo: Bound, hi: Bound) returns (r: bool)
    requires ValidLevel(ts) && BoundedSequences(ts) && (disjoint ==> Disjoint(ts))
    ensures r <==> exists t :: t in ts && Overlaps(t, lo, hi)
  {
    if !disjoint {
      for i := 0 to |ts|
        invariant forall j :: 0 <= j < i ==> !Overlaps(ts[j], lo, hi)
      {
        if !(lo.Some? && lo.value > ts[i].largest.user) && !(hi.Some? && hi.value < ts[i].smallest.user) {
          assert ts[i] in ts && Overlaps(ts[i], lo, hi);
          return true;
        }
      }
      return false;
    }
    var index := 0;
    if lo.Some? {
      index := FindFile(ts, SeekKey(lo.value, MAX_SEQUENCE));
    }
    if index >= |ts| {
      return false;
    }
    r := !(hi.Some? && hi.value < ts[index].smallest.user);
    OverlapAtIndex(ts, lo, hi, index);
  }

  /** Past the first table that reaches the range, tables only begin later. */
  lemma OverlapAtIndex(ts: Level, lo: Bound, hi: Bound, index: nat)
    requires ValidLevel(ts) && BoundedSequences(ts) && Disjoint(ts) && index < |ts|
    requires lo.None? ==> index == 0
    requires lo.Some? ==> forall i :: 0 <= i < index ==> Before(ts[i].largest, SeekKey(lo.value, MAX_SEQUENCE))
    requires lo.Some? ==> !Before(ts[index].largest, SeekKey(lo.value, MAX_SEQUENCE))
    ensures (exists t :: t in ts && Overlaps(t, lo, hi)) <==> !(hi.Some? && hi.value < ts[index].smallest.user)
  {
    assert ts[index] in ts;
    if hi.Some? && hi.value < ts[index].smallest.user {
      forall t | t in ts ensures !Overlaps(t, lo, hi) {
        var i :| 0 <= i < |ts| && ts[i] == t;
        if index < i {
          assert Before(ts[index].largest, ts[i].smallest);
          EntryInBounds(ts[index], ts[index].largest);
        }
      }
    }
  }

  /** A flushed memtable may go below the first level only where it meets no table so far. */
  ghost predicate FlushLevel(v: Version, level: nat, lo: UserKey, hi: UserKey) {
    && level < |v|
    && (level > 0 ==> forall l, t :: 0 <= l <= level && t in v[l] ==> !Overlaps(t, Some(lo), Some(hi)))
  }

  ghost predicate Meets(ts: Level, lo: UserKey, hi: UserKey) {
    exists t :: t in ts && Overlaps(t, Some(lo), Some(hi))
  }

  /** Going one level deeper would meet a table, or too many bytes in the level after that. */
  ghost predicate NoDeeper(v: Version, level: nat, lo: UserKey, hi: UserKey)
    requires level + 1 < |v|
  {
    || (level == 0 && Meets(v[0], lo, hi))
    || Meets(v[level + 1], lo, hi)
    || (level + 2 < |v| && TotalSize(Overlapping(v[level + 2], Some(lo), Some(hi))) > MAX_GRANDPARENT_OVERLAP_BYTES)
  }

  /** Version::PickLevelForMemTableOutput. */
  method PickLevelForMemTableOutput(v: Version, lo: UserKey, hi: UserKey) returns (level: nat)
    requires ValidVersion(v) && forall l :: 0 <= l < NUM_LEVELS ==> BoundedSequences(v[l])
    ensures level <= MAX_MEM_COMPACT_LEVEL && FlushLevel(v, level, lo, hi)
    ensures level == MAX_MEM_COMPACT_LEVEL || NoDeeper(v, level, lo, hi)
  {
    hide LevelsOrdered, AgeOrdered, Disjoint, ValidLevel, BoundedSequences, Overlaps, Overlapping;
    level := 0;
    var overlap := SomeFileOverlapsRange(false, v[0], Some(lo), Some(hi));
    if overlap {
      return;
    }
    while level < MAX_MEM_COMPACT_LEVEL
      invariant level <= MAX_MEM_COMPACT_LEVEL
      invariant forall l, t :: 0 <= l <= level && t in v[l] ==> !Overlaps(t, Some(lo), Some(hi))
    {
      overlap := SomeFileOverlapsRange(true, v[level + 1], Some(lo), Some(hi));
      if overlap {
        break;
      }
      if level + 2 < NUM_LEVELS {
        var overlaps, _, _ := GetOverlappingInputs(v[level + 2], level + 2, Some(lo), Some(hi));
        if TotalSize(overlaps) > MAX_GRANDPARENT_OVERLAP_BYTES {
          break;
        }
      }
      level := level + 1;
    }
  }

  /** No chosen table ends on the same user key its unchosen successor begins with. */
  ghost predicate Uncut(ts: Level, chosen: Level) {
    forall i :: 0 <= i < |ts| - 1 && ts[i] in chosen && ts[i + 1] !in chosen ==>
      ts[i].largest.user != ts[i + 1].smallest.user
  }

  /** With no cut, a level's unchosen entries are newer than its chosen ones of the same key. */
  lemma UncutNewer(ts: Level, chosen: Level, i: nat, j: nat, e: Entry, x: Entry)
    requires ValidLevel(ts) && Disjoint(ts) && Unique(LevelEntries(ts)) && Uncut(ts, chosen)
    requires i < |ts| && j < |ts| && ts[i] in chosen && ts[j] !in chosen
    requires e in ts[i].entries && x in ts[j].entries && x.user == e.user
    ensures x.seqno > e.seqno
  {
    EntryInBounds(ts[i], e);
    EntryInBounds(ts[j], x);
    if j < i {
      assert Before(ts[j].largest, ts[i].smallest);
      assert e in LevelEntries(ts) && x in LevelEntries(ts);
    } else {
      var m := CutBetween(ts, chosen, i, j);
      assert Before(ts[m].largest, ts[m + 1].smallest);
      LargestIncreases(ts, m);
      assert m + 1 == j || Before(ts[m + 1].largest, ts[j].smallest);
      EntryInBounds(ts[m + 1], ts[m + 1].largest);
      assert false;
    }
  }

  lemma {:induction false} CutBetween(ts: Level, chosen: Level, i: nat, j: nat) returns (m: nat)
    requires i <= j < |ts| && ts[i] in chosen && ts[j] !in chosen
    ensures i <= m < j && ts[m] in chosen && ts[m + 1] !in chosen
    decreases j - i
  {
    if ts[i + 1] in chosen {
      m := CutBetween(ts, chosen, i + 1, j);
    } else {
      m := i;
    }
  }

  /** The entries of the unchosen tables of a level. */
  ghost function Unchosen(ts: Level, chosen: Level): iset<Entry> {
    iset e, t | t in ts && t !in chosen && e in t.entries :: e
  }

  /**
   * Inputs chosen by the code, with no table boundary inside a user key at their
   * upper end, leave nothing older than a chosen entry behind in their own level.
   */
  lemma PickedLeavesNewer(v: Version, level: nat, inputs0: Level, inputs1: Level)
    requires ValidVersion(v) && Unique(VersionEntries(v))
    requires Picked(v, level, inputs0, inputs1)
    requires level > 0 ==> Uncut(v[level], inputs0)
    ensures Newer(Unchosen(v[level], inputs0), LevelEntries(inputs0 + inputs1))
  {
    LevelUnique(v, level);
    LeftInLevel(v, level, inputs0, inputs1);
  }

  lemma PickedNext(v: Version, level: nat, inputs0: Level, inputs1: Level)
    requires ValidVersion(v) && Picked(v, level, inputs0, inputs1)
    ensures NextPicked(v[level + 1], inputs0, inputs1)
  {
  }

  lemma LevelUnique(v: Version, l: nat)
    requires Unique(VersionEntries(v)) && l < |v|
    ensures Unique(LevelEntries(v[l]))
  {
    assert v[l] in v;
  }

  /** A table that does not meet the hull of some tables holds none of their user keys. */
  lemma OutsideHull(ts: Level, t: Table, e: Entry, g: Table, x: Entry)
    requires t in ts && ValidTable(t) && e in t.entries
    requires ValidTable(g) && x in g.entries && x.user == e.user
    ensures ts != [] && Overlaps(g, Some(Lo(ts)), Some(Hi(ts)))
  {
    EntryInBounds(t, e);
    EntryInBounds(g, x);
  }

  lemma LeftInSame(ts: Level, chosen: Level, t: Table, e: Entry, g: Table, x: Entry)
    requires ValidLevel(ts) && Disjoint(ts) && Unique(LevelEntries(ts)) && Uncut(ts, chosen)
    requires t in ts && t in chosen && e in t.entries
    requires g in ts && g !in chosen && x in g.entries && x.user == e.user
    ensures x.seqno > e.seqno
  {
    var i :| 0 <= i < |ts| && ts[i] == t;
    var j :| 0 <= j < |ts| && ts[j] == g;
    UncutNewer(ts, chosen, i, j, e, x);
  }

  lemma LeftInLevel(v: Version, level: nat, inputs0: Level, inputs1: Level)
    requires ValidVersion(v) && Picked(v, level, inputs0, inputs1)
    requires Unique(LevelEntries(v[level]))
    requires level > 0 ==> Uncut(v[level], inputs0)
    ensures Newer(Unchosen(v[level], inputs0), LevelEntries(inputs0 + inputs1))
  {
    forall x, e | x in Unchosen(v[level], inputs0) && e in LevelEntries(inputs0 + inputs1) && x.user == e.user
      ensures x.seqno > e.seqno
    {
      hide ValidVersion, Picked, Unique, Uncut;
      var g :| g in v[level] && g !in inputs0 && x in g.entries;
      var t :| t in inputs0 + inputs1 && e in t.entries;
      LeftOfOne(v, level, inputs0, inputs1, g, x, t, e);
    }
  }

  lemma LeftOfOne(v: Version, level: nat, inputs0: Level, inputs1: Level, g: Table, x: Entry, t: Table, e: Entry)
    requires ValidVersion(v) && Picked(v, level, inputs0, inputs1)
    requires Unique(LevelEntries(v[level]))
    requires level > 0 ==> Uncut(v[level], inputs0)
    requires g in v[level] && g !in inputs0 && x in g.entries
    requires t in inputs0 + inputs1 && e in t.entries && x.user == e.user
    ensures x.seqno > e.seqno
  {
    hide LevelsOrdered, Disjoint, AgeOrdered, ValidTable, Unique, Uncut, LevelEntries, Overlaps;
    if t !in inputs0 {
      LevelAboveIsNewer(v, level, g, x, t, e);
    } else if level == 0 {
      OutsideHull(inputs0, t, e, g, x);
    } else {
      LeftInSame(v[level], inputs0, t, e, g, x);
    }
  }

  lemma LevelAboveIsNewer(v: Version, level: nat, g: Table, x: Entry, t: Table, e: Entry)
    requires LevelsOrdered(v) && level + 1 < |v| && g in v[level] && x in g.entries
    requires t in v[level + 1] && e in t.entries && x.user == e.user
    ensures x.seqno > e.seqno
  {
    assert x in LevelEntries(v[level]) && e in LevelEntries(v[level + 1]);
    assert Newer(LevelEntries(v[level]), LevelEntries(v[level + 1]));
  }

  /** `inputs1` is what `next` contributes to a compaction of `inputs0`. */
  ghost predicate NextPicked(next: Level, inputs0: Level, inputs1: Level) {
    && ValidLevel(inputs0) && inputs0 != []
    && ValidLevel(next) && Disjoint(next)
    && inputs1 == Overlapping(next, Some(Lo(inputs0)), Some(Hi(inputs0)))
  }

  /** What is left in the next level shares no user key with the inputs of the upper one. */
  lemma LeftInNext(next: Level, inputs0: Level, inputs1: Level, x: Entry, e: Entry)
    requires NextPicked(next, inputs0, inputs1)
    requires x in Unchosen(next, inputs1) && e in LevelEntries(inputs0)
    ensures x.user != e.user
  {
    var g :| g in next && g !in inputs1 && x in g.entries;
    var t :| t in inputs0 && e in t.entries;
    if x.user == e.user {
      OutsideHull(inputs0, t, e, g, x);
    }
  }

  /** Each table left in the next level lies wholly before or wholly after every chosen entry. */
  lemma LeftBeside(next: Level, inputs0: Level, inputs1: Level, g: Table)
    requires NextPicked(next, inputs0, inputs1)
    requires g in next && g !in inputs1
    ensures || (forall e :: e in LevelEntries(inputs0 + inputs1) ==> Before(g.largest, e))
            || (forall e :: e in LevelEntries(inputs0 + inputs1) ==> Before(e, g.smallest))
  {
    EntryInBounds(g, g.largest);
    assert !Overlaps(g, Some(Lo(inputs0)), Some(Hi(inputs0)));
    forall e | e in LevelEntries(inputs0 + inputs1)
      ensures g.largest.user < Lo(inputs0) ==> Before(g.largest, e)
      ensures Hi(inputs0) < g.smallest.user ==> Before(e, g.smallest)
    {
      var t :| t in inputs0 + inputs1 && e in t.entries;
      BesideOne(next, inputs0, inputs1, g, t, e);
    }
  }

  lemma BesideOne(next: Level, inputs0: Level, inputs1: Level, g: Table, t: Table, e: Entry)
    requires NextPicked(next, inputs0, inputs1)
    requires g in next && g !in inputs1
    requires t in inputs0 + inputs1 && e in t.entries
    ensures g.largest.user < Lo(inputs0) ==> Before(g.largest, e)
    ensures Hi(inputs0) < g.smallest.user ==> Before(e, g.smallest)
  {
    EntryInBounds(g, g.largest);
    EntryInBounds(t, e);
    if t !in inputs0 {
      var i :| 0 <= i < |next| && next[i] == t;
      var j :| 0 <= j < |next| && next[j] == g;
      EntryInBounds(t, t.largest);
      if i < j {
        assert Before(next[i].largest, next[j].smallest);
      } else {
        assert Before(next[j].largest, next[i].smallest);
      }
    }
  }
}
