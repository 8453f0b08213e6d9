/** The version edits that a run of the store logs, and what replaying them rebuilds. */
module ManifestRuns {
  import opened InternalKeys
  import opened Lookups
  import opened Options
  import opened Versions
  import opened VersionBuilder
  import opened Picking
  import opened Compactions
  import opened LevelEdits
  import opened Database
  import Replay

  const NO_EDIT := Replay.LevelEdit({}, {})

  /** What the edit that a step logs says about one level. */
  function EditAt(st: State, ev: Event, l: nat): Replay.LevelEdit {
    match ev
    case Flush(level, number, size) =>
      if l == level && Imm(st) != [] then Replay.LevelEdit({}, {TableOf(number, size, Imm(st))}) else NO_EDIT
    case Move(level, f) =>
      if l == level then Replay.LevelEdit({f.number}, {})
      else if l == level + 1 then Replay.LevelEdit({}, {f})
      else NO_EDIT
    case Compact(w) =>
      if l == w.level then Replay.LevelEdit(Numbers(w.inputs0), {})
      else if l == w.level + 1 then Replay.LevelEdit(Numbers(w.inputs1), Replay.TableSet(w.outputs))
      else NO_EDIT
    case _ => NO_EDIT
  }

  /** One edit turns one listing of a level into the next. */
  ghost predicate Turns(base: Level, e: Replay.LevelEdit, r: Level) {
    Replay.TableSet(r) == Replay.Files(Replay.TableSet(base), Replay.Applied(Replay.FRESH, e))
  }

  lemma SavedTurns(base: Level, added: Level, deleted: set<nat>, r: Level)
    requires Saved(base, added, deleted, r) && forall t :: t in added ==> t.number !in deleted
    ensures Turns(base, Replay.LevelEdit(deleted, Replay.TableSet(added)), r)
  {
  }

  lemma SameTurns(base: Level)
    ensures Turns(base, NO_EDIT, base)
  {
  }

  lemma FlushTurns(st: State, ev: Event, st': State, l: nat)
    requires Inv(st) && Step(st, ev, st') && ev.Flush? && l < NUM_LEVELS
    ensures |st.version| == |st'.version| == NUM_LEVELS && Turns(st.version[l], EditAt(st, ev, l), st'.version[l])
  {
    hide Ordered, ValidSnapshots, LevelsOrdered, AgeOrdered, ValidLevel, Disjoint, Numbered, SortedBySmallest,
      FlushLevel;
    SameTurns(st.version[l]);
    if Imm(st) != [] && l == ev.level {
      var t := TableOf(ev.number, ev.size, Imm(st));
      SavedTurns(st.version[l], [t], {}, st'.version[l]);
      assert Replay.TableSet([t]) == {t};
    }
  }

  lemma ReshapeTurns(v: Version, level: nat, inputs0: Level, inputs1: Level, outputs: Level, v': Version)
    requires Reshaped(v, level, inputs0, inputs1, outputs, v')
    requires forall t :: t in outputs ==> t.number !in Numbers(inputs1)
    ensures Turns(v[level], Replay.LevelEdit(Numbers(inputs0), {}), v'[level])
    ensures Turns(v[level + 1], Replay.LevelEdit(Numbers(inputs1), Replay.TableSet(outputs)), v'[level + 1])
    ensures forall l :: 0 <= l < NUM_LEVELS && l != level && l != level + 1 ==> Turns(v[l], NO_EDIT, v'[l])
  {
    SavedTurns(v[level], [], Numbers(inputs0), v'[level]);
    SavedTurns(v[level + 1], outputs, Numbers(inputs1), v'[level + 1]);
    assert Replay.TableSet([]) == {};
    hide Turns;
    forall l | 0 <= l < NUM_LEVELS && l != level && l != level + 1 ensures Turns(v[l], NO_EDIT, v'[l]) {
      SameTurns(v[l]);
    }
  }

  lemma MoveTurns(st: State, ev: Event, st': State, l: nat)
    requires Inv(st) && Step(st, ev, st') && ev.Move? && l < NUM_LEVELS
    ensures |st.version| == |st'.version| == NUM_LEVELS && Turns(st.version[l], EditAt(st, ev, l), st'.version[l])
  {
    hide Ordered, ValidSnapshots, ValidVersion, Numbered, Closed, Turns, Saved;
    var f := ev.table;
    ReshapeTurns(st.version, ev.level, [f], [], [f], st'.version);
    assert Numbers([f]) == {f.number} && Numbers([]) == {} && Replay.TableSet([f]) == {f};
  }

  lemma CompactTurns(st: State, ev: Event, st': State, l: nat)
    requires Inv(st) && Step(st, ev, st') && ev.Compact? && l < NUM_LEVELS
    ensures |st.version| == |st'.version| == NUM_LEVELS && Turns(st.version[l], EditAt(st, ev, l), st'.version[l])
  {
    hide Ordered, ValidSnapshots, ValidVersion, Numbered, Covered, Turns, Saved, Picked, Sorted, Survivors, Flatten;
    var w := ev.work;
    FreshOutputs(st.version, st.nextFile, w.level, w.inputs0, w.inputs1, w.outputs, st'.nextFile);
    ReshapeTurns(st.version, w.level, w.inputs0, w.inputs1, w.outputs, st'.version);
  }

  /** A step changes each level as the edit it logs says. */
  lemma StepTurns(st: State, ev: Event, st': State, l: nat)
    requires Inv(st) && Step(st, ev, st') && l < NUM_LEVELS
    ensures |st.version| == |st'.version| == NUM_LEVELS && Turns(st.version[l], EditAt(st, ev, l), st'.version[l])
  {
    hide Turns, Ordered, ValidSnapshots, Numbered, FlushStep, MoveStep, CompactStep;
    if ev.Flush? {
      FlushTurns(st, ev, st', l);
    } else if ev.Move? {
      MoveTurns(st, ev, st', l);
    } else if ev.Compact? {
      CompactTurns(st, ev, st', l);
    } else {
      SameTurns(st.version[l]);
    }
  }

  // ---------------------------------------------------------------- no number goes to a level twice

  /** A level and a file number added to it. */
  datatype Addition = Addition(level: nat, number: nat)

  ghost function Additions(st: State, ev: Event): iset<Addition> {
    iset l: nat, t | t in EditAt(st, ev, l).added :: Addition(l, t.number)
  }

  ghost function Live(v: Version): iset<Addition> {
    iset l: nat, t | l < |v| && t in v[l] :: Addition(l, t.number)
  }

  /** Numbers were all handed out, and a live table is at no level above one it was added to. */
  ghost predicate History(past: iset<Addition>, st: State) {
    && (forall a :: a in past ==> a.number < st.nextFile)
    && forall l, t, m: nat :: 0 <= l < |st.version| && t in st.version[l] && Addition(m, t.number) in past ==> m <= l
  }

  /** What a step adds: tables under new numbers, or one table from the level above. */
  ghost predicate NewOrFromAbove(st: State, l: nat, t: Table) {
    || st.nextFile <= t.number
    || (0 < l <= |st.version| && t in st.version[l - 1])
  }

  lemma MovedFromAbove(st: State, level: nat, f: Table, st': State)
    requires MoveStep(st, level, f, st')
    ensures st'.nextFile == st.nextFile && level < |st.version| && f in st.version[level]
  {
    assert f in [f];
  }

  lemma OutputsNew(st: State, w: Work, st': State, t: Table)
    requires CompactStep(st, w, st') && t in w.outputs
    ensures st.nextFile <= t.number < st'.nextFile
  {
    hide Picked, Sorted, ValidLevel, Flatten, Survivors, Covered, Reshaped;
    var i :| 0 <= i < |w.outputs| && w.outputs[i] == t;
  }

  lemma AddedNewOrFromAbove(st: State, ev: Event, st': State, l: nat, t: Table)
    requires Inv(st) && Step(st, ev, st') && t in EditAt(st, ev, l).added
    ensures NewOrFromAbove(st, l, t) && t.number < st'.nextFile && st.nextFile <= st'.nextFile
  {
    hide Ordered, ValidSnapshots, ValidVersion, WriteStep, MoveStep, CompactStep, FlushInstalls, Sorted;
    NextFileGrows(st, ev, st');
    match ev
    case Flush(level, number, size) =>
    case Move(level, f) => MovedFromAbove(st, level, f, st');
    case Compact(w) => OutputsNew(st, w, st', t);
  }

  lemma AddsOnce(st: State, ev: Event, st': State, past: iset<Addition>)
    requires Inv(st) && Step(st, ev, st') && History(past, st)
    ensures Additions(st, ev) !! past
  {
    hide Inv, Step, EditAt;
    forall a | a in Additions(st, ev) ensures a !in past {
      var l: nat, t :| t in EditAt(st, ev, l).added && a == Addition(l, t.number);
      AddedNewOrFromAbove(st, ev, st', l, t);
      if t.number < st.nextFile {
        assert t in st.version[l - 1];
      }
    }
  }

  lemma NextFileGrows(st: State, ev: Event, st': State)
    requires Step(st, ev, st')
    ensures st.nextFile <= st'.nextFile
  {
    hide SeqEntries, BatchEntries, Covered, Reshaped, Sorted, Survivors, Flatten, FlushInstalls, Picked, Closed;
  }

  /** A table live after a step was live there before it, or was just added there. */
  lemma LiveWasLiveOrAdded(st: State, ev: Event, st': State, l: nat, t: Table)
    requires Inv(st) && Step(st, ev, st') && l < |st'.version| && t in st'.version[l] && l < NUM_LEVELS
    ensures |st.version| == NUM_LEVELS && (t in st.version[l] || t in EditAt(st, ev, l).added)
  {
    hide Inv, Step, EditAt;
    StepTurns(st, ev, st', l);
    assert t in Replay.TableSet(st'.version[l]);
  }

  lemma AddedInRange(st: State, ev: Event, st': State, l: nat)
    requires Inv(st) && Step(st, ev, st') && EditAt(st, ev, l).added != {}
    ensures l < NUM_LEVELS
  {
    hide Ordered, ValidSnapshots, ValidVersion, Numbered, WriteStep, Saved, Sorted, Survivors, Flatten, FlushLevel,
      Picked,
      NumberedFrom, Uncut;
  }

  lemma AddedIsLive(st: State, ev: Event, st': State, l: nat, t: Table)
    requires Inv(st) && Step(st, ev, st') && t in EditAt(st, ev, l).added
    ensures l < NUM_LEVELS == |st'.version| && t in st'.version[l]
  {
    hide Inv, Step, EditAt;
    AddedInRange(st, ev, st', l);
    StepTurns(st, ev, st', l);
    assert t.number in Replay.Numbers(EditAt(st, ev, l).added);
    assert t in Replay.TableSet(st'.version[l]);
  }

  lemma OneHistory(st: State, ev: Event, st': State, past: iset<Addition>, l: nat, t: Table, m: nat)
    requires Inv(st) && Step(st, ev, st') && Numbered(st'.version, st'.nextFile) && History(past, st)
    requires l < |st'.version| == NUM_LEVELS && t in st'.version[l]
    requires Addition(m, t.number) in past + Additions(st, ev)
    ensures m <= l
  {
    hide Inv, Step, EditAt;
    if Addition(m, t.number) in past {
      LiveWasLiveOrAdded(st, ev, st', l, t);
      if t !in st.version[l] {
        AddedNewOrFromAbove(st, ev, st', l, t);
      }
    } else {
      var k: nat, x :| x in EditAt(st, ev, k).added && Addition(m, t.number) == Addition(k, x.number);
      AddedIsLive(st, ev, st', k, x);
    }
  }

  lemma VersionSize(st: State)
    requires Inv(st)
    ensures |st.version| == NUM_LEVELS && Numbered(st.version, st.nextFile)
  {
  }

  lemma HistoryGoesOn(st: State, ev: Event, st': State, past: iset<Addition>)
    requires Inv(st) && Step(st, ev, st') && Inv(st') && History(past, st)
    ensures History(past + Additions(st, ev), st')
  {
    hide Step, EditAt, Inv, Numbered;
    VersionSize(st');
    var all := past + Additions(st, ev);
    NextFileGrows(st, ev, st');
    forall a | a in all ensures a.number < st'.nextFile {
      if a !in past {
        var l: nat, t :| t in EditAt(st, ev, l).added && a == Addition(l, t.number);
        AddedNewOrFromAbove(st, ev, st', l, t);
      }
    }
    forall l, t, m: nat | 0 <= l < |st'.version| && t in st'.version[l] && Addition(m, t.number) in all ensures m <= l {
      OneHistory(st, ev, st', past, l, t, m);
    }
  }

  // ---------------------------------------------------------------- runs

  /** Everything added to any level from state `from` on, and what was live then. */
  ghost function Past(states: seq<State>, events: seq<Event>, from: nat, n: nat): iset<Addition>
    requires from <= n <= |events| && |states| == |events| + 1
  {
    if n == from then Live(states[from].version)
    else Past(states, events, from, n - 1) + Additions(states[n - 1], events[n - 1])
  }

  lemma LiveHistory(st: State)
    requires Inv(st)
    ensures History(Live(st.version), st)
  {
  }

  lemma {:induction false} RunHistory(states: seq<State>, events: seq<Event>, from: nat, n: nat)
    requires Run(states, events) && from <= n <= |events|
    ensures Inv(states[n]) && History(Past(states, events, from, n), states[n])
  {
    hide Inv, Step, History, Live, Additions, Reads;
    RunsReadWhatWasWritten(states, events, n);
    if n == from {
      LiveHistory(states[n]);
    } else {
      RunHistory(states, events, from, n - 1);
      HistoryGoesOn(states[n - 1], events[n - 1], states[n], Past(states, events, from, n - 1));
    }
  }

  /**
   * A manifest started in state `from` and written up to state `n`, for one level: first
   * the tables then live, as WriteSnapshot lists them, and then the edit of each step.
   */
  ghost function Manifest(states: seq<State>, events: seq<Event>, from: nat, n: nat, l: nat): seq<Replay.LevelEdit>
    requires from <= n <= |events| && |states| == |events| + 1 && l < |states[from].version|
  {
    if n == from then [Replay.LevelEdit({}, Replay.TableSet(states[from].version[l]))]
    else Manifest(states, events, from, n - 1, l) + [EditAt(states[n - 1], events[n - 1], l)]
  }

  lemma {:induction false} ManifestInPast(states: seq<State>, events: seq<Event>, from: nat, n: nat, l: nat, i: nat,
                                          t: Table)
    requires from <= n <= |events| && |states| == |events| + 1 && l < |states[from].version|
    requires i < |Manifest(states, events, from, n, l)| && t in Manifest(states, events, from, n, l)[i].added
    ensures Addition(l, t.number) in Past(states, events, from, n)
  {
    hide EditAt;
    if n > from && i < |Manifest(states, events, from, n - 1, l)| {
      ManifestInPast(states, events, from, n - 1, l, i, t);
    }
  }

  lemma NoneTwiceSnoc(es: seq<Replay.LevelEdit>, e: Replay.LevelEdit)
    requires Replay.NoneAddedTwice({}, es)
    requires forall i :: 0 <= i < |es| ==> Replay.Numbers(es[i].added) !! Replay.Numbers(e.added)
    ensures Replay.NoneAddedTwice({}, es + [e])
  {
  }

  lemma EarlierAdded(states: seq<State>, events: seq<Event>, from: nat, n: nat, l: nat, i: nat)
    requires from <= n < |events| && |states| == |events| + 1 && l < |states[from].version|
    requires i < |Manifest(states, events, from, n, l)|
    requires Additions(states[n], events[n]) !! Past(states, events, from, n)
    ensures Replay.Numbers(Manifest(states, events, from, n, l)[i].added) !!
            Replay.Numbers(EditAt(states[n], events[n], l).added)
  {
    hide EditAt, Manifest, Past;
    var a, e := Manifest(states, events, from, n, l)[i].added, EditAt(states[n], events[n], l);
    forall t, x | t in a && x in e.added ensures t.number != x.number {
      ManifestInPast(states, events, from, n, l, i, t);
      assert Addition(l, x.number) in Additions(states[n], events[n]);
    }
  }

  /** No run adds a file number to a level twice. */
  lemma {:induction false} RunsAddNoNumberTwice(states: seq<State>, events: seq<Event>, from: nat, n: nat, l: nat)
    requires Run(states, events) && from <= n <= |events| && l < |states[from].version|
    ensures |states| == |events| + 1 && Replay.NoneAddedTwice({}, Manifest(states, events, from, n, l))
  {
    hide Run, Inv, Step, History, EditAt, Past, Additions, Replay.NoneAddedTwice, Replay.Numbers, Replay.TableSet;
    RunSize(states, events);
    if n == from {
      OneEditOnce(Replay.LevelEdit({}, Replay.TableSet(states[from].version[l])));
    } else {
      RunsAddNoNumberTwice(states, events, from, n - 1, l);
      StepAddsOnce(states, events, from, n - 1);
      var es, e := Manifest(states, events, from, n - 1, l), EditAt(states[n - 1], events[n - 1], l);
      forall i | 0 <= i < |es| ensures Replay.Numbers(es[i].added) !! Replay.Numbers(e.added) {
        EarlierAdded(states, events, from, n - 1, l, i);
      }
      NoneTwiceSnoc(es, e);
    }
  }

  lemma OneEditOnce(e: Replay.LevelEdit)
    ensures Replay.NoneAddedTwice({}, [e])
  {
  }

  lemma StepAddsOnce(states: seq<State>, events: seq<Event>, from: nat, n: nat)
    requires Run(states, events) && from <= n < |events|
    ensures |states| == |events| + 1 && Additions(states[n], events[n]) !! Past(states, events, from, n)
  {
    hide Run, Inv, Step, History, EditAt, Past, Additions;
    RunSize(states, events);
    RunHistory(states, events, from, n);
    StepOf(states, events, n);
    AddsOnce(states[n], events[n], states[n + 1], Past(states, events, from, n));
  }

  lemma RunSize(states: seq<State>, events: seq<Event>)
    requires Run(states, events)
    ensures |states| == |events| + 1
  {
  }

  lemma StepOf(states: seq<State>, events: seq<Event>, i: nat)
    requires Run(states, events) && i < |events|
    ensures Step(states[i], events[i], states[i + 1])
  {
  }

  lemma OneByOneSnoc(es: seq<Replay.LevelEdit>, e: Replay.LevelEdit)
    ensures Replay.OneByOne({}, es + [e]) == Replay.Files(Replay.OneByOne({}, es), Replay.Applied(Replay.FRESH, e))
  {
    assert (es + [e])[..|es|] == es;
  }

  lemma AllAdded(all: set<Table>)
    ensures Replay.OneByOne({}, [Replay.LevelEdit({}, all)]) == all
  {
    OneByOneSnoc([], Replay.LevelEdit({}, all));
    assert [] + [Replay.LevelEdit({}, all)] == [Replay.LevelEdit({}, all)];
  }

  /** The edits, saved one by one, say what each level holds. */
  lemma {:induction false} ManifestOneByOne(states: seq<State>, events: seq<Event>, from: nat, n: nat, l: nat)
    requires Run(states, events) && from <= n <= |events| && l < NUM_LEVELS
    ensures |states| == |events| + 1 && |states[from].version| == |states[n].version| == NUM_LEVELS
    ensures Replay.OneByOne({}, Manifest(states, events, from, n, l)) == Replay.TableSet(states[n].version[l])
  {
    hide Run, Inv, Step, EditAt, Reads, Replay.OneByOne, Replay.Files, Replay.Applied, Replay.TableSet;
    RunSize(states, events);
    RunsReadWhatWasWritten(states, events, from);
    VersionSize(states[from]);
    if n == from {
      AllAdded(Replay.TableSet(states[from].version[l]));
    } else {
      ManifestOneByOne(states, events, from, n - 1, l);
      RunsReadWhatWasWritten(states, events, n - 1);
      StepOf(states, events, n - 1);
      StepTurns(states[n - 1], events[n - 1], states[n], l);
      OneByOneSnoc(Manifest(states, events, from, n - 1, l), EditAt(states[n - 1], events[n - 1], l));
    }
  }

  /**
   * VersionSet::Recover: in every run, one builder over a manifest's edits, started at
   * whichever state, rebuilds the file lists of the version the run ended in.
   */
  lemma ReplayRebuildsVersion(states: seq<State>, events: seq<Event>, from: nat, n: nat, l: nat, saved: Level)
    requires Run(states, events) && from <= n <= |events| && l < |states[from].version| && l < NUM_LEVELS
    requires SortedBySmallest(saved)
    requires Replay.TableSet(saved) ==
             Replay.Files({}, Replay.AppliedAll(Replay.FRESH, Manifest(states, events, from, n, l)))
    ensures l < |states[n].version| && saved == states[n].version[l]
  {
    hide Run, Inv, Manifest, Reads;
    RunSize(states, events);
    RunsReadWhatWasWritten(states, events, n);
    VersionSize(states[n]);
    RunsAddNoNumberTwice(states, events, from, n, l);
    ManifestOneByOne(states, events, from, n, l);
    SameMembers(saved, states[n].version[l], Manifest(states, events, from, n, l));
  }

  lemma SameMembers(p: Level, q: Level, es: seq<Replay.LevelEdit>)
    requires SortedBySmallest(p) && SortedBySmallest(q) && Replay.NoneAddedTwice({}, es)
    requires Replay.TableSet(p) == Replay.Files({}, Replay.AppliedAll(Replay.FRESH, es))
    requires Replay.TableSet(q) == Replay.OneByOne({}, es)
    ensures p == q
  {
    assert forall t :: t in p <==> t in Replay.TableSet(p);
    assert forall t :: t in q <==> t in Replay.TableSet(q);
    Replay.ReplayListsAreSame({}, es, p, q);
  }
}
