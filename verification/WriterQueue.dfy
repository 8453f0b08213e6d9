/**
 * Group commit (DBImpl::Write and BuildBatchGroup in db/db_impl.cc): threads queue up, the
 * one in front logs and applies a group of batches with the mutex released, and wakes the rest.
 */
module WriterQueue {
  import Database
  import Lookups
  import Operations
  import opened InternalKeys
  import opened Options

  type Op = Database.Op

  datatype Batch = Batch(ops: seq<Op>, bytes: nat)

  /** A waiting call of Write; a call without a batch only asks for a memtable switch. */
  datatype Writer = Writer(id: nat, batch: Option<Batch>, sync: bool)

  // ---------------------------------------------------------------- building a group

  function OpsOf(w: Writer): seq<Op> {
    if w.batch.Some? then w.batch.value.ops else []
  }

  /** The updates of the writers, in queue order. */
  function AllOps(ws: seq<Writer>): seq<Op> {
    if ws == [] then [] else AllOps(ws[..|ws| - 1]) + OpsOf(ws[|ws| - 1])
  }

  function AllBytes(ws: seq<Writer>): nat {
    if ws == [] then 0
    else AllBytes(ws[..|ws| - 1]) + if ws[|ws| - 1].batch.Some? then ws[|ws| - 1].batch.value.bytes else 0
  }

  /** A small first write limits the growth of its group. */
  function MaxBytes(first: nat): nat {
    if first <= 0x2_0000 then first + 0x2_0000 else 0x10_0000
  }

  /**
   * The first `k` writers form a group with updates `ops`: no sync write rides with a
   * leader that does not sync, and the group is as long as the size limit allows.
   */
  ghost predicate IsGroup(ws: seq<Writer>, k: nat, ops: seq<Op>) {
    && 0 < k <= |ws|
    && ws[0].batch.Some?
    && ops == AllOps(ws[..k])
    && (forall i :: 0 <= i < k && ws[i].sync ==> ws[0].sync)
    && (forall i :: 0 < i < k && ws[i].batch.Some? ==> AllBytes(ws[..i + 1]) <= MaxBytes(ws[0].batch.value.bytes))
    && (k < |ws| ==>
        (ws[k].sync && !ws[0].sync) || (ws[k].batch.Some? && AllBytes(ws[..k + 1]) > MaxBytes(ws[0].batch.value.bytes)))
  }

  lemma AllOpsSnoc(ws: seq<Writer>, k: nat)
    requires k < |ws|
    ensures AllOps(ws[..k + 1]) == AllOps(ws[..k]) + OpsOf(ws[k])
    ensures AllBytes(ws[..k + 1]) == AllBytes(ws[..k]) + if ws[k].batch.Some? then ws[k].batch.value.bytes else 0
  {
    assert ws[..k + 1][..k] == ws[..k];
  }

  method BuildBatchGroup(writers: seq<Writer>) returns (k: nat, result: seq<Op>)
    requires writers != [] && writers[0].batch.Some?
    ensures IsGroup(writers, k, result)
  {
    hide AllOps, AllBytes;
    var first := writers[0];
    result := first.batch.value.ops;
    var size := first.batch.value.bytes;
    var maxSize := 0x10_0000;
    if size <= 0x2_0000 {
      maxSize := size + 0x2_0000;
    }
    k := 1;
    StartGroup(writers);
    while k < |writers|
      invariant 0 < k <= |writers|
      invariant result == AllOps(writers[..k]) && size == AllBytes(writers[..k])
      invariant forall i :: 0 <= i < k && writers[i].sync ==> first.sync
      invariant forall i :: 0 < i < k && writers[i].batch.Some? ==> AllBytes(writers[..i + 1]) <= maxSize
    {
      var w := writers[k];
      AllOpsSnoc(writers, k);
      if w.sync && !first.sync {
        break;
      }
      if w.batch.Some? {
        size := size + w.batch.value.bytes;
        if size > maxSize {
          break;
        }
        result := result + w.batch.value.ops;
      }
      k := k + 1;
    }
  }

  lemma StartGroup(ws: seq<Writer>)
    requires ws != []
    ensures AllOps(ws[..1]) == OpsOf(ws[0])
    ensures AllBytes(ws[..1]) == if ws[0].batch.Some? then ws[0].batch.value.bytes else 0
  {
    AllOpsSnoc(ws, 0);
  }

  // ---------------------------------------------------------------- the protocol

  /** Where a call of Write is. `last` is the group's last writer, `first` its first sequence number. */
  datatype Phase =
    | Queued
    | MakingRoom
    | Appending(last: nat, first: nat, ops: seq<Op>)
    | Syncing(last: nat, first: nat, ops: seq<Op>)
    | Inserting(last: nat, first: nat, ops: seq<Op>, done: nat)
    | Finished(ok: bool)

  datatype Logged = Logged(first: nat, ops: seq<Op>)

  datatype Outcome = Outcome(writer: Writer, ok: bool)

  /**
   * `gone` lists the writers that left the queue, in that order, and `arrivals` those that
   * entered it; the database has neither. `mem` lists insertions in their order in time.
   */
  datatype State = State(
    queue: seq<Writer>,
    phases: map<nat, Phase>,
    log: seq<Logged>,
    synced: nat,
    mem: seq<Entry>,
    lastSequence: nat,
    arrivals: seq<Writer>,
    gone: seq<Outcome>)

  /** A new call pushes itself on the queue. */
  predicate ArriveStep(s: State, w: Writer, s': State) {
    && w.id !in s.phases
    && s' == s.(queue := s.queue + [w], phases := s.phases[w.id := Queued], arrivals := s.arrivals + [w])
  }

  predicate AtPhase(s: State, t: nat, p: Phase) {
    t in s.phases && s.phases[t] == p
  }

  /** A waiting thread wakes and finds itself in front. */
  predicate LeadStep(s: State, t: nat, s': State) {
    && AtPhase(s, t, Queued)
    && s.queue != [] && s.queue[0].id == t
    && s' == s.(phases := s.phases[t := MakingRoom])
  }

  /** Writers are popped up to and including `last`. */
  function PopCount(queue: seq<Writer>, last: nat): nat {
    if queue == [] then 0 else if queue[0].id == last then 1 else 1 + PopCount(queue[1..], last)
  }

  function Popped(queue: seq<Writer>, ok: bool): seq<Outcome> {
    seq(|queue|, i requires 0 <= i < |queue| => Outcome(queue[i], ok))
  }

  function MarkDone(phases: map<nat, Phase>, ws: seq<Writer>, ok: bool): map<nat, Phase>
    decreases |ws|
  {
    if ws == [] then phases else MarkDone(phases[ws[0].id := Finished(ok)], ws[1..], ok)
  }

  /** The last loop of Write. */
  predicate Leaves(s: State, last: nat, ok: bool, s': State) {
    var k := PopCount(s.queue, last);
    && k <= |s.queue|
    && s'.queue == s.queue[k..]
    && s'.phases == MarkDone(s.phases, s.queue[..k], ok)
    && s'.gone == s.gone + Popped(s.queue[..k], ok)
    && s'.arrivals == s.arrivals
  }

  /** MakeRoomForWrite failed, or the call has no batch: it leaves alone. */
  predicate LeaveStep(s: State, t: nat, ok: bool, s': State) {
    && AtPhase(s, t, MakingRoom)
    && s.queue != []
    && (ok ==> s.queue[0].batch.None?)
    && Leaves(s, t, ok, s')
    && s'.log == s.log && s'.synced == s.synced && s'.mem == s.mem && s'.lastSequence == s.lastSequence
  }

  /** With room made, the leader builds a group and releases the mutex. */
  ghost predicate BuildStep(s: State, t: nat, k: nat, ops: seq<Op>, s': State) {
    && AtPhase(s, t, MakingRoom)
    && IsGroup(s.queue, k, ops)
    && s' == s.(phases := s.phases[t := Appending(s.queue[k - 1].id, s.lastSequence + 1, ops)])
  }

  predicate AppendStep(s: State, t: nat, sync: bool, s': State) {
    && t in s.phases && s.phases[t].Appending?
    && var Appending(last, first, ops) := s.phases[t];
    && (exists w :: w in s.queue && w.id == t && w.sync == sync)
    && s' == s.(log := s.log + [Logged(first, ops)],
                phases := s.phases[t := if sync then Syncing(last, first, ops) else Inserting(last, first, ops, 0)])
  }

  predicate SyncStep(s: State, t: nat, s': State) {
    && t in s.phases && s.phases[t].Syncing?
    && var Syncing(last, first, ops) := s.phases[t];
    && s' == s.(synced := |s.log|, phases := s.phases[t := Inserting(last, first, ops, 0)])
  }

  /** One entry goes into the memtable; readers may already find it. */
  predicate InsertStep(s: State, t: nat, s': State) {
    && t in s.phases && s.phases[t].Inserting?
    && var Inserting(last, first, ops, done) := s.phases[t];
    && done < |ops|
    && s' ==
      s.(mem := s.mem + [Database.NewEntry(ops[done], first + done)],
         phases := s.phases[t := Inserting(last, first, ops, done + 1)])
  }

  /** With the mutex held again, the group's last sequence number is published and the group leaves. */
  predicate CompleteStep(s: State, t: nat, s': State) {
    && t in s.phases && s.phases[t].Inserting?
    && var Inserting(last, first, ops, done) := s.phases[t];
    && done == |ops| && first > 0
    && s'.lastSequence == first - 1 + |ops|
    && Leaves(s, last, true, s')
    && s'.log == s.log && s'.synced == s.synced && s'.mem == s.mem
  }

  datatype Action =
    | Arrive(writer: Writer)
    | Lead(t: nat)
    | Leave(t: nat, ok: bool)
    | Build(t: nat, k: nat, ops: seq<Op>)
    | Append(t: nat, sync: bool)
    | Sync(t: nat)
    | InsertOne(t: nat)
    | Complete(t: nat)

  ghost predicate Step(s: State, a: Action, s': State) {
    match a
    case Arrive(w) => ArriveStep(s, w, s')
    case Lead(t) => LeadStep(s, t, s')
    case Leave(t, ok) => LeaveStep(s, t, ok, s')
    case Build(t, k, ops) => BuildStep(s, t, k, ops, s')
    case Append(t, sync) => AppendStep(s, t, sync, s')
    case Sync(t) => SyncStep(s, t, s')
    case InsertOne(t) => InsertStep(s, t, s')
    case Complete(t) => CompleteStep(s, t, s')
  }

  const INITIAL: State := State([], map[], [], 0, [], 0, [], [])

  // ---------------------------------------------------------------- the invariant

  function WriterOf(gone: seq<Outcome>): seq<Writer> {
    seq(|gone|, i requires 0 <= i < |gone| => gone[i].writer)
  }

  /** The updates of the writers that succeeded, in the order they left. */
  function Committed(gone: seq<Outcome>): seq<Op> {
    if gone == [] then []
    else Committed(gone[..|gone| - 1]) + if gone[|gone| - 1].ok then OpsOf(gone[|gone| - 1].writer) else []
  }

  function LoggedOps(log: seq<Logged>): seq<Op> {
    if log == [] then [] else LoggedOps(log[..|log| - 1]) + log[|log| - 1].ops
  }

  /** Every record's first sequence number counts the updates before it. */
  predicate Numbered(log: seq<Logged>) {
    forall i :: 0 <= i < |log| ==> log[i].first == |LoggedOps(log[..i])| + 1
  }

  /** What the leader, if there is one, has logged and inserted of its group. */
  function InFlight(s: State): Phase {
    if s.queue != [] && s.queue[0].id in s.phases then s.phases[s.queue[0].id] else Queued
  }

  function LoggedInFlight(p: Phase): seq<Op> {
    if p.Syncing? || p.Inserting? then p.ops else []
  }

  function InsertedInFlight(p: Phase): seq<Op> {
    if p.Inserting? && p.done <= |p.ops| then p.ops[..p.done] else []
  }

  /** The queue holds each unfinished call once, and only the one in front is past waiting. */
  ghost predicate QueueInv(s: State) {
    && (forall i, j :: 0 <= i < j < |s.queue| ==> s.queue[i].id != s.queue[j].id)
    && (forall i :: 0 <= i < |s.queue| ==> s.queue[i].id in s.phases && !s.phases[s.queue[i].id].Finished?)
    && (forall i :: 0 < i < |s.queue| ==> s.phases[s.queue[i].id].Queued?)
    && (forall t :: t in s.phases && !s.phases[t].Finished? ==> exists i :: 0 <= i < |s.queue| && s.queue[i].id == t)
  }

  /** The group in flight: the writers up to `last`, numbered from the published sequence number on. */
  ghost predicate GroupInv(s: State) {
    var p := InFlight(s);
    (p.Appending? || p.Syncing? || p.Inserting?) ==>
      var k := PopCount(s.queue, p.last);
      && 0 < k <= |s.queue| && s.queue[k - 1].id == p.last
      && p.ops == AllOps(s.queue[..k])
      && (forall i :: 0 <= i < k && s.queue[i].sync ==> s.queue[0].sync)
      && p.first == s.lastSequence + 1
      && (p.Inserting? ==> p.done <= |p.ops| && (s.queue[0].sync ==> s.synced == |s.log|))
  }

  /** What was committed, logged and inserted agree, update by update and number by number. */
  ghost predicate HistoryInv(s: State) {
    var p := InFlight(s);
    && s.arrivals == WriterOf(s.gone) + s.queue
    && s.lastSequence == |Committed(s.gone)|
    && LoggedOps(s.log) == Committed(s.gone) + LoggedInFlight(p)
    && Numbered(s.log)
    && s.mem == Database.BatchEntries(Committed(s.gone) + InsertedInFlight(p), 1)
  }

  /** The sequence number of the last update of the g-th writer that left, and of those before it. */
  function EndOf(gone: seq<Outcome>, g: nat): nat
    requires g < |gone|
  {
    |Committed(gone[..g + 1])|
  }

  predicate AsksSync(w: Writer) {
    w.sync && w.batch.Some?
  }

  /** The sync writes that succeeded are among the first `n` updates. */
  ghost predicate SyncedTo(gone: seq<Outcome>, n: nat) {
    forall g :: 0 <= g < |gone| && gone[g].ok && AsksSync(gone[g].writer) ==> EndOf(gone, g) <= n
  }

  /** Every sync write that succeeded is in the synced part of the log. */
  ghost predicate SyncInv(s: State) {
    s.synced <= |s.log| && SyncedTo(s.gone, |LoggedOps(s.log[..s.synced])|)
  }

  ghost predicate Inv(s: State) {
    QueueInv(s) && GroupInv(s) && HistoryInv(s) && SyncInv(s)
  }

  lemma InitialInv()
    ensures Inv(INITIAL)
  {
  }

  /** At most one thread is past waiting, so at most one logs or inserts. */
  lemma OneLeader(s: State, t: nat, u: nat)
    requires QueueInv(s)
    requires t in s.phases && !s.phases[t].Queued? && !s.phases[t].Finished?
    requires u in s.phases && !s.phases[u].Queued? && !s.phases[u].Finished?
    ensures t == u && s.queue != [] && s.queue[0].id == t
  {
  }

  // ---------------------------------------------------------------- every step keeps it

  lemma {:induction false} PopCountAt(queue: seq<Writer>, i: nat)
    requires i < |queue| && forall j, l :: 0 <= j < l < |queue| ==> queue[j].id != queue[l].id
    ensures PopCount(queue, queue[i].id) == i + 1
  {
    if i > 0 {
      PopCountAt(queue[1..], i - 1);
      assert queue[1..][i - 1] == queue[i];
    }
  }

  lemma {:induction false} MarkDoneAt(phases: map<nat, Phase>, ws: seq<Writer>, ok: bool, t: nat)
    ensures var marked := MarkDone(phases, ws, ok);
            var left := exists i :: 0 <= i < |ws| && ws[i].id == t;
            && (t in marked <==> left || t in phases)
            && (t in marked ==> marked[t] == if left then Finished(ok) else phases[t])
    decreases |ws|
  {
    if ws != [] {
      MarkDoneAt(phases[ws[0].id := Finished(ok)], ws[1..], ok, t);
      if i :| 0 <= i < |ws| && ws[i].id == t && i > 0 {
        assert ws[1..][i - 1].id == t;
      }
    }
  }

  lemma {:induction false} CommittedPopped(gone: seq<Outcome>, ws: seq<Writer>, ok: bool)
    ensures Committed(gone + Popped(ws, ok)) == Committed(gone) + if ok then AllOps(ws) else []
  {
    hide Committed, Popped;
    if ws == [] {
      NonePopped(gone, ok);
    } else {
      var fewer := ws[..|ws| - 1];
      CommittedPopped(gone, fewer, ok);
      PoppedSnoc(gone, ws, ok);
      CommittedSnoc(gone + Popped(fewer, ok), Outcome(ws[|ws| - 1], ok));
    }
  }

  lemma NonePopped(gone: seq<Outcome>, ok: bool)
    ensures gone + Popped([], ok) == gone
  {
  }

  lemma PoppedSnoc(gone: seq<Outcome>, ws: seq<Writer>, ok: bool)
    requires ws != []
    ensures gone + Popped(ws, ok) == (gone + Popped(ws[..|ws| - 1], ok)) + [Outcome(ws[|ws| - 1], ok)]
  {
  }

  lemma CommittedSnoc(gone: seq<Outcome>, o: Outcome)
    ensures Committed(gone + [o]) == Committed(gone) + if o.ok then OpsOf(o.writer) else []
  {
    assert (gone + [o])[..|gone|] == gone;
  }

  lemma WriterOfPopped(gone: seq<Outcome>, ws: seq<Writer>, ok: bool)
    ensures WriterOf(gone + Popped(ws, ok)) == WriterOf(gone) + ws
  {
  }

  lemma BatchSnoc(ops: seq<Op>, op: Op)
    ensures Database.BatchEntries(ops + [op], 1) == Database.BatchEntries(ops, 1) + [Database.NewEntry(op, |ops| + 1)]
  {
  }

  lemma Leader(s: State, t: nat)
    requires QueueInv(s) && t in s.phases && !s.phases[t].Queued? && !s.phases[t].Finished?
    ensures s.queue != [] && s.queue[0].id == t && InFlight(s) == s.phases[t]
  {
  }

  lemma ArriveKeepsInv(s: State, w: Writer, s': State)
    requires Inv(s) && ArriveStep(s, w, s')
    ensures Inv(s')
  {
    hide QueueInv, GroupInv, HistoryInv, SyncInv, ArriveStep;
    ArriveKeepsQueue(s, w, s');
    ArriveKeepsHistory(s, w, s');
    ArriveKeepsGroup(s, w, s');
  }

  lemma ArriveKeepsGroup(s: State, w: Writer, s': State)
    requires GroupInv(s) && ArriveStep(s, w, s') && QueueInv(s') && InFlight(s') == InFlight(s)
    ensures GroupInv(s')
  {
    hide InFlight, AllOps, PopCount;
    var p := InFlight(s);
    if p.Appending? || p.Syncing? || p.Inserting? {
      var k := PopCount(s.queue, p.last);
      DistinctIds(s');
      PopCountAt(s'.queue, k - 1);
      assert s'.queue[..k] == s.queue[..k];
    }
  }

  lemma DistinctIds(s: State)
    requires QueueInv(s)
    ensures forall j, l :: 0 <= j < l < |s.queue| ==> s.queue[j].id != s.queue[l].id
  {
  }

  lemma ArriveKeepsQueue(s: State, w: Writer, s': State)
    requires QueueInv(s) && ArriveStep(s, w, s')
    ensures QueueInv(s') && InFlight(s') == InFlight(s)
  {
    forall t | t in s'.phases && !s'.phases[t].Finished?
      ensures exists i :: 0 <= i < |s'.queue| && s'.queue[i].id == t
    {
      if t == w.id {
        assert s'.queue[|s.queue|].id == t;
      } else {
        var i :| 0 <= i < |s.queue| && s.queue[i].id == t;
        assert s'.queue[i].id == t;
      }
    }
  }

  lemma ArriveKeepsHistory(s: State, w: Writer, s': State)
    requires Inv(s) && ArriveStep(s, w, s') && InFlight(s') == InFlight(s)
    ensures HistoryInv(s') && SyncInv(s')
  {
  }

  /** A step of the leader that changes only its phase and what the phase is about. */
  lemma PhaseKeepsQueue(s: State, t: nat, p: Phase, s': State)
    requires QueueInv(s) && t in s.phases && s.queue != [] && s.queue[0].id == t
    requires s'.queue == s.queue && s'.phases == s.phases[t := p] && !p.Finished?
    ensures QueueInv(s') && InFlight(s') == p
  {
  }

  lemma LeadKeepsInv(s: State, t: nat, s': State)
    requires Inv(s) && LeadStep(s, t, s')
    ensures Inv(s')
  {
    PhaseKeepsQueue(s, t, MakingRoom, s');
  }

  lemma BuildKeepsInv(s: State, t: nat, k: nat, ops: seq<Op>, s': State)
    requires Inv(s) && BuildStep(s, t, k, ops, s')
    ensures Inv(s')
  {
    hide AllOps, AllBytes, Committed, LoggedOps, QueueInv, Numbered, SyncedTo, Database.BatchEntries;
    Leader(s, t);
    PhaseKeepsQueue(s, t, s'.phases[t], s');
    DistinctIds(s);
    PopCountAt(s.queue, k - 1);
  }

  lemma AppendKeepsHistory(s: State, t: nat, sync: bool, s': State)
    requires HistoryInv(s) && SyncInv(s) && AppendStep(s, t, sync, s')
    requires InFlight(s) == s.phases[t] && InFlight(s') == s'.phases[t] && s.phases[t].first == s.lastSequence + 1
    ensures HistoryInv(s') && SyncInv(s')
  {
    hide Committed, LoggedOps, InFlight, SyncedTo, Numbered;
    var ops := s.phases[t].ops;
    assert Committed(s.gone) + [] == Committed(s.gone) && ops[..0] == [];
    AppendNumbers(s.log, s.phases[t].first, ops);
    assert s'.log[..s.synced] == s.log[..s.synced];
  }

  lemma AppendKeepsInv(s: State, t: nat, sync: bool, s': State)
    requires Inv(s) && AppendStep(s, t, sync, s')
    ensures Inv(s')
  {
    hide AllOps, Committed, QueueInv, PopCount, LoggedOps, HistoryInv, SyncInv;
    Leader(s, t);
    PhaseKeepsQueue(s, t, s'.phases[t], s');
    FrontIs(s, t, sync);
    AppendKeepsHistory(s, t, sync, s');
  }

  lemma FrontIs(s: State, t: nat, sync: bool)
    requires QueueInv(s) && s.queue != [] && s.queue[0].id == t
    requires exists w :: w in s.queue && w.id == t && w.sync == sync
    ensures s.queue[0].sync == sync
  {
    var w :| w in s.queue && w.id == t && w.sync == sync;
    var i :| 0 <= i < |s.queue| && s.queue[i] == w;
  }

  lemma AppendNumbers(log: seq<Logged>, first: nat, ops: seq<Op>)
    requires Numbered(log) && first == |LoggedOps(log)| + 1
    ensures Numbered(log + [Logged(first, ops)])
    ensures LoggedOps(log + [Logged(first, ops)]) == LoggedOps(log) + ops
  {
    var log' := log + [Logged(first, ops)];
    assert log'[..|log|] == log;
    forall i | 0 <= i < |log'| ensures log'[i].first == |LoggedOps(log'[..i])| + 1 {
      assert i < |log| ==> log'[..i] == log[..i];
    }
  }

  lemma SyncKeepsInv(s: State, t: nat, s': State)
    requires Inv(s) && SyncStep(s, t, s')
    ensures Inv(s')
  {
    hide AllOps, QueueInv, PopCount, Committed, LoggedOps, SyncedTo, Numbered;
    Leader(s, t);
    PhaseKeepsQueue(s, t, s'.phases[t], s');
    var ops := s.phases[t].ops;
    assert ops[..0] == [];
    assert s.log[..|s.log|] == s.log;
    SyncedAll(s.gone, |LoggedOps(s.log)|);
  }

  lemma {:induction false} CommittedPrefix(gone: seq<Outcome>, g: nat)
    requires g <= |gone|
    ensures |Committed(gone[..g])| <= |Committed(gone)|
  {
    if g < |gone| {
      CommittedPrefix(gone[..|gone| - 1], g);
      assert gone[..|gone| - 1][..g] == gone[..g];
    } else {
      assert gone[..g] == gone;
    }
  }

  lemma SyncedAll(gone: seq<Outcome>, n: nat)
    requires |Committed(gone)| <= n
    ensures SyncedTo(gone, n)
  {
    forall g | 0 <= g < |gone| ensures EndOf(gone, g) <= n {
      CommittedPrefix(gone, g + 1);
    }
  }

  lemma InsertKeepsInv(s: State, t: nat, s': State)
    requires Inv(s) && InsertStep(s, t, s')
    ensures Inv(s')
  {
    hide AllOps, Committed, LoggedOps, QueueInv, PopCount, Database.BatchEntries, Database.NewEntry;
    Leader(s, t);
    PhaseKeepsQueue(s, t, s'.phases[t], s');
    var Inserting(_, first, ops, done) := s.phases[t];
    assert Committed(s.gone) + ops[..done + 1] == Committed(s.gone) + ops[..done] + [ops[done]];
    BatchSnoc(Committed(s.gone) + ops[..done], ops[done]);
  }

  // Leaving the queue --------------------------------------------------

  /** After the group left: the rest of the queue waits, and nothing is in flight. */
  lemma LeavesKeepsQueue(s: State, k: nat, ok: bool, s': State)
    requires QueueInv(s) && 0 < k <= |s.queue|
    requires s'.queue == s.queue[k..] && s'.phases == MarkDone(s.phases, s.queue[..k], ok)
    ensures QueueInv(s') && InFlight(s').Queued?
  {
    hide MarkDone;
    forall t ensures t in s'.phases <==> t in s.phases || exists i :: 0 <= i < k && s.queue[..k][i].id == t {
      MarkDoneAt(s.phases, s.queue[..k], ok, t);
    }
    forall i | 0 <= i < |s'.queue| ensures s'.queue[i].id in s'.phases && s'.phases[s'.queue[i].id] == Queued {
      MarkDoneAt(s.phases, s.queue[..k], ok, s'.queue[i].id);
      assert s'.queue[i] == s.queue[k + i];
    }
    forall t | t in s'.phases && !s'.phases[t].Finished?
      ensures exists i :: 0 <= i < |s'.queue| && s'.queue[i].id == t
    {
      StillWaiting(s, k, ok, t);
    }
  }

  lemma StillWaiting(s: State, k: nat, ok: bool, t: nat)
    requires QueueInv(s) && 0 < k <= |s.queue|
    requires var phases := MarkDone(s.phases, s.queue[..k], ok); t in phases && !phases[t].Finished?
    ensures exists i :: 0 <= i < |s.queue[k..]| && s.queue[k..][i].id == t
  {
    MarkDoneAt(s.phases, s.queue[..k], ok, t);
    var i :| 0 <= i < |s.queue| && s.queue[i].id == t;
    if k <= i {
      assert s.queue[k..][i - k].id == t;
    }
  }

  lemma LeavesKeepsHistory(s: State, k: nat, ok: bool, s': State)
    requires HistoryInv(s) && 0 < k <= |s.queue| && InFlight(s').Queued?
    requires s'.queue == s.queue[k..] && s'.gone == s.gone + Popped(s.queue[..k], ok)
    requires s'.log == s.log && s'.mem == s.mem && s'.arrivals == s.arrivals
    requires var done := if ok then AllOps(s.queue[..k]) else [];
             && LoggedInFlight(InFlight(s)) == done && InsertedInFlight(InFlight(s)) == done
             && s'.lastSequence == s.lastSequence + |done|
    ensures HistoryInv(s')
  {
    hide Committed, LoggedOps, InFlight, Numbered, AllOps, Database.BatchEntries, LoggedInFlight, InsertedInFlight,
      Popped;
    CommittedPopped(s.gone, s.queue[..k], ok);
    WriterOfPopped(s.gone, s.queue[..k], ok);
    NothingInFlight(InFlight(s'));
    assert s.queue == s.queue[..k] + s.queue[k..];
    assert forall ops: seq<Op> :: ops + [] == ops;
    assert WriterOf(s.gone) + s.queue == (WriterOf(s.gone) + s.queue[..k]) + s.queue[k..];
  }

  lemma NothingInFlight(p: Phase)
    requires p.Queued?
    ensures LoggedInFlight(p) == [] && InsertedInFlight(p) == []
  {
  }

  /** Either the whole log is synced, or none of those that leave asked for it. */
  lemma LeavesKeepsSync(s: State, k: nat, ok: bool, s': State)
    requires SyncInv(s) && k <= |s.queue| && s'.gone == s.gone + Popped(s.queue[..k], ok)
    requires s'.log == s.log && s'.synced == s.synced && |Committed(s'.gone)| <= |LoggedOps(s.log)|
    requires !ok || s.synced == |s.log| || forall i :: 0 <= i < k ==> !AsksSync(s.queue[i])
    ensures SyncInv(s')
  {
    hide Committed, LoggedOps;
    if ok && s.synced == |s.log| {
      assert s.log[..s.synced] == s.log;
      SyncedAll(s'.gone, |LoggedOps(s.log)|);
    } else {
      forall g | 0 <= g < |s'.gone| && s'.gone[g].ok && AsksSync(s'.gone[g].writer)
        ensures EndOf(s'.gone, g) <= |LoggedOps(s.log[..s.synced])|
      {
        assert g < |s.gone|;
        assert s'.gone[..g + 1] == s.gone[..g + 1];
        assert EndOf(s.gone, g) <= |LoggedOps(s.log[..s.synced])|;
      }
    }
  }

  lemma NoGroup(s: State)
    requires InFlight(s).Queued?
    ensures GroupInv(s)
  {
  }

  lemma LeaveKeepsInv(s: State, t: nat, ok: bool, s': State)
    requires Inv(s) && LeaveStep(s, t, ok, s')
    ensures Inv(s')
  {
    hide AllOps, Committed, LoggedOps, Popped, MarkDone, SyncedTo, Numbered, Database.BatchEntries;
    Leader(s, t);
    PopCountAt(s.queue, 0);
    StartGroup(s.queue);
    LeavesKeepsQueue(s, 1, ok, s');
    NoGroup(s');
    LeavesKeepsHistory(s, 1, ok, s');
    NothingInFlight(InFlight(s'));
    LeavesKeepsSync(s, 1, ok, s');
  }

  lemma CompleteKeepsInv(s: State, t: nat, s': State)
    requires Inv(s) && CompleteStep(s, t, s')
    ensures Inv(s')
  {
    hide AllOps, Committed, LoggedOps, Popped, MarkDone, SyncedTo, Numbered, Database.BatchEntries, QueueInv, PopCount;
    Leader(s, t);
    var p := s.phases[t];
    var k := PopCount(s.queue, p.last);
    assert p.ops[..p.done] == p.ops;
    LeavesKeepsQueue(s, k, true, s');
    NoGroup(s');
    LeavesKeepsHistory(s, k, true, s');
    NothingInFlight(InFlight(s'));
    LeavesKeepsSync(s, k, true, s');
  }

  lemma StepKeepsInv(s: State, a: Action, s': State)
    requires Inv(s) && Step(s, a, s')
    ensures Inv(s')
  {
    hide Inv, ArriveStep, LeadStep, LeaveStep, BuildStep, AppendStep, SyncStep, InsertStep, CompleteStep;
    match a
    case Arrive(w) => ArriveKeepsInv(s, w, s');
    case Lead(t) => LeadKeepsInv(s, t, s');
    case Leave(t, ok) => LeaveKeepsInv(s, t, ok, s');
    case Build(t, k, ops) => BuildKeepsInv(s, t, k, ops, s');
    case Append(t, sync) => AppendKeepsInv(s, t, sync, s');
    case Sync(t) => SyncKeepsInv(s, t, s');
    case InsertOne(t) => InsertKeepsInv(s, t, s');
    case Complete(t) => CompleteKeepsInv(s, t, s');
  }

  ghost predicate Run(states: seq<State>, actions: seq<Action>) {
    && |states| == |actions| + 1
    && states[0] == INITIAL
    && forall i :: 0 <= i < |actions| ==> Step(states[i], actions[i], states[i + 1])
  }

  lemma {:induction false} RunsKeepInv(states: seq<State>, actions: seq<Action>, n: nat)
    requires Run(states, actions) && n <= |actions|
    ensures Inv(states[n])
  {
    hide Inv, Step;
    if n == 0 {
      InitialInv();
    } else {
      RunsKeepInv(states, actions, n - 1);
      StepKeepsInv(states[n - 1], actions[n - 1], states[n]);
    }
  }

  // ---------------------------------------------------------------- what callers and readers see

  /** The g-th writer that left has number `p`: its updates take the numbers from after its predecessors' on. */
  predicate Owns(gone: seq<Outcome>, g: nat, p: nat)
    requires g < |gone|
  {
    gone[g].ok && EndOf(gone, g) - |OpsOf(gone[g].writer)| < p <= EndOf(gone, g)
  }

  /** The ends of the writers' ranges never go back, and a range begins where the one before it ended, or later. */
  lemma {:induction false} RangesAscend(gone: seq<Outcome>, g: nat, h: nat)
    requires g < h < |gone|
    ensures EndOf(gone, g) <= EndOf(gone, h)
    ensures gone[h].ok ==> EndOf(gone, g) <= EndOf(gone, h) - |OpsOf(gone[h].writer)|
    decreases h
  {
    assert gone[..h + 1] == gone[..h] + [gone[h]];
    CommittedSnoc(gone[..h], gone[h]);
    assert gone[..h] == gone[..h - 1 + 1];
    if g < h - 1 {
      RangesAscend(gone, g, h - 1);
    }
  }

  /** Every committed number belongs to exactly one writer that left. */
  lemma {:induction false} RangesPartition(gone: seq<Outcome>, p: nat) returns (g: nat)
    requires 0 < p <= |Committed(gone)|
    ensures g < |gone| && Owns(gone, g, p)
    ensures forall h :: 0 <= h < |gone| && Owns(gone, h, p) ==> h == g
  {
    var last := |gone| - 1;
    assert gone[..last + 1] == gone == gone[..last] + [gone[last]];
    CommittedSnoc(gone[..last], gone[last]);
    if p <= |Committed(gone[..last])| {
      g := RangesPartition(gone[..last], p);
      assert gone[..last][..g + 1] == gone[..g + 1];
    } else {
      g := last;
    }
    forall h | 0 <= h < |gone| && Owns(gone, h, p) ensures h == g {
      if h < g {
        RangesAscend(gone, h, g);
      } else if g < h {
        RangesAscend(gone, g, h);
      }
    }
  }

  lemma {:induction false} CommittedSlice(gone: seq<Outcome>, g: nat)
    requires g < |gone| && gone[g].ok
    ensures EndOf(gone, g) <= |Committed(gone)| && |OpsOf(gone[g].writer)| <= EndOf(gone, g)
    ensures Committed(gone)[EndOf(gone, g) - |OpsOf(gone[g].writer)|..EndOf(gone, g)] == OpsOf(gone[g].writer)
  {
    if g + 1 == |gone| {
      assert gone[..g + 1] == gone;
    } else {
      var fewer := gone[..|gone| - 1];
      CommittedSlice(fewer, g);
      assert fewer[..g + 1] == gone[..g + 1];
    }
  }

  /**
   * At every point of every run: calls leave in the order they arrived; each update of each
   * successful batch is in the memtable, once, under its own number; no number that is
   * published belongs to a batch that is not wholly there; and successful sync writes are
   * in the synced part of the log, which holds the committed updates first.
   */
  lemma CommitsAreOrdered(states: seq<State>, actions: seq<Action>, n: nat, g: nat, j: nat)
    requires Run(states, actions) && n <= |actions|
    requires var gone := states[n].gone; g < |gone| && gone[g].ok && j < |OpsOf(gone[g].writer)|
    ensures var s := states[n];
            var number := EndOf(s.gone, g) - |OpsOf(s.gone[g].writer)| + j + 1;
            && 0 < number <= s.lastSequence && number <= |s.mem|
            && s.mem[number - 1] == Database.NewEntry(OpsOf(s.gone[g].writer)[j], number)
            && (AsksSync(s.gone[g].writer) ==> s.synced <= |s.log| && number <= |LoggedOps(s.log[..s.synced])|)
            && g < |s.arrivals| && s.arrivals[g] == s.gone[g].writer
  {
    hide Committed, LoggedOps, QueueInv, GroupInv, Numbered, InFlight, LoggedInFlight, InsertedInFlight;
    RunsKeepInv(states, actions, n);
    var s := states[n];
    CommittedSlice(s.gone, g);
    var ops := OpsOf(s.gone[g].writer);
    var start := EndOf(s.gone, g) - |ops|;
    assert Committed(s.gone)[start..start + |ops|][j] == ops[j];
  }

  /**
   * What a reader at the published sequence number sees of the memtable: the committed
   * updates, all of them and nothing else.
   */
  lemma PublishedIsWhole(states: seq<State>, actions: seq<Action>, n: nat)
    requires Run(states, actions) && n <= |actions|
    ensures var s := states[n];
            && s.lastSequence <= |s.mem|
            && s.mem[..s.lastSequence] == Database.BatchEntries(Committed(s.gone), 1)
            && forall i :: 0 <= i < |s.mem| ==> s.mem[i].seqno == i + 1
  {
    hide Committed, LoggedOps, QueueInv, GroupInv, Numbered, InFlight, LoggedInFlight, InsertedInFlight, SyncInv;
    RunsKeepInv(states, actions, n);
  }

  /** A reader keeps seeing what was published when it began, however long it reads. */
  lemma {:induction false} SnapshotsStayWhole(states: seq<State>, actions: seq<Action>, m: nat, n: nat)
    requires Run(states, actions) && m <= n <= |actions|
    ensures states[m].gone <= states[n].gone && states[m].mem <= states[n].mem
    decreases n
  {
    hide Inv;
    if m < n {
      SnapshotsStayWhole(states, actions, m, n - 1);
    }
  }

  /** In every run at most one thread is between the release and the return of the mutex. */
  lemma OneThreadCommits(states: seq<State>, actions: seq<Action>, n: nat, t: nat, u: nat)
    requires Run(states, actions) && n <= |actions|
    requires var ps := states[n].phases;
      t in ps && !ps[t].Queued? && !ps[t].Finished? && u in ps && !ps[u].Queued? && !ps[u].Finished?
    ensures t == u
  {
    hide QueueInv, GroupInv, HistoryInv, SyncInv, Step;
    RunsKeepInv(states, actions, n);
    OneLeader(states[n], t, u);
  }

  // ---------------------------------------------------------------- what each call is told

  /** The g-th writer that left returns what the queue decided. */
  predicate Told(s: State, g: nat)
    requires g < |s.gone|
  {
    AtPhase(s, s.gone[g].writer.id, Finished(s.gone[g].ok))
  }

  predicate HasLeft(s: State, t: nat) {
    exists g :: 0 <= g < |s.gone| && s.gone[g].writer.id == t
  }

  /** Every call has an id of its own, and those that returned, and no others, have left with that result. */
  ghost predicate ToldInv(s: State) {
    && (forall i, j :: 0 <= i < j < |s.arrivals| ==> s.arrivals[i].id != s.arrivals[j].id)
    && (forall i :: 0 <= i < |s.arrivals| ==> s.arrivals[i].id in s.phases)
    && (forall g :: 0 <= g < |s.gone| ==> Told(s, g))
    && (forall t :: t in s.phases && s.phases[t].Finished? ==> HasLeft(s, t))
  }

  lemma ArriveTells(s: State, w: Writer, s': State)
    requires ToldInv(s) && ArriveStep(s, w, s')
    ensures ToldInv(s')
  {
    forall g | 0 <= g < |s'.gone| ensures Told(s', g) {
      assert Told(s, g);
    }
    forall t | t in s'.phases && s'.phases[t].Finished? ensures HasLeft(s', t) {
      assert HasLeft(s, t);
    }
  }

  /** A call that has not returned may change its phase, as long as it does not return. */
  lemma PhaseTells(s: State, t: nat, p: Phase, s': State)
    requires ToldInv(s) && t in s.phases && !s.phases[t].Finished? && !p.Finished?
    requires s'.phases == s.phases[t := p] && s'.gone == s.gone && s'.arrivals == s.arrivals
    ensures ToldInv(s')
  {
    forall g | 0 <= g < |s'.gone| ensures Told(s', g) {
      assert Told(s, g);
    }
    forall u | u in s'.phases && s'.phases[u].Finished? ensures HasLeft(s', u) {
      assert HasLeft(s, u);
    }
  }

  lemma LeavesTells(s: State, last: nat, ok: bool, s': State)
    requires ToldInv(s) && s.arrivals == WriterOf(s.gone) + s.queue && Leaves(s, last, ok, s')
    ensures ToldInv(s')
  {
    hide MarkDone, PopCount;
    var k := PopCount(s.queue, last);
    var ws := s.queue[..k];
    forall t ensures
      && (t in s'.phases <==> (exists i :: 0 <= i < k && ws[i].id == t) || t in s.phases)
      && (t in s'.phases ==>
          s'.phases[t] == if exists i :: 0 <= i < k && ws[i].id == t then Finished(ok) else s.phases[t])
    {
      MarkDoneAt(s.phases, ws, ok, t);
    }
    forall g | 0 <= g < |s'.gone| ensures Told(s', g) {
      if g < |s.gone| {
        EarlierTold(s, k, ok, g);
      } else {
        assert s'.gone[g] == Outcome(ws[g - |s.gone|], ok);
      }
    }
    forall t | t in s'.phases && s'.phases[t].Finished? ensures HasLeft(s', t) {
      if i :| 0 <= i < k && ws[i].id == t {
        assert s'.gone[|s.gone| + i].writer == ws[i];
      } else {
        var g :| 0 <= g < |s.gone| && s.gone[g].writer.id == t;
        assert s'.gone[g] == s.gone[g];
      }
    }
  }

  /** Those that left before keep their phase. */
  lemma EarlierTold(s: State, k: nat, ok: bool, g: nat)
    requires ToldInv(s) && s.arrivals == WriterOf(s.gone) + s.queue && k <= |s.queue| && g < |s.gone|
    ensures var phases := MarkDone(s.phases, s.queue[..k], ok); var id := s.gone[g].writer.id;
      id in phases && phases[id] == Finished(s.gone[g].ok)
  {
    var id := s.gone[g].writer.id;
    MarkDoneAt(s.phases, s.queue[..k], ok, id);
    assert Told(s, g) && s.arrivals[g].id == id;
    forall i | 0 <= i < k ensures s.queue[..k][i].id != id {
      assert s.arrivals[|s.gone| + i] == s.queue[i];
    }
  }

  lemma StepTells(s: State, a: Action, s': State)
    requires Inv(s) && ToldInv(s) && Step(s, a, s')
    ensures ToldInv(s')
  {
    hide ToldInv, QueueInv, GroupInv, SyncInv, Committed, LoggedOps, Numbered, Leaves, IsGroup, Database.BatchEntries,
      InFlight, LoggedInFlight, InsertedInFlight;
    match a
    case Arrive(w) => ArriveTells(s, w, s');
    case Lead(t) => PhaseTells(s, t, MakingRoom, s');
    case Leave(t, ok) => LeavesTells(s, t, ok, s');
    case Build(t, k, ops) => PhaseTells(s, t, s'.phases[t], s');
    case Append(t, sync) => PhaseTells(s, t, s'.phases[t], s');
    case Sync(t) => PhaseTells(s, t, s'.phases[t], s');
    case InsertOne(t) => PhaseTells(s, t, s'.phases[t], s');
    case Complete(t) => LeavesTells(s, s.phases[t].last, true, s');
  }

  lemma {:induction false} RunsTell(states: seq<State>, actions: seq<Action>, n: nat)
    requires Run(states, actions) && n <= |actions|
    ensures Inv(states[n]) && ToldInv(states[n])
  {
    hide Inv, Step;
    RunsKeepInv(states, actions, n);
    if n > 0 {
      hide ToldInv;
      RunsTell(states, actions, n - 1);
      StepTells(states[n - 1], actions[n - 1], states[n]);
    }
  }

  /** Update `j` of a batch numbered after `start`: logged, inserted and published so, and synced if asked. */
  ghost predicate Written(s: State, w: Writer, start: nat, j: nat)
    requires j < |OpsOf(w)|
  {
    var i := start + j;
    && i < s.lastSequence && i < |s.mem| && i < |LoggedOps(s.log)|
    && LoggedOps(s.log)[i] == OpsOf(w)[j]
    && s.mem[i] == Database.NewEntry(OpsOf(w)[j], i + 1)
    && (AsksSync(w) ==> s.synced <= |s.log| && i < |LoggedOps(s.log[..s.synced])|)
  }

  ghost predicate AllWritten(s: State, w: Writer, start: nat) {
    forall j :: 0 <= j < |OpsOf(w)| ==> Written(s, w, start, j)
  }

  lemma SuccessIsWritten(states: seq<State>, actions: seq<Action>, n: nat, g: nat)
    requires Run(states, actions) && n <= |actions| && g < |states[n].gone| && states[n].gone[g].ok
    ensures var s := states[n]; var w := s.gone[g].writer;
      |OpsOf(w)| <= EndOf(s.gone, g) && AllWritten(s, w, EndOf(s.gone, g) - |OpsOf(w)|)
  {
    hide Step, OpsOf, EndOf, Written;
    var s := states[n];
    var w := s.gone[g].writer;
    CommittedSlice(s.gone, g);
    var start := EndOf(s.gone, g) - |OpsOf(w)|;
    forall j | 0 <= j < |OpsOf(w)| ensures Written(s, w, start, j) {
      OneWritten(states, actions, n, g, j, start);
    }
  }

  lemma OneWritten(states: seq<State>, actions: seq<Action>, n: nat, g: nat, j: nat, start: nat)
    requires Run(states, actions) && n <= |actions| && g < |states[n].gone| && states[n].gone[g].ok
    requires j < |OpsOf(states[n].gone[g].writer)|
    requires start == EndOf(states[n].gone, g) - |OpsOf(states[n].gone[g].writer)|
    ensures Written(states[n], states[n].gone[g].writer, start, j)
  {
    hide Step, Inv, OpsOf, EndOf, LoggedOps, AsksSync, Database.NewEntry;
    RunsKeepInv(states, actions, n);
    CommitsAreOrdered(states, actions, n, g, j);
    CommittedIsLogged(states[n], g, j);
  }

  /**
   * In every run a call of Write returns what became of it: those that have returned are
   * those that left; a call told it succeeded has every update logged, inserted and
   * published, under consecutive numbers of its own; and a call told it failed owns none.
   */
  lemma CallsAreToldTheTruth(states: seq<State>, actions: seq<Action>, n: nat, t: nat) returns (g: nat)
    requires Run(states, actions) && n <= |actions| && t in states[n].phases && states[n].phases[t].Finished?
    ensures var s := states[n];
      && g < |s.gone| && s.gone[g].writer.id == t && g < |s.arrivals| && s.arrivals[g] == s.gone[g].writer
      && s.phases[t] == Finished(s.gone[g].ok)
      && (forall h :: 0 <= h < |s.arrivals| && s.arrivals[h].id == t ==> h == g)
    ensures states[n].phases[t].ok ==> var s := states[n]; var w := s.gone[g].writer;
      |OpsOf(w)| <= EndOf(s.gone, g) && AllWritten(s, w, EndOf(s.gone, g) - |OpsOf(w)|)
    ensures !states[n].phases[t].ok ==> forall p :: !Owns(states[n].gone, g, p)
  {
    hide Step, Inv;
    RunsTell(states, actions, n);
    var s := states[n];
    assert HasLeft(s, t);
    g :| 0 <= g < |s.gone| && s.gone[g].writer.id == t;
    assert Told(s, g);
    GoneArrived(s, g);
    if s.phases[t].ok {
      SuccessIsWritten(states, actions, n, g);
    }
  }

  lemma GoneArrived(s: State, g: nat)
    requires Inv(s) && g < |s.gone|
    ensures g < |s.arrivals| && s.arrivals[g] == s.gone[g].writer
  {
    hide QueueInv, GroupInv, SyncInv, Committed, LoggedOps, Numbered;
  }

  lemma CommittedIsLogged(s: State, g: nat, j: nat)
    requires Inv(s) && g < |s.gone| && s.gone[g].ok && j < |OpsOf(s.gone[g].writer)|
    ensures var i := EndOf(s.gone, g) - |OpsOf(s.gone[g].writer)| + j;
      0 <= i < |LoggedOps(s.log)| && LoggedOps(s.log)[i] == OpsOf(s.gone[g].writer)[j]
  {
    hide Inv, Committed, LoggedOps;
    CommittedSlice(s.gone, g);
    LogBeginsCommitted(s);
    var ops := OpsOf(s.gone[g].writer);
    var start := EndOf(s.gone, g) - |ops|;
    assert Committed(s.gone)[start..start + |ops|][j] == ops[j];
    assert LoggedOps(s.log)[start + j] == Committed(s.gone)[start + j];
  }

  lemma LogBeginsCommitted(s: State)
    requires Inv(s)
    ensures Committed(s.gone) <= LoggedOps(s.log)
  {
    hide QueueInv, GroupInv, SyncInv, Committed, LoggedOps, Numbered, InFlight, LoggedInFlight, InsertedInFlight;
  }

  /** A reader at any published number is answered by the last committed operation on the key up to it. */
  lemma CommittedOperationsDecide(states: seq<State>, actions: seq<Action>, n: nat, user: UserKey, snapshot: nat)
    requires Run(states, actions) && n <= |actions| && snapshot <= states[n].lastSequence
    ensures var s := states[n];
      Lookups.Read(Lookups.SeqEntries(s.mem), user, snapshot) ==
      Operations.Answer(Operations.FirstOps(Committed(s.gone), snapshot), user)
  {
    hide Step, QueueInv, GroupInv, SyncInv, Committed, LoggedOps, Numbered, InFlight, LoggedInFlight, InsertedInFlight,
      Operations.Answer, Lookups.Read;
    RunsKeepInv(states, actions, n);
    var s := states[n];
    var all := Committed(s.gone) + InsertedInFlight(InFlight(s));
    Operations.ReadIsAnswer(all, user, snapshot);
    assert all[..snapshot] == Committed(s.gone)[..snapshot];
    assert all[..|all|] == all && Committed(s.gone)[..|Committed(s.gone)|] == Committed(s.gone);
  }
}
