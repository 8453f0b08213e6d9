/**
 * What reads answer, said of the operations themselves: the last one on a key decides.
 */
module Operations {
  import opened Bytewise
  import opened InternalKeys
  import opened Lookups
  import opened Options
  import opened LevelEdits
  import opened Database

  /** What the operations so far leave under a key. */
  function Answer(ops: seq<Op>, user: UserKey): Option<Bytes> {
    if ops == [] then None
    else
      match ops[|ops| - 1]
      case Put(k, value) => if k == user then Some(value) else Answer(ops[..|ops| - 1], user)
      case Delete(k) => if k == user then None else Answer(ops[..|ops| - 1], user)
  }

  /** The first `n` operations, or all if there are fewer. */
  function FirstOps(ops: seq<Op>, n: nat): seq<Op> {
    if n < |ops| then ops[..n] else ops
  }

  lemma AnswerSnoc(ops: seq<Op>, op: Op, user: UserKey)
    ensures Answer(ops + [op], user) ==
      if op.user != user then Answer(ops, user)
      else match op { case Put(_, value) => Some(value) case Delete(_) => None }
  {
    assert (ops + [op])[..|ops|] == ops;
  }

  /** Operation `i` puts the value, and no later one is on its key. */
  ghost predicate LastPut(ops: seq<Op>, user: UserKey, value: Bytes, i: nat) {
    i < |ops| && ops[i] == Put(user, value) && forall j :: i < j < |ops| ==> ops[j].user != user
  }

  lemma LastPutSnoc(ops: seq<Op>, op: Op, user: UserKey, value: Bytes)
    ensures (exists i: nat :: LastPut(ops + [op], user, value, i)) <==>
      if op.user == user then op == Put(user, value) else exists i: nat :: LastPut(ops, user, value, i)
  {
    var more := ops + [op];
    if op == Put(user, value) {
      assert LastPut(more, user, value, |ops|);
    }
    if op.user != user {
      if i: nat :| LastPut(ops, user, value, i) {
        assert LastPut(more, user, value, i);
      }
      if i: nat :| LastPut(more, user, value, i) {
        forall j | i < j < |ops| ensures ops[j].user != user {
          assert more[j] == ops[j];
        }
        assert LastPut(ops, user, value, i);
      }
    } else if i: nat :| LastPut(more, user, value, i) {
      assert more[|ops|] == op;
    }
  }

  /** The answer in one sentence: a put with no later operation on its key, and nothing else, is found. */
  lemma {:induction false} AnswerIsLastPut(ops: seq<Op>, user: UserKey, value: Bytes)
    ensures Answer(ops, user) == Some(value) <==> exists i: nat :: LastPut(ops, user, value, i)
  {
    if ops != [] {
      var init, last := ops[..|ops| - 1], ops[|ops| - 1];
      assert ops == init + [last];
      AnswerIsLastPut(init, user, value);
      hide Answer, LastPut;
      AnswerSnoc(init, last, user);
      LastPutSnoc(init, last, user, value);
    }
  }

  /** The entries of some operations that were numbered from 1 on. */
  ghost function EntriesOf(ops: seq<Op>): iset<Entry> {
    SeqEntries(BatchEntries(ops, 1))
  }

  lemma EntriesNumbered(ops: seq<Op>)
    ensures Unique(EntriesOf(ops)) && forall e :: e in EntriesOf(ops) ==> 0 < e.seqno <= |ops|
    ensures forall i :: 0 <= i < |ops| ==> NewEntry(ops[i], i + 1) in EntriesOf(ops)
  {
    BatchFresh(ops, 0);
    forall i | 0 <= i < |ops| ensures NewEntry(ops[i], i + 1) in EntriesOf(ops) {
      assert BatchEntries(ops, 1)[i] == NewEntry(ops[i], i + 1);
    }
  }

  lemma EntriesMore(ops: seq<Op>, batch: seq<Op>)
    ensures EntriesOf(ops + batch) == EntriesOf(ops) + SeqEntries(BatchEntries(batch, |ops| + 1))
  {
    var a, b, c := BatchEntries(ops, 1), BatchEntries(batch, |ops| + 1), BatchEntries(ops + batch, 1);
    assert c == a + b;
  }

  /** A snapshot below the last number sees the operations up to it. */
  lemma SnapshotSeesFirst(ops: seq<Op>, user: UserKey, snapshot: nat)
    ensures Read(EntriesOf(ops), user, snapshot) == Read(EntriesOf(FirstOps(ops, snapshot)), user, snapshot)
  {
    if snapshot < |ops| {
      var first, rest := ops[..snapshot], ops[snapshot..];
      assert ops == first + rest;
      EntriesMore(first, rest);
      EntriesNumbered(ops);
      BatchFresh(rest, snapshot);
      var a, b := EntriesOf(first), SeqEntries(BatchEntries(rest, snapshot + 1));
      hide Newest, SeqEntries;
      SameVisible(a, b, user, snapshot);
    }
  }

  lemma SameVisible(a: iset<Entry>, b: iset<Entry>, user: UserKey, snapshot: nat)
    requires Unique(a + b) && forall e :: e in b ==> e.seqno > snapshot
    ensures Newest(a + b, user, snapshot) == Newest(a, user, snapshot)
  {
    NewestIsUnique(a + b, user, snapshot, Newest(a + b, user, snapshot), Newest(a, user, snapshot));
  }

  /** The newest entry of a key is that of the last operation on it. */
  lemma {:induction false} LastOperationDecides(ops: seq<Op>, user: UserKey, snapshot: nat)
    requires |ops| <= snapshot
    ensures Read(EntriesOf(ops), user, snapshot) == Answer(ops, user)
  {
    EntriesNumbered(ops);
    if ops == [] {
      assert EntriesOf(ops) == iset{};
    } else {
      var init, last := ops[..|ops| - 1], ops[|ops| - 1];
      assert ops == init + [last];
      hide Newest, EntriesOf, NewEntry, Answer, Unique, SeqEntries, Read;
      LastOperationDecides(init, user, snapshot);
      AnswerSnoc(init, last, user);
      EntriesMore(init, [last]);
      OneEntry(last, |ops|);
      EntriesNumbered(init);
      OpEntry(last, |ops|);
      OneMoreRead(EntriesOf(init), NewEntry(last, |ops|), user, snapshot);
    }
  }

  lemma OneEntry(op: Op, seqno: nat)
    ensures SeqEntries(BatchEntries([op], seqno)) == iset{NewEntry(op, seqno)}
  {
    assert BatchEntries([op], seqno) == [NewEntry(op, seqno)];
  }

  /** What a put and a deletion leave in the store. */
  lemma OpEntry(op: Op, seqno: nat)
    ensures var e := NewEntry(op, seqno);
      && e.user == op.user && e.seqno == seqno
      && Outcome(Some(e)) == match op { case Put(_, value) => Some(value) case Delete(_) => None }
  {
  }

  lemma OneMoreRead(es: iset<Entry>, e: Entry, user: UserKey, snapshot: nat)
    requires Unique(es) && (forall x :: x in es ==> x.seqno < e.seqno) && e.seqno <= snapshot
    ensures Read(es + iset{e}, user, snapshot) ==
      if e.user == user then Outcome(Some(e)) else Read(es, user, snapshot)
  {
    var r := if e.user == user then Some(e) else Newest(es, user, snapshot);
    NewestIsUnique(es + iset{e}, user, snapshot, Newest(es + iset{e}, user, snapshot), r);
  }

  /** A snapshot above all numbers sees no more than the last number does. */
  lemma LaterSnapshot(es: iset<Entry>, user: UserKey, last: nat, snapshot: nat)
    requires Unique(es) && (forall e :: e in es ==> e.seqno <= last) && last <= snapshot
    ensures Read(es, user, snapshot) == Read(es, user, last)
  {
    NewestIsUnique(es, user, snapshot, Newest(es, user, snapshot), Newest(es, user, last));
  }

  predicate Mentions(ops: seq<Op>, user: UserKey) {
    exists i :: 0 <= i < |ops| && ops[i].user == user
  }

  /** What a key answers after some operations, given its answer before them. */
  function AnswerAfter(before: Option<Bytes>, ops: seq<Op>, user: UserKey): Option<Bytes> {
    if Mentions(ops, user) then Answer(ops, user) else before
  }

  lemma MentionsSnoc(ops: seq<Op>, op: Op, user: UserKey)
    ensures Mentions(ops + [op], user) <==> Mentions(ops, user) || op.user == user
  {
    var more := ops + [op];
    assert more[|ops|] == op && forall i :: 0 <= i < |ops| ==> more[i] == ops[i];
  }

  lemma BatchSnoc(ops: seq<Op>, op: Op, first: nat)
    ensures SeqEntries(BatchEntries(ops + [op], first)) ==
      SeqEntries(BatchEntries(ops, first)) + iset{NewEntry(op, first + |ops|)}
  {
    assert BatchEntries(ops + [op], first) == BatchEntries(ops, first) + [NewEntry(op, first + |ops|)];
  }

  /** After a batch, keys it has operations on answer by the last of them, and others as before. */
  lemma {:induction false} BatchIsSeen(es: iset<Entry>, batch: seq<Op>, last: nat, user: UserKey, snapshot: nat)
    requires Unique(es) && (forall e :: e in es ==> e.seqno <= last) && last + |batch| <= snapshot
    ensures Read(es + SeqEntries(BatchEntries(batch, last + 1)), user, snapshot) ==
      AnswerAfter(Read(es, user, snapshot), batch, user)
  {
    hide Newest, NewEntry, Answer, Mentions, SeqEntries, BatchEntries, Read, Unique;
    if batch == [] {
      EmptyBatch(es, last + 1, user);
    } else {
      var init, op := batch[..|batch| - 1], batch[|batch| - 1];
      assert batch == init + [op];
      BatchIsSeen(es, init, last, user, snapshot);
      AnswerSnoc(init, op, user);
      MentionsSnoc(init, op, user);
      OneMoreSeen(es, init, op, last, user, snapshot);
    }
  }

  lemma EmptyBatch(es: iset<Entry>, first: nat, user: UserKey)
    ensures es + SeqEntries(BatchEntries([], first)) == es && !Mentions([], user)
  {
  }

  lemma OneMoreSeen(es: iset<Entry>, init: seq<Op>, op: Op, last: nat, user: UserKey, snapshot: nat)
    requires Unique(es) && (forall e :: e in es ==> e.seqno <= last) && last + |init| + 1 <= snapshot
    ensures Read(es + SeqEntries(BatchEntries(init + [op], last + 1)), user, snapshot) ==
      if op.user == user then match op { case Put(_, value) => Some(value) case Delete(_) => None }
      else Read(es + SeqEntries(BatchEntries(init, last + 1)), user, snapshot)
  {
    hide Newest, NewEntry, SeqEntries, BatchEntries, Read, Unique;
    var added, e := SeqEntries(BatchEntries(init, last + 1)), NewEntry(op, last + 1 + |init|);
    BatchFresh(init, last);
    BatchSnoc(init, op, last + 1);
    OpEntry(op, last + 1 + |init|);
    Regrouped(es, added, e);
    WrittenUnique(es, added, last);
    OneMoreRead(es + added, e, user, snapshot);
  }

  lemma Regrouped(a: iset<Entry>, b: iset<Entry>, e: Entry)
    ensures a + (b + iset{e}) == a + b + iset{e}
  {
  }

  /** Reading the entries of numbered operations at any snapshot. */
  lemma ReadIsAnswer(ops: seq<Op>, user: UserKey, snapshot: nat)
    ensures Read(EntriesOf(ops), user, snapshot) == Answer(FirstOps(ops, snapshot), user)
  {
    hide Newest, EntriesOf, Read, Answer;
    SnapshotSeesFirst(ops, user, snapshot);
    LastOperationDecides(FirstOps(ops, snapshot), user, snapshot);
  }

  // ---------------------------------------------------------------- runs

  /** The operations of all writes in the first `n` events, in order. */
  function RunOps(events: seq<Event>, n: nat): seq<Op>
    requires n <= |events|
  {
    if n == 0 then []
    else RunOps(events, n - 1) + if events[n - 1].Write? then events[n - 1].batch else []
  }

  lemma StepCounts(st: State, ev: Event, st': State)
    requires Step(st, ev, st')
    ensures st'.lastSequence == st.lastSequence + if ev.Write? then |ev.batch| else 0
  {
    hide SeqEntries, Sorted, FlushInstalls, Closed, Reshaped, Worked, Covered;
  }

  /** What a run has written are its operations, numbered from 1 on. */
  lemma {:induction false} RunWritesOps(states: seq<State>, events: seq<Event>, n: nat)
    requires Run(states, events) && n <= |events|
    ensures states[n].lastSequence == |RunOps(events, n)|
    ensures Written(states, events, n) == EntriesOf(RunOps(events, n))
  {
    hide Step;
    if n == 0 {
      assert EntriesOf([]) == iset{};
    } else {
      RunWritesOps(states, events, n - 1);
      StepCounts(states[n - 1], events[n - 1], states[n]);
      var ops, batch := RunOps(events, n - 1), if events[n - 1].Write? then events[n - 1].batch else [];
      EntriesMore(ops, batch);
      assert SeqEntries(BatchEntries([], |ops| + 1)) == iset{};
    }
  }

  /**
   * Get in any state of any run, at any live snapshot, answers by the last operation on the
   * key among the first `snapshot` operations of the run: its value after a put, and not
   * found after a deletion or without one.
   */
  method GetAfterRun(ghost states: seq<State>, ghost events: seq<Event>, st: State, user: UserKey, snapshot: nat)
    returns (r: Option<Bytes>)
    requires Run(states, events) && st == states[|events|]
    requires SmallestSnapshot(st) <= snapshot
    ensures r == Answer(FirstOps(RunOps(events, |events|), snapshot), user)
    ensures r == Read(Written(states, events, |events|), user, snapshot)
  {
    hide Run, Newest, Answer, EntriesOf;
    RunsReadWhatWasWritten(states, events, |events|);
    RunWritesOps(states, events, |events|);
    ReadIsAnswer(RunOps(events, |events|), user, snapshot);
    r := Get(st, user, snapshot);
  }
}

/** The same over stops and recoveries: acknowledged operations decide. */
module AcknowledgedOperations {
  import opened Bytewise
  import opened InternalKeys
  import opened Lookups
  import opened Options
  import opened Database
  import opened Durability
  import opened Crashes
  import opened Operations

  /** The operations of the batches acknowledged, or settled by a stop, in the first `n` steps. */
  function AckedOps(worlds: seq<World>, actions: seq<Action>, n: nat): seq<Op>
    requires n <= |actions| && |worlds| == |actions| + 1
  {
    if n == 0 then []
    else AckedOps(worlds, actions, n - 1) + SettledOps(worlds[n - 1], actions[n - 1])
  }

  /** A batch counts once it is applied, or once a stop finds it in the log. */
  function SettledOps(w: World, a: Action): seq<Op> {
    if w.Up? && (a.Apply? || a.Stop?) then w.store.inflight else []
  }

  /** How sequence numbers count the operations. */
  ghost predicate Counts(w: World, ops: seq<Op>) {
    match w
    case Up(s) => s.db.lastSequence == |ops|
    case Down(disk) => disk.manifest.lastSequence <= |ops|
  }

  lemma StoreStepCounts(s: Store, a: Action, s': Store)
    requires StoreStep(s, a, s')
    ensures s'.db.lastSequence == s.db.lastSequence + |SettledOps(Up(s), a)|
  {
    hide StoreStep, Step;
    StoreStepIsDatabaseStep(s, a, s');
    NoStop(s, a, s');
    if DatabaseEvent(s, a).Some? {
      StepCounts(s.db, DatabaseEvent(s, a).value, s'.db);
    }
  }

  lemma NoStop(s: Store, a: Action, s': Store)
    requires StoreStep(s, a, s')
    ensures !a.Stop? && (a.Snapshot? ==> !a.event.Write?)
  {
  }

  lemma ManifestBehind(s: Store)
    requires StoreInv(s)
    ensures s.disk.manifest.lastSequence <= s.db.lastSequence
  {
    hide Inv, LogsMatch, FilesMatch;
  }

  /** Recovery arrives at exactly the number of operations that count. */
  lemma RecoveredCounts(disk: Disk, ops: seq<Op>, last: nat)
    requires DiskReads(disk, EntriesOf(ops)) && disk.manifest.lastSequence <= |ops| && RecoveredLast(disk, last)
    ensures last == |ops|
  {
    hide EntriesOf, Read, Unique;
    EntriesNumbered(ops);
    if last > disk.manifest.lastSequence {
      var e :| e in LogEntries(disk) && e.seqno == last;
      assert e in DiskEntries(disk);
    }
    if ops != [] {
      var e := NewEntry(ops[|ops| - 1], |ops|);
      assert e in EntriesOf(ops);
    }
  }

  lemma RecoveredIsLast(disk: Disk, a: Action, s': Store)
    requires WorldStep(Down(disk), a, Up(s'))
    ensures RecoveredLast(disk, s'.db.lastSequence)
  {
    hide RecoveredLast, Rebuilt, RecoveredVersion, OnDisk;
  }

  lemma WorldStepCounts(w: World, a: Action, w': World, ops: seq<Op>)
    requires WorldStep(w, a, w') && WorldInv(w, EntriesOf(ops)) && Counts(w, ops)
    ensures Counts(w', ops + SettledOps(w, a))
  {
    hide StoreInv, StoreStep, DiskInv, DiskReads, Reads, RecoverStep, EntriesOf, RecoveredLast;
    match (w, w')
    case (Up(s), Up(s')) => StoreStepCounts(s, a, s');
    case (Up(s), Down(disk)) => ManifestBehind(s);
    case (Down(disk), Up(s')) =>
      RecoveredIsLast(disk, a, s');
      RecoveredCounts(disk, ops, s'.db.lastSequence);
    case (Down(disk), Down(disk')) => FailedManifest(disk, disk');
  }

  lemma SettledEntries(w: World, a: Action, ops: seq<Op>)
    requires Counts(w, ops)
    ensures EntriesOf(ops) + Settled(w, a) == EntriesOf(ops + SettledOps(w, a))
  {
    EntriesMore(ops, SettledOps(w, a));
    assert SeqEntries(BatchEntries([], |ops| + 1)) == iset{};
  }

  /** What a run has acknowledged are those operations, numbered from 1 on. */
  lemma {:induction false} RunAcknowledgesOps(worlds: seq<World>, actions: seq<Action>, n: nat)
    requires WorldRun(worlds, actions) && n <= |actions|
    ensures Counts(worlds[n], AckedOps(worlds, actions, n))
    ensures Acknowledged(worlds, actions, n) == EntriesOf(AckedOps(worlds, actions, n))
  {
    hide WorldStep, WorldInv, Settled, SettledOps;
    if n == 0 {
      assert EntriesOf([]) == iset{};
    } else {
      RunAcknowledgesOps(worlds, actions, n - 1);
      AcknowledgedWritesSurvive(worlds, actions, n - 1);
      hide Counts, EntriesOf;
      WorldStepCounts(worlds[n - 1], actions[n - 1], worlds[n], AckedOps(worlds, actions, n - 1));
      SettledEntries(worlds[n - 1], actions[n - 1], AckedOps(worlds, actions, n - 1));
    }
  }

  /**
   * Get on an open database, after any stops and recoveries, answers by the last operation
   * on the key among the first `snapshot` acknowledged ones.
   */
  method GetAfterStops(ghost worlds: seq<World>, ghost actions: seq<Action>, s: Store, user: UserKey, snapshot: nat)
    returns (r: Option<Bytes>)
    requires WorldRun(worlds, actions) && worlds[|actions|] == Up(s)
    requires SmallestSnapshot(s.db) <= snapshot
    ensures r == Answer(FirstOps(AckedOps(worlds, actions, |actions|), snapshot), user)
  {
    ghost var ops := AckedOps(worlds, actions, |actions|);
    AcknowledgedWritesSurvive(worlds, actions, |actions|);
    RunAcknowledgesOps(worlds, actions, |actions|);
    hide WorldRun, Newest, Answer, EntriesOf, Inv, LogsMatch, FilesMatch, LastMatches;
    ReadIsAnswer(ops, user, snapshot);
    r := Get(s.db, user, snapshot);
  }
}
