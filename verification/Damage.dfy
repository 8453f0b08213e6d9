/**
 * What the log reader still finds in a file with one damaged block (db/log_reader.cc): said
 * of the records written and of the bytes, not of the reader.
 */
module LogDamage {
  import opened Bytewise
  import opened Fixed
  import opened LogFormat
  import Logs

  // ---------------------------------------------------------------- reading on, step by step

  /** Records read and corruptions reported. */
  datatype Tally = Tally(records: seq<Bytes>, reports: nat)

  function Plus(a: Tally, b: Tally): Tally {
    Tally(a.records + b.records, a.reports + b.reports)
  }

  const NONE := Tally([], 0)

  lemma PlusNone(t: Tally)
    ensures Plus(NONE, t) == t
  {
  }

  lemma PlusThree(a: Tally, b: Tally, c: Tally)
    ensures Plus(a, Plus(b, c)) == Plus(Plus(a, b), c)
  {
  }

  /** All that is read from `pos` on, with a record perhaps open there. */
  function Rest(checksum: bool, f: Bytes, pos: nat, open: bool, scratch: Bytes): Tally {
    match Read(checksum, f, pos, open, scratch)
    case Over(reports) => Tally([], reports)
    case Got(record, next, reports) =>
      var more := ReadAll(checksum, f, next);
      Tally([record] + more.0, reports + more.1)
  }

  lemma RestIsAll(checksum: bool, f: Bytes, pos: nat)
    ensures var all := ReadAll(checksum, f, pos); Rest(checksum, f, pos, false, []) == Tally(all.0, all.1)
  {
    hide Read;
  }

  /** Nothing is collected of a record that is not open. */
  predicate Clean(open: bool, scratch: Bytes) {
    open || scratch == []
  }

  /** What reading on amounts to after one physical record. */
  function Next(checksum: bool, f: Bytes, a: Reaction, next: nat): Tally {
    match a
    case Return(record) => Plus(Tally([record], 0), Rest(checksum, f, next, false, []))
    case Stop => NONE
    case GoOn(open, scratch) => Rest(checksum, f, next, open, scratch)
  }

  lemma ResumeIsNext(checksum: bool, f: Bytes, pos: nat, open: bool, scratch: Bytes, a: Reaction, next: nat, n: nat)
    requires pos < next <= |f|
    requires Read(checksum, f, pos, open, scratch) == Reported(n, Resume(checksum, f, pos, a, next))
    ensures Rest(checksum, f, pos, open, scratch) == Plus(Tally([], n), Next(checksum, f, a, next))
  {
    match a
    case Return(record) =>
      RestIsAll(checksum, f, next);
      hide Read;
    case Stop =>
    case GoOn(_, _) =>
      hide Parse, React, Reports;
  }

  lemma RestUnfolds(checksum: bool, f: Bytes, pos: nat, open: bool, scratch: Bytes)
    ensures match Parse(checksum, f, pos)
      case End => Rest(checksum, f, pos, open, scratch) == NONE
      case Damaged(reported, next) =>
        Rest(checksum, f, pos, open, scratch) ==
          Plus(Tally([], (if reported then 1 else 0) + Reports(BAD, open, scratch)),
               Next(checksum, f, React(BAD, [], open, scratch), next))
      case Found(kind, payload, next) =>
        Rest(checksum, f, pos, open, scratch) ==
          Plus(Tally([], Reports(kind, open, scratch)), Next(checksum, f, React(kind, payload, open, scratch), next))
  {
    hide Parse, React, Reports, Resume, Next;
    match Parse(checksum, f, pos)
    case End =>
    case Damaged(reported, next) =>
      ResumeIsNext(checksum, f, pos, open, scratch, React(BAD, [], open, scratch), next,
                   (if reported then 1 else 0) + Reports(BAD, open, scratch));
    case Found(kind, payload, next) =>
      ResumeIsNext(checksum, f, pos, open, scratch, React(kind, payload, open, scratch), next,
                   Reports(kind, open, scratch));
  }

  /** Trailers are skipped. */
  lemma RestFromStart(checksum: bool, f: Bytes, pos: nat, open: bool, scratch: Bytes)
    ensures Rest(checksum, f, pos, open, scratch) == Rest(checksum, f, NextStart(pos), open, scratch)
  {
    hide Rest, Next, Parse, React, Reports;
    ParseFromStart(checksum, f, pos);
    RestUnfolds(checksum, f, pos, open, scratch);
    RestUnfolds(checksum, f, NextStart(pos), open, scratch);
  }

  /** Damage gives up an open record, and reading goes on behind it. */
  lemma RestDamaged(checksum: bool, f: Bytes, pos: nat, open: bool, scratch: Bytes, reported: bool, next: nat)
    requires Parse(checksum, f, pos) == Damaged(reported, next) && Clean(open, scratch)
    ensures Rest(checksum, f, pos, open, scratch) ==
      Plus(Tally([], (if reported then 1 else 0) + if open then 1 else 0), Rest(checksum, f, next, false, []))
  {
    hide Rest, Parse, React, Reports, Plus;
    RestUnfolds(checksum, f, pos, open, scratch);
    BadReaction(open, scratch);
  }

  lemma BadReaction(open: bool, scratch: Bytes)
    requires Clean(open, scratch)
    ensures React(BAD, [], open, scratch) == GoOn(false, [])
    ensures Reports(BAD, open, scratch) == if open then 1 else 0
  {
  }

  // ---------------------------------------------------------------- the bytes of a block

  /** The length that the header at `s` states. */
  function Stated(f: Bytes, s: nat): nat
    requires s + HEADER <= |f|
  {
    f[s + 4] as int + f[s + 5] as int * 0x100
  }

  /** A header at `s` and what it states fit before `end`. */
  predicate Room(f: Bytes, s: nat, end: nat)
    requires end <= |f|
  {
    s + HEADER <= end && s + HEADER + Stated(f, s) <= end
  }

  /** Type and length are zero, as in a preallocated file. */
  predicate Blank(f: Bytes, s: nat)
    requires s + HEADER <= |f|
  {
    f[s + 6] == 0 && Stated(f, s) == 0
  }

  /** The stored checksum is that of the type and the payload. */
  predicate Sealed(f: Bytes, s: nat)
    requires s + HEADER <= |f| && s + HEADER + Stated(f, s) <= |f|
  {
    Checksum(f[s + 6..s + HEADER + Stated(f, s)]) == Unmask(Decode32(f[s..s + 4]))
  }

  /** A fragment to be taken as it is. */
  predicate Sound(checksum: bool, f: Bytes, s: nat, end: nat)
    requires end <= |f|
  {
    Room(f, s, end) && !Blank(f, s) && (checksum ==> Sealed(f, s))
  }

  /** From `s` sound fragments lead to one with the type that stands for the end of the file. */
  predicate EofMark(checksum: bool, f: Bytes, s: nat, end: nat)
    requires end <= |f|
    decreases end - s
  {
    Sound(checksum, f, s, end) && (f[s + 6] == EOF || EofMark(checksum, f, s + HEADER + Stated(f, s), end))
  }

  /** From `s` sound fragments, none with that type, lead to `t`. */
  predicate Reaches(checksum: bool, f: Bytes, s: nat, t: nat, end: nat)
    requires end <= |f|
    decreases end - s
  {
    || s == t
    || (Sound(checksum, f, s, end) && f[s + 6] != EOF && Reaches(checksum, f, s + HEADER + Stated(f, s), t, end))
  }

  /** Position `s` is in the block that begins at `start`, or at its end. */
  predicate InBlock(start: nat, s: nat) {
    start % BLOCK == 0 && start <= s <= start + BLOCK
  }

  lemma BlockOf(start: nat, s: nat)
    requires InBlock(start, s) && s + HEADER <= start + BLOCK
    ensures NextStart(s) == s && BlockEnd(s) == start + BLOCK
  {
  }

  lemma AtBlockEnd(start: nat, s: nat)
    requires InBlock(start, s) && s + HEADER > start + BLOCK
    ensures NextStart(s) == start + BLOCK
  {
  }

  /** What lies at a place in a block, from its bytes. */
  lemma ParseAt(checksum: bool, f: Bytes, start: nat, s: nat)
    requires InBlock(start, s) && s + HEADER <= start + BLOCK
    ensures var end := Min(|f|, start + BLOCK);
      Parse(checksum, f, s) ==
        if s + HEADER > end then End
        else if !Room(f, s, end) then if end < start + BLOCK then End else Damaged(true, end)
        else if Blank(f, s) then Damaged(false, end)
        else if checksum && !Sealed(f, s) then Damaged(true, end)
        else Found(f[s + 6], f[s + HEADER..s + HEADER + Stated(f, s)], s + HEADER + Stated(f, s))
  {
    hide Checksum, Unmask, Decode32, NextStart, BlockEnd;
    BlockOf(start, s);
  }

  lemma ReactsCleanly(kind: Byte, payload: Bytes, open: bool, scratch: Bytes)
    requires Clean(open, scratch) && kind != EOF
    ensures !React(kind, payload, open, scratch).Stop?
    ensures var a := React(kind, payload, open, scratch); a.GoOn? ==> Clean(a.open, a.scratch)
  {
  }

  /** However a whole block is damaged, without the mark reading goes on at the next block. */
  lemma {:induction false} ScanBlock(checksum: bool, f: Bytes, start: nat, s: nat, open: bool, scratch: Bytes)
    returns (found: Tally, open': bool, scratch': Bytes)
    requires InBlock(start, s) && start + BLOCK <= |f| && Clean(open, scratch)
    requires !EofMark(checksum, f, s, start + BLOCK)
    ensures Clean(open', scratch')
    ensures Rest(checksum, f, s, open, scratch) == Plus(found, Rest(checksum, f, start + BLOCK, open', scratch'))
    decreases start + BLOCK - s
  {
    hide Rest, Parse, React, Reports, Sealed, Blank, Stated, NextStart;
    var end := start + BLOCK;
    if s + HEADER > end {
      AtBlockEnd(start, s);
      RestFromStart(checksum, f, s, open, scratch);
      found, open', scratch' := NONE, open, scratch;
      PlusNone(Rest(checksum, f, end, open, scratch));
    } else {
      ParseAt(checksum, f, start, s);
      if Sound(checksum, f, s, end) {
        found, open', scratch' := ScanOne(checksum, f, start, s, open, scratch);
      } else {
        var reported := !Room(f, s, end) || !Blank(f, s);
        RestDamaged(checksum, f, s, open, scratch, reported, end);
        found := Tally([], (if reported then 1 else 0) + if open then 1 else 0);
        open', scratch' := false, [];
      }
    }
  }

  lemma {:induction false} ScanOne(checksum: bool, f: Bytes, start: nat, s: nat, open: bool, scratch: Bytes)
    returns (found: Tally, open': bool, scratch': Bytes)
    requires InBlock(start, s) && start + BLOCK <= |f| && Clean(open, scratch)
    requires Sound(checksum, f, s, start + BLOCK) && !EofMark(checksum, f, s, start + BLOCK)
    ensures Clean(open', scratch')
    ensures Rest(checksum, f, s, open, scratch) == Plus(found, Rest(checksum, f, start + BLOCK, open', scratch'))
    decreases start + BLOCK - s, 0
  {
    hide Rest, Parse, React, Reports, Sealed, Blank, Stated, NextStart;
    var end, kind, next := start + BLOCK, f[s + 6], s + HEADER + Stated(f, s);
    var payload := f[s + HEADER..next];
    ParseAt(checksum, f, start, s);
    ReactsCleanly(kind, payload, open, scratch);
    RestUnfolds(checksum, f, s, open, scratch);
    var here := Tally([], Reports(kind, open, scratch));
    match React(kind, payload, open, scratch)
    case Return(record) =>
      found, open', scratch' := ScanBlock(checksum, f, start, next, false, []);
      var more := Rest(checksum, f, end, open', scratch');
      PlusThree(Tally([record], 0), found, more);
      PlusThree(here, Plus(Tally([record], 0), found), more);
      found := Plus(here, Plus(Tally([record], 0), found));
    case GoOn(o, sc) =>
      found, open', scratch' := ScanBlock(checksum, f, start, next, o, sc);
      PlusThree(here, found, Rest(checksum, f, end, open', scratch'));
      found := Plus(here, found);
  }

  /** With the mark, what follows the block is never looked at. */
  lemma {:induction false} MarkStops(checksum: bool, f: Bytes, g: Bytes, start: nat, s: nat, open: bool, scratch: Bytes)
    requires InBlock(start, s) && start + BLOCK <= |f| && start + BLOCK <= |g|
    requires f[..start + BLOCK] == g[..start + BLOCK]
    requires Clean(open, scratch) && EofMark(checksum, f, s, start + BLOCK)
    ensures Rest(checksum, f, s, open, scratch) == Rest(checksum, g, s, open, scratch)
    decreases start + BLOCK - s
  {
    hide Rest, Parse, React, Reports, NextStart, Checksum, Unmask, Decode32;
    var end, kind, next := start + BLOCK, f[s + 6], s + HEADER + Stated(f, s);
    var payload := f[s + HEADER..next];
    SameBytes(f, g, end, s, checksum);
    ParseAt(checksum, f, start, s);
    ParseAt(checksum, g, start, s);
    RestUnfolds(checksum, f, s, open, scratch);
    RestUnfolds(checksum, g, s, open, scratch);
    if kind == EOF {
      EofReaction(payload, open, scratch);
    } else {
      ReactsCleanly(kind, payload, open, scratch);
      match React(kind, payload, open, scratch)
      case Return(record) => MarkStops(checksum, f, g, start, next, false, []);
      case GoOn(o, sc) => MarkStops(checksum, f, g, start, next, o, sc);
    }
  }

  lemma EofReaction(payload: Bytes, open: bool, scratch: Bytes)
    ensures React(EOF, payload, open, scratch) == Stop
  {
  }

  lemma SameBytes(f: Bytes, g: Bytes, end: nat, s: nat, checksum: bool)
    requires end <= |f| && end <= |g| && f[..end] == g[..end] && Sound(checksum, f, s, end)
    ensures Stated(g, s) == Stated(f, s) && g[s + 6] == f[s + 6] && Sound(checksum, g, s, end)
    ensures g[s + HEADER..s + HEADER + Stated(f, s)] == f[s + HEADER..s + HEADER + Stated(f, s)]
  {
    hide Checksum, Unmask, Decode32;
    assert forall i :: 0 <= i < end ==> f[i] == f[..end][i] == g[i];
    var next := s + HEADER + Stated(f, s);
    assert f[s + 6..next] == g[s + 6..next] && f[s..s + 4] == g[s..s + 4];
  }

  /** A fragment with a wrong checksum, if reading gets to it, is reported. */
  lemma {:induction false} WrongIsReported(
    checksum: bool, f: Bytes, start: nat, s: nat, t: nat, open: bool, scratch: Bytes)
    requires InBlock(start, s) && InBlock(start, t) && Clean(open, scratch)
    requires var end := Min(|f|, start + BLOCK); start <= end && Reaches(checksum, f, s, t, end)
    requires var end := Min(|f|, start + BLOCK); checksum && Room(f, t, end) && !Blank(f, t) && !Sealed(f, t)
    ensures Rest(checksum, f, s, open, scratch).reports > 0
    decreases start + BLOCK - s
  {
    hide Rest, Parse, React, Reports, NextStart, Checksum, Unmask, Decode32, Sealed;
    var end := Min(|f|, start + BLOCK);
    ParseAt(checksum, f, start, s);
    if s == t {
      RestDamaged(checksum, f, s, open, scratch, true, end);
    } else {
      var kind, next := f[s + 6], s + HEADER + Stated(f, s);
      var payload := f[s + HEADER..next];
      RestUnfolds(checksum, f, s, open, scratch);
      ReactsCleanly(kind, payload, open, scratch);
      match React(kind, payload, open, scratch)
      case Return(record) => WrongIsReported(checksum, f, start, next, t, false, []);
      case GoOn(o, sc) => WrongIsReported(checksum, f, start, next, t, o, sc);
    }
  }

  // ---------------------------------------------------------------- up to the block

  /** Where record `i` begins in the log. */
  function StartOf(records: seq<Bytes>, i: nat): nat
    requires i <= |records|
  {
    |Log(records[..i])|
  }

  lemma StartNext(records: seq<Bytes>, i: nat)
    requires i < |records|
    ensures StartOf(records, i + 1) == StartOf(records, i) + |Record(StartOf(records, i), records[i], true)|
  {
    hide Record;
    assert records[..i + 1][..i] == records[..i];
  }

  lemma {:induction false} StartsAscend(records: seq<Bytes>, i: nat, j: nat)
    requires i <= j <= |records|
    ensures StartOf(records, i) <= StartOf(records, j)
  {
    assert records[..j][..i] == records[..i];
    LogPrefix(records[..j], i);
  }

  lemma StartOfAll(records: seq<Bytes>)
    ensures StartOf(records, |records|) == |Log(records)| && StartOf(records, 0) == 0
  {
    assert records[..|records|] == records;
  }

  /** The file has the bytes of the log from `from` up to `to`. */
  predicate Intact(f: Bytes, records: seq<Bytes>, from: nat, to: nat) {
    from <= to <= |f| == |Log(records)| && f[from..to] == Log(records)[from..to]
  }

  lemma IntactPart(f: Bytes, records: seq<Bytes>, from: nat, to: nat, a: nat, b: nat)
    requires Intact(f, records, from, to) && from <= a <= b <= to
    ensures Intact(f, records, a, b)
  {
    hide Log;
    SlicePart(f, from, to, a, b);
    SlicePart(Log(records), from, to, a, b);
  }

  lemma SlicePart(b: Bytes, from: nat, to: nat, i: nat, j: nat)
    requires from <= i <= j <= to <= |b|
    ensures b[i..j] == b[from..to][i - from..j - from]
  {
    var part := b[from..to][i - from..j - from];
    assert |part| == j - i && forall k :: 0 <= k < |part| ==> part[k] == b[i..j][k];
  }

  /** Record `i` as the log has it. */
  lemma RecordInLog(records: seq<Bytes>, i: nat)
    requires i < |records|
    ensures StartOf(records, i) <= StartOf(records, i + 1) <= |Log(records)|
    ensures Log(records)[StartOf(records, i)..StartOf(records, i + 1)] == Record(StartOf(records, i), records[i], true)
  {
    hide Record, Log, HoldsAt;
    StartsAscend(records, i, |records|);
    StartOfAll(records);
    TruncatedHolds(records, |Log(records)|, i);
    StartsAscend(records, i + 1, |records|);
    assert Log(records)[..|Log(records)|] == Log(records);
    HoldsIs(Log(records), StartOf(records, i), Record(StartOf(records, i), records[i], true));
  }

  lemma HoldsIs(f: Bytes, pos: nat, b: Bytes)
    requires pos + |b| <= |f|
    ensures HoldsAt(f, pos, b) <==> f[pos..pos + |b|] == b
  {
  }

  /** An intact record is read, whatever comes after it. */
  lemma IntactIsRead(checksum: bool, f: Bytes, records: seq<Bytes>, i: nat)
    requires i < |records| && StartOf(records, i) <= StartOf(records, i + 1)
    requires Intact(f, records, StartOf(records, i), StartOf(records, i + 1))
    ensures Rest(checksum, f, StartOf(records, i), false, []) ==
      Plus(Tally([records[i]], 0), Rest(checksum, f, StartOf(records, i + 1), false, []))
  {
    hide Record, Log, HoldsAt, Read, ReadAll, StartOf;
    var pos := StartOf(records, i);
    StartNext(records, i);
    RecordInLog(records, i);
    HoldsIs(f, pos, Record(pos, records[i], true));
    ReadWritten(checksum, f, pos, records[i], true, []);
    assert [] + records[i] == records[i];
    RestIsAll(checksum, f, StartOf(records, i + 1));
  }

  /** The records of an intact stretch are read, and nothing is reported. */
  lemma {:induction false} IntactAreRead(checksum: bool, f: Bytes, records: seq<Bytes>, i: nat, j: nat)
    requires i <= j <= |records| && StartOf(records, i) <= StartOf(records, j)
    requires Intact(f, records, StartOf(records, i), StartOf(records, j))
    ensures Rest(checksum, f, StartOf(records, i), false, []) ==
      Plus(Tally(records[i..j], 0), Rest(checksum, f, StartOf(records, j), false, []))
    decreases j - i
  {
    hide Rest, StartOf, Intact;
    if i == j {
      PlusNone(Rest(checksum, f, StartOf(records, j), false, []));
      assert records[i..j] == [];
    } else {
      StartsAscend(records, i, i + 1);
      StartsAscend(records, i + 1, j);
      IntactPart(f, records, StartOf(records, i), StartOf(records, j), StartOf(records, i), StartOf(records, i + 1));
      IntactPart(f, records, StartOf(records, i), StartOf(records, j), StartOf(records, i + 1), StartOf(records, j));
      IntactIsRead(checksum, f, records, i);
      IntactAreRead(checksum, f, records, i + 1, j);
      PlusThree(Tally([records[i]], 0), Tally(records[i + 1..j], 0), Rest(checksum, f, StartOf(records, j), false, []));
      assert records[i..j] == [records[i]] + records[i + 1..j];
    }
  }

  lemma AtEnd(checksum: bool, f: Bytes, open: bool, scratch: Bytes)
    ensures Rest(checksum, f, |f|, open, scratch) == NONE
  {
  }

  // A record that goes on past a block boundary ------------------------

  /** Record `i` has a fragment on either side of `x`. */
  predicate Straddles(records: seq<Bytes>, i: nat, x: nat)
    requires i < |records|
  {
    NextStart(StartOf(records, i)) < x < StartOf(records, i + 1)
  }

  /** A record begun at `pos` goes on beyond `x`, where a block begins. */
  predicate Spans(pos: nat, data: Bytes, begin: bool, x: nat) {
    x % BLOCK == 0 && NextStart(pos) < x < pos + |Record(pos, data, begin)|
  }

  /** Up to a block boundary inside it, a record has full fragments only. */
  lemma FragmentBefore(pos: nat, data: Bytes, begin: bool, x: nat)
    requires Spans(pos, data, begin, x)
    ensures Fits(pos, data) < |data|
    ensures pos + |Fragment(pos, data, begin)| <= x && (pos + |Fragment(pos, data, begin)|) % BLOCK == 0
    ensures pos < pos + |Fragment(pos, data, begin)|
  {
    hide Fragment, Record;
    InOneBlock(pos, data, begin, x);
    if Fits(pos, data) == |data| {
      LastFragment(pos, data, begin);
    } else {
      FragmentFills(pos, data, begin);
    }
  }

  lemma LastFragment(pos: nat, data: Bytes, begin: bool)
    requires Fits(pos, data) == |data|
    ensures Record(pos, data, begin) == Fragment(pos, data, begin)
  {
  }

  lemma InOneBlock(pos: nat, data: Bytes, begin: bool, x: nat)
    requires x % BLOCK == 0 && NextStart(pos) < x
    ensures pos < pos + |Fragment(pos, data, begin)| <= x
  {
    hide Fragment, Emit;
    BoundaryAfter(NextStart(pos), x);
  }

  lemma BoundaryAfter(s: nat, x: nat)
    requires x % BLOCK == 0 && s < x
    ensures s - s % BLOCK + BLOCK <= x
  {
    assert s / BLOCK < x / BLOCK;
    assert s == s / BLOCK * BLOCK + s % BLOCK && x == x / BLOCK * BLOCK;
  }

  /** The part of the record's data that its fragments before `x` hold, on top of `scratch`. */
  function Carried(pos: nat, data: Bytes, begin: bool, x: nat, scratch: Bytes): Bytes
    requires Spans(pos, data, begin, x)
    decreases x - pos
  {
    hide Fragment, NextStart, Fits, Record, Spans;
    FragmentBefore(pos, data, begin, x);
    var next, n := pos + |Fragment(pos, data, begin)|, Fits(pos, data);
    var more := (if begin then [] else scratch) + data[..n];
    if next == x then more
    else
      GoesOn(pos, data, begin, x);
      Carried(next, data[n..], false, x, more)
  }

  lemma GoesOn(pos: nat, data: Bytes, begin: bool, x: nat)
    requires Spans(pos, data, begin, x)
    requires Fits(pos, data) < |data| && pos + |Fragment(pos, data, begin)| < x
    requires (pos + |Fragment(pos, data, begin)|) % BLOCK == 0
    ensures var next := pos + |Fragment(pos, data, begin)|;
      && NextStart(next) == next
      && pos + |Record(pos, data, begin)| == next + |Record(next, data[Fits(pos, data)..], false)|
      && Spans(next, data[Fits(pos, data)..], false, x)
  {
    hide Fragment;
  }

  /** A file that holds a record up to `x` is read up to `x`, with that part of the data collected. */
  lemma {:induction false} EnterRecord(
    checksum: bool, f: Bytes, pos: nat, data: Bytes, begin: bool, x: nat, open: bool, scratch: Bytes)
    requires Spans(pos, data, begin, x) && pos <= x <= |f|
    requires f[pos..x] == Record(pos, data, begin)[..x - pos]
    requires open == !begin && Clean(open, scratch)
    ensures Rest(checksum, f, pos, open, scratch) == Rest(checksum, f, x, true, Carried(pos, data, begin, x, scratch))
    decreases x - pos
  {
    hide Rest, Parse, Fragment, NextStart, Fits, Record, HoldsAt, React, Reports, Kind;
    FragmentBefore(pos, data, begin, x);
    var b, n := Fragment(pos, data, begin), Fits(pos, data);
    var next, more := pos + |b|, (if begin then [] else scratch) + data[..n];
    RecordSplits(pos, data, begin);
    FirstPart(f, pos, x, b, Record(next, data[n..], false));
    HoldsIs(f, pos, b);
    ParseFragment(checksum, f, pos, data, begin);
    RestUnfolds(checksum, f, pos, open, scratch);
    CollectsMore(begin, data[..n], scratch);
    PlusNone(Rest(checksum, f, next, true, more));
    if next < x {
      GoesOn(pos, data, begin, x);
      EnterRecord(checksum, f, next, data[n..], false, x, true, more);
    }
  }

  /** A fragment that is not the last is collected, and nothing is reported. */
  lemma CollectsMore(begin: bool, payload: Bytes, scratch: Bytes)
    requires begin ==> scratch == []
    ensures React(Kind(begin, false), payload, !begin, scratch) == GoOn(true, (if begin then [] else scratch) + payload)
    ensures Reports(Kind(begin, false), !begin, scratch) == 0
  {
    assert [] + payload == payload;
  }

  lemma RecordSplits(pos: nat, data: Bytes, begin: bool)
    requires Fits(pos, data) < |data|
    ensures var b := Fragment(pos, data, begin);
      Record(pos, data, begin) == b + Record(pos + |b|, data[Fits(pos, data)..], false)
  {
    hide Fragment, Fits;
  }

  lemma FirstPart(f: Bytes, pos: nat, x: nat, b: Bytes, c: Bytes)
    requires pos + |b| <= x <= |f| && x - pos <= |b + c| && f[pos..x] == (b + c)[..x - pos]
    ensures f[pos..pos + |b|] == b && f[pos + |b|..x] == c[..x - pos - |b|]
  {
    SlicePart(f, pos, x, pos, pos + |b|);
    SlicePart(f, pos, x, pos + |b|, x);
    assert (b + c)[..x - pos][..|b|] == b;
    assert (b + c)[..x - pos][|b|..] == c[..x - pos - |b|];
  }

  /** A record is open at `x`. */
  predicate Crossed(records: seq<Bytes>, x: nat) {
    exists i :: 0 <= i < |records| && Straddles(records, i, x)
  }

  /** It is the first that does not end before `x`. */
  lemma CrossedAt(records: seq<Bytes>, x: nat)
    ensures var i := Complete(records, x);
      && i <= |records| && StartOf(records, i) <= x && (i < |records| ==> x < StartOf(records, i + 1))
      && (Crossed(records, x) <==> i < |records| && Straddles(records, i, x))
  {
    hide Log, Complete, NextStart;
    var k := Complete(records, x);
    if i :| 0 <= i < |records| && Straddles(records, i, x) {
      if i < k {
        StartsAscend(records, i + 1, k);
      } else if k < i {
        StartsAscend(records, k + 1, i);
      }
    }
  }

  /** What is collected of the record that is open at `x`. */
  function CarriedTo(records: seq<Bytes>, x: nat): Bytes
    requires x % BLOCK == 0
  {
    CrossedAt(records, x);
    if !Crossed(records, x) then []
    else
      var i := Complete(records, x);
      StartNext(records, i);
      Carried(StartOf(records, i), records[i], true, x, [])
  }

  /** A file that is intact up to a block is read up to it: the records before it, and perhaps one is open. */
  lemma EnterBlock(checksum: bool, f: Bytes, records: seq<Bytes>, x: nat)
    requires x % BLOCK == 0 && Intact(f, records, 0, x) && x < |f|
    ensures Rest(checksum, f, 0, false, []) ==
      Plus(Tally(records[..Complete(records, x)], 0),
           Rest(checksum, f, x, Crossed(records, x), CarriedTo(records, x)))
  {
    hide Rest, Complete, Log, NextStart, Intact, Crossed;
    var i := Complete(records, x);
    CrossedAt(records, x);
    StartOfAll(records);
    IntactSize(f, records, 0, x);
    IntactPart(f, records, 0, x, 0, StartOf(records, i));
    IntactAreRead(checksum, f, records, 0, i);
    assert records[0..i] == records[..i];
    var pos := StartOf(records, i);
    if Crossed(records, x) {
      StartNext(records, i);
      RecordInLog(records, i);
      IntactPart(f, records, 0, x, pos, x);
      IntactPrefix(f, records, pos, x, StartOf(records, i + 1));
      EnterRecord(checksum, f, pos, records[i], true, x, false, []);
    } else {
      BoundaryStart(pos, x);
      RestFromStart(checksum, f, pos, false, []);
    }
  }

  lemma IntactSize(f: Bytes, records: seq<Bytes>, from: nat, to: nat)
    requires Intact(f, records, from, to)
    ensures from <= to <= |f| == |Log(records)|
  {
  }

  lemma IntactPrefix(f: Bytes, records: seq<Bytes>, pos: nat, x: nat, end: nat)
    requires Intact(f, records, pos, x) && x <= end <= |Log(records)|
    ensures f[pos..x] == Log(records)[pos..end][..x - pos]
  {
    hide Log;
    SlicePart(Log(records), pos, end, pos, x);
  }

  lemma BoundaryStart(pos: nat, x: nat)
    requires pos <= x && x % BLOCK == 0 && NextStart(pos) >= x
    ensures NextStart(pos) == x
  {
    if pos < x {
      BoundaryAfter(pos, x);
    }
  }

  // ---------------------------------------------------------------- from the block on

  /** The part of the record's data that its fragments from `x` on hold. */
  function Remaining(pos: nat, data: Bytes, begin: bool, x: nat): Bytes
    requires Spans(pos, data, begin, x)
    decreases x - pos
  {
    hide Fragment, NextStart, Fits, Record, Spans;
    FragmentBefore(pos, data, begin, x);
    var next, n := pos + |Fragment(pos, data, begin)|, Fits(pos, data);
    if next == x then data[n..]
    else
      GoesOn(pos, data, begin, x);
      Remaining(next, data[n..], false, x)
  }

  lemma {:induction false} RecordFrom(pos: nat, data: Bytes, begin: bool, x: nat)
    requires Spans(pos, data, begin, x) && pos <= x
    ensures Record(pos, data, begin)[x - pos..] == Record(x, Remaining(pos, data, begin, x), false)
    decreases x - pos
  {
    hide Fragment, Fits, NextStart;
    FragmentBefore(pos, data, begin, x);
    var b, n := Fragment(pos, data, begin), Fits(pos, data);
    RecordSplits(pos, data, begin);
    hide Record;
    var next := pos + |b|;
    assert Record(pos, data, begin)[x - pos..] == Record(next, data[n..], false)[x - next..];
    if next < x {
      GoesOn(pos, data, begin, x);
      RecordFrom(next, data[n..], false, x);
    } else {
      assert Record(next, data[n..], false)[0..] == Record(next, data[n..], false);
    }
  }

  /** The rest of a record whose beginning was lost is reported, and nothing of it returned. */
  lemma {:induction false} ReadOrphan(checksum: bool, f: Bytes, pos: nat, data: Bytes) returns (n: nat)
    requires HoldsAt(f, pos, Record(pos, data, false)) && pos + |Record(pos, data, false)| <= |f|
    ensures n > 0
    ensures Rest(checksum, f, pos, false, []) ==
      Plus(Tally([], n), Rest(checksum, f, pos + |Record(pos, data, false)|, false, []))
    decreases |data|, Crowded(pos)
  {
    hide Rest, Parse, Fragment, NextStart, Fits, HoldsAt;
    var b, k := Fragment(pos, data, false), Fits(pos, data);
    if k == |data| {
      ParseFragment(checksum, f, pos, data, false);
      RestUnfolds(checksum, f, pos, false, []);
      n := 1;
    } else {
      FragmentFills(pos, data, false);
      HoldsParts(f, pos, b, Record(pos + |b|, data[k..], false));
      ParseFragment(checksum, f, pos, data, false);
      RestUnfolds(checksum, f, pos, false, []);
      n := ReadOrphan(checksum, f, pos + |b|, data[k..]);
      PlusThree(Tally([], 1), Tally([], n), Rest(checksum, f, pos + |Record(pos, data, false)|, false, []));
      n := n + 1;
    }
  }

  /** With something collected before it, it is joined to that. */
  lemma ReadJoined(checksum: bool, f: Bytes, pos: nat, data: Bytes, scratch: Bytes)
    requires HoldsAt(f, pos, Record(pos, data, false)) && pos + |Record(pos, data, false)| <= |f|
    ensures Rest(checksum, f, pos, true, scratch) ==
      Plus(Tally([scratch + data], 0), Rest(checksum, f, pos + |Record(pos, data, false)|, false, []))
  {
    hide Read, ReadAll, HoldsAt, Record;
    ReadWritten(checksum, f, pos, data, false, scratch);
    RestIsAll(checksum, f, pos + |Record(pos, data, false)|);
  }

  /** The beginning of a record ends whatever was open. */
  lemma ReadOver(checksum: bool, f: Bytes, pos: nat, data: Bytes, open: bool, scratch: Bytes)
    requires HoldsAt(f, pos, Record(pos, data, true)) && pos + |Record(pos, data, true)| <= |f|
    ensures Rest(checksum, f, pos, open, scratch) ==
      Plus(Tally([], if open && scratch != [] then 1 else 0), Rest(checksum, f, pos, false, []))
  {
    hide Rest, Parse, Fragment, NextStart, Fits, HoldsAt;
    FirstHolds(f, pos, data);
    ParseFragment(checksum, f, pos, data, true);
    RestUnfolds(checksum, f, pos, open, scratch);
    RestUnfolds(checksum, f, pos, false, []);
  }

  lemma FirstHolds(f: Bytes, pos: nat, data: Bytes)
    requires HoldsAt(f, pos, Record(pos, data, true)) && pos + |Record(pos, data, true)| <= |f|
    ensures HoldsAt(f, pos, Fragment(pos, data, true)) && pos + |Fragment(pos, data, true)| <= |f|
  {
    hide Fragment, Fits, HoldsAt;
    if Fits(pos, data) < |data| {
      RecordSplits(pos, data, true);
      var b := Fragment(pos, data, true);
      HoldsParts(f, pos, b, Record(pos + |b|, data[Fits(pos, data)..], false));
    }
  }

  /** The first record that begins at `x` or later. */
  function After(records: seq<Bytes>, x: nat): (i: nat)
    ensures i <= |records|
  {
    if Crossed(records, x) && Complete(records, x) < |records| then Complete(records, x) + 1 else Complete(records, x)
  }

  /** A file that is intact from a block boundary on is read from there: all records that begin there or later. */
  lemma LeaveBlock(checksum: bool, f: Bytes, records: seq<Bytes>, x: nat, open: bool, scratch: Bytes)
    returns (found: Tally)
    requires x % BLOCK == 0 && Intact(f, records, x, |f|) && Clean(open, scratch)
    ensures Rest(checksum, f, x, open, scratch) == Plus(found, Tally(records[After(records, x)..], 0))
    ensures !open ==> found.records == [] && (found.reports > 0 <==> Crossed(records, x))
  {
    hide Rest, Complete, Log, NextStart, Intact, Crossed, HoldsAt, Record, StartOf;
    var i := Complete(records, x);
    CrossedAt(records, x);
    StartOfAll(records);
    IntactSize(f, records, x, |f|);
    if Crossed(records, x) {
      found := LeaveRecord(checksum, f, records, x, open, scratch);
    } else if i == |records| {
      AtEnd(checksum, f, open, scratch);
      LastIsEnd(records, x, |f|);
      found := NONE;
      assert records[i..] == [];
      PlusNone(NONE);
    } else {
      found := LeaveAtStart(checksum, f, records, x, open, scratch);
    }
  }

  lemma LastIsEnd(records: seq<Bytes>, x: nat, size: nat)
    requires Complete(records, x) == |records| && size == |Log(records)| && x <= size
    ensures x == size
  {
    assert records[..|records|] == records;
  }

  /** From record `i` on, all is read. */
  lemma TailIsRead(checksum: bool, f: Bytes, records: seq<Bytes>, x: nat, i: nat)
    requires i <= |records| && x <= StartOf(records, i) && Intact(f, records, x, |f|)
    ensures Rest(checksum, f, StartOf(records, i), false, []) == Tally(records[i..], 0)
  {
    hide Rest, Log, Intact, StartOf;
    StartsAscend(records, i, |records|);
    StartOfAll(records);
    IntactSize(f, records, x, |f|);
    IntactPart(f, records, x, |f|, StartOf(records, i), |f|);
    IntactAreRead(checksum, f, records, i, |records|);
    AtEnd(checksum, f, false, []);
    assert records[i..|records|] == records[i..];
    assert Plus(Tally(records[i..], 0), NONE) == Tally(records[i..], 0);
  }

  /** What the file has of record `i` from `x` on. */
  lemma PieceHolds(f: Bytes, records: seq<Bytes>, x: nat, i: nat, piece: Bytes)
    requires i < |records| && StartOf(records, i) <= x < StartOf(records, i + 1) && Intact(f, records, x, |f|)
    requires StartOf(records, i + 1) == StartOf(records, i) + |Record(StartOf(records, i), records[i], true)|
    requires Record(StartOf(records, i), records[i], true)[x - StartOf(records, i)..] == piece
    ensures x + |piece| == StartOf(records, i + 1) <= |f| && HoldsAt(f, x, piece)
  {
    hide Log, Intact, StartOf, Record, HoldsAt;
    var pos, end := StartOf(records, i), StartOf(records, i + 1);
    IntactSize(f, records, x, |f|);
    RecordInLog(records, i);
    IntactPart(f, records, x, |f|, x, end);
    IntactIs(f, records, x, end);
    SlicePart(Log(records), pos, end, x, end);
    HoldsIs(f, x, piece);
  }

  lemma IntactIs(f: Bytes, records: seq<Bytes>, from: nat, to: nat)
    requires Intact(f, records, from, to)
    ensures from <= to <= |f| == |Log(records)| && f[from..to] == Log(records)[from..to]
  {
  }

  lemma ShiftedFragment(pos: nat, data: Bytes, begin: bool)
    ensures var x, b, c := NextStart(pos), Fragment(pos, data, begin), Fragment(NextStart(pos), data, begin);
      Fits(x, data) == Fits(pos, data) && pos + |b| == x + |c| && b[x - pos..] == c
  {
    hide Emit, NextStart;
    StartTwice(pos);
    assert Zeros(0) == [];
  }

  /** A trailer, and the record after it. */
  lemma ShiftedRecord(pos: nat, data: Bytes, begin: bool)
    ensures |Record(pos, data, begin)| >= NextStart(pos) - pos
    ensures Record(pos, data, begin)[NextStart(pos) - pos..] == Record(NextStart(pos), data, begin)
  {
    hide Record, Fragment, NextStart, Fits;
    var x, n := NextStart(pos), Fits(pos, data);
    ShiftedFragment(pos, data, begin);
    if n < |data| {
      RecordSplits(pos, data, begin);
      RecordSplits(x, data, begin);
      var b := Fragment(pos, data, begin);
      DropFirst(b, Record(pos + |b|, data[n..], false), x - pos);
    } else {
      LastFragment(pos, data, begin);
      LastFragment(x, data, begin);
    }
  }

  lemma DropFirst(b: Bytes, c: Bytes, n: nat)
    requires n <= |b|
    ensures (b + c)[n..] == b[n..] + c
  {
  }

  lemma LeaveAtStart(checksum: bool, f: Bytes, records: seq<Bytes>, x: nat, open: bool, scratch: Bytes)
    returns (found: Tally)
    requires x % BLOCK == 0 && Intact(f, records, x, |f|) && Clean(open, scratch)
    requires Complete(records, x) < |records| && !Crossed(records, x)
    ensures Rest(checksum, f, x, open, scratch) == Plus(found, Tally(records[Complete(records, x)..], 0))
    ensures !open ==> found == NONE
  {
    hide Rest, Complete, Log, Intact, HoldsAt, Record, Crossed, StartOf, NextStart;
    var i := Complete(records, x);
    CrossedAt(records, x);
    var pos, data := StartOf(records, i), records[i];
    BoundaryStart(pos, x);
    StartNext(records, i);
    ShiftedRecord(pos, data, true);
    PieceHolds(f, records, x, i, Record(x, data, true));
    ReadOver(checksum, f, x, data, open, scratch);
    ReadHere(checksum, f, x, data);
    TailIsRead(checksum, f, records, x, i + 1);
    found := Tally([], if open && scratch != [] then 1 else 0);
    assert records[i..] == [data] + records[i + 1..];
  }

  lemma ReadHere(checksum: bool, f: Bytes, pos: nat, data: Bytes)
    requires HoldsAt(f, pos, Record(pos, data, true)) && pos + |Record(pos, data, true)| <= |f|
    ensures Rest(checksum, f, pos, false, []) ==
      Plus(Tally([data], 0), Rest(checksum, f, pos + |Record(pos, data, true)|, false, []))
  {
    hide Read, ReadAll, HoldsAt, Record;
    ReadWritten(checksum, f, pos, data, true, []);
    assert [] + data == data;
    RestIsAll(checksum, f, pos + |Record(pos, data, true)|);
  }

  lemma LeaveRecord(checksum: bool, f: Bytes, records: seq<Bytes>, x: nat, open: bool, scratch: Bytes)
    returns (found: Tally)
    requires x % BLOCK == 0 && Intact(f, records, x, |f|) && Clean(open, scratch)
    requires Complete(records, x) < |records| && Straddles(records, Complete(records, x), x)
    ensures Rest(checksum, f, x, open, scratch) == Plus(found, Tally(records[Complete(records, x) + 1..], 0))
    ensures !open ==> found.records == [] && found.reports > 0
  {
    hide Rest, Complete, Log, Intact, HoldsAt, Record, StartOf, NextStart;
    var i := Complete(records, x);
    CrossedAt(records, x);
    var pos, data := StartOf(records, i), records[i];
    StartNext(records, i);
    var left := Remaining(pos, data, true, x);
    RecordFrom(pos, data, true, x);
    PieceHolds(f, records, x, i, Record(x, left, false));
    TailIsRead(checksum, f, records, x, i + 1);
    if open {
      ReadJoined(checksum, f, x, left, scratch);
      found := Tally([scratch + left], 0);
    } else {
      var n := ReadOrphan(checksum, f, x, left);
      found := Tally([], n);
    }
  }

  // ---------------------------------------------------------------- one damaged block

  /** The file is the log but for the bytes from `from` up to `to`. */
  predicate AlikeOutside(f: Bytes, log: Bytes, from: nat, to: nat) {
    |f| == |log| && forall i :: 0 <= i < |f| && !(from <= i < to) ==> f[i] == log[i]
  }

  lemma IntactOutside(f: Bytes, records: seq<Bytes>, from: nat, to: nat)
    requires AlikeOutside(f, Log(records), from, to) && from <= |f|
    ensures Intact(f, records, 0, from)
    ensures to <= |f| ==> Intact(f, records, to, |f|)
  {
    hide Log;
  }

  lemma BeforeIsComplete(records: seq<Bytes>, i: nat, x: nat)
    requires i <= |records| && StartOf(records, i) <= x
    ensures i <= Complete(records, x)
  {
    hide Log, Complete, NextStart, StartOf;
    CrossedAt(records, x);
    if Complete(records, x) < i {
      StartsAscend(records, Complete(records, x) + 1, i);
    }
  }

  lemma RecordLong(pos: nat, data: Bytes, begin: bool)
    ensures pos + |Record(pos, data, begin)| > NextStart(pos)
  {
    hide Fragment, Emit, NextStart;
  }

  lemma LaterIsAfter(records: seq<Bytes>, j: nat, x: nat)
    requires j < |records| && NextStart(StartOf(records, j)) >= x
    ensures After(records, x) <= j && x < |Log(records)|
  {
    hide Log, Complete, NextStart, StartOf, Crossed, Record;
    var k := Complete(records, x);
    CrossedAt(records, x);
    StartNext(records, j);
    RecordLong(StartOf(records, j), records[j], true);
    StartsAscend(records, j + 1, |records|);
    StartOfAll(records);
    if j < k {
      StartsAscend(records, j + 1, k);
    }
  }

  /** All that is read, block damaged: before it, in it, after it. */
  lemma ThroughBlock(checksum: bool, f: Bytes, records: seq<Bytes>, start: nat) returns (mid: Tally)
    requires start % BLOCK == 0 && start + BLOCK <= |f| && AlikeOutside(f, Log(records), start, start + BLOCK)
    requires !EofMark(checksum, f, start, start + BLOCK)
    ensures Rest(checksum, f, 0, false, []) ==
      Plus(Tally(records[..Complete(records, start)], 0),
           Plus(mid, Tally(records[After(records, start + BLOCK)..], 0)))
  {
    hide Rest, Complete, Log, Intact, Crossed, EofMark, AlikeOutside, CarriedTo, After;
    IntactOutside(f, records, start, start + BLOCK);
    EnterBlock(checksum, f, records, start);
    CarriedClean(records, start);
    var inside, open, scratch :=
      ScanBlock(checksum, f, start, start, Crossed(records, start), CarriedTo(records, start));
    var found := LeaveBlock(checksum, f, records, start + BLOCK, open, scratch);
    PlusThree(inside, found, Tally(records[After(records, start + BLOCK)..], 0));
    mid := Plus(inside, found);
  }

  lemma CarriedClean(records: seq<Bytes>, x: nat)
    requires x % BLOCK == 0
    ensures Clean(Crossed(records, x), CarriedTo(records, x))
  {
    hide Crossed, Carried, Straddles;
  }

  /**
   * Whatever one block was turned into, every record with no fragment in it is returned, in
   * order: those that end before it and those whose first fragment comes after it. The one
   * exception is a fragment, sound by its checksum, whose type is the reader's own mark for
   * the end of the file.
   */
  lemma RecordsOutsideDamageSurvive(checksum: bool, f: Bytes, records: seq<Bytes>, start: nat, i: nat, j: nat)
    returns (mid: seq<Bytes>)
    requires start % BLOCK == 0 && start < |f| && AlikeOutside(f, Log(records), start, start + BLOCK)
    requires i <= |records| && StartOf(records, i) <= start
    requires j <= |records| && (j < |records| ==> NextStart(StartOf(records, j)) >= start + BLOCK)
    requires !EofMark(checksum, f, start, Min(|f|, start + BLOCK))
    ensures ReadAll(checksum, f, 0).0 == records[..i] + mid + records[j..]
  {
    hide Rest, Complete, Log, EofMark, AlikeOutside, After, NextStart, StartOf, ReadAll, Intact, Crossed, CarriedTo;
    var k := Complete(records, start);
    RestIsAll(checksum, f, 0);
    BeforeIsComplete(records, i, start);
    assert records[..k] == records[..i] + records[i..k];
    if start + BLOCK <= |f| {
      var inside := ThroughBlock(checksum, f, records, start);
      var a := After(records, start + BLOCK);
      SuffixOf(records, j, start + BLOCK);
      assert records[a..] == records[a..j] + records[j..];
      mid := records[i..k] + inside.records + records[a..j];
    } else {
      IntactOutside(f, records, start, start + BLOCK);
      IntactSize(f, records, 0, start);
      OnlyLast(f, records, j, start);
      EnterBlock(checksum, f, records, start);
      mid := records[i..k] + Rest(checksum, f, start, Crossed(records, start), CarriedTo(records, start)).records;
    }
  }

  lemma SuffixOf(records: seq<Bytes>, j: nat, x: nat)
    requires j <= |records| && (j < |records| ==> NextStart(StartOf(records, j)) >= x)
    ensures After(records, x) <= j
  {
    hide After, NextStart, StartOf;
    if j < |records| {
      LaterIsAfter(records, j, x);
    }
  }

  lemma OnlyLast(f: Bytes, records: seq<Bytes>, j: nat, start: nat)
    requires j <= |records| && (j < |records| ==> NextStart(StartOf(records, j)) >= start + BLOCK)
    requires |f| < start + BLOCK && |f| == |Log(records)|
    ensures j == |records|
  {
    hide After, NextStart, StartOf, Log;
    if j < |records| {
      LaterIsAfter(records, j, start + BLOCK);
    }
  }

  /** With that mark nothing behind the block is read, whatever is there. */
  lemma MarkHidesTheRest(checksum: bool, f: Bytes, g: Bytes, records: seq<Bytes>, start: nat)
    requires start % BLOCK == 0 && start + BLOCK <= |f| == |g| && f[..start + BLOCK] == g[..start + BLOCK]
    requires AlikeOutside(f, Log(records), start, start + BLOCK)
    requires EofMark(checksum, f, start, start + BLOCK)
    ensures ReadAll(checksum, f, 0) == ReadAll(checksum, g, 0)
  {
    hide Rest, Complete, Log, EofMark, AlikeOutside, ReadAll, Intact, Crossed, CarriedTo;
    RestIsAll(checksum, f, 0);
    RestIsAll(checksum, g, 0);
    IntactOutside(f, records, start, start + BLOCK);
    IntactSame(f, g, records, start, start + BLOCK);
    EnterBlock(checksum, f, records, start);
    EnterBlock(checksum, g, records, start);
    CarriedClean(records, start);
    MarkStops(checksum, f, g, start, start, Crossed(records, start), CarriedTo(records, start));
    var a, b := ReadAll(checksum, f, 0), ReadAll(checksum, g, 0);
    assert a == (a.0, a.1) && b == (b.0, b.1);
  }

  lemma IntactSame(f: Bytes, g: Bytes, records: seq<Bytes>, to: nat, end: nat)
    requires Intact(f, records, 0, to) && to <= end <= |f| == |g| && f[..end] == g[..end]
    ensures Intact(g, records, 0, to)
  {
    hide Log;
    assert f[0..to] == f[..end][..to] && g[0..to] == g[..end][..to];
  }

  /** If reading gets to a fragment with a wrong checksum, a corruption is reported. */
  lemma WrongChecksumIsReported(f: Bytes, records: seq<Bytes>, start: nat, t: nat)
    requires start % BLOCK == 0 && start < |f| && AlikeOutside(f, Log(records), start, start + BLOCK)
    requires start <= t <= start + BLOCK
    requires var end := Min(|f|, start + BLOCK);
      Reaches(true, f, start, t, end) && Room(f, t, end) && !Blank(f, t) && !Sealed(f, t)
    ensures ReadAll(true, f, 0).1 > 0
  {
    hide Rest, Complete, Log, Reaches, AlikeOutside, ReadAll, Intact, Crossed, CarriedTo, Sealed;
    RestIsAll(true, f, 0);
    IntactOutside(f, records, start, start + BLOCK);
    EnterBlock(true, f, records, start);
    CarriedClean(records, start);
    WrongIsReported(true, f, start, start, t, Crossed(records, start), CarriedTo(records, start));
  }

  // ---------------------------------------------------------------- exactly what is lost and reported

  /** A header of the log is at `p`: at a block's beginning, or the first of a record. */
  predicate HeaderAt(records: seq<Bytes>, p: nat) {
    p % BLOCK == 0 || exists i :: 0 <= i < |records| && p == NextStart(StartOf(records, i))
  }

  /** The file is intact up to `p` and from the end of that block on. */
  predicate DamagedFrom(f: Bytes, records: seq<Bytes>, p: nat) {
    && Intact(f, records, 0, p) && p + HEADER <= |f|
    && (BlockEnd(p) <= |f| ==> Intact(f, records, BlockEnd(p), |f|))
  }

  /**
   * The drop is reported: a wrong checksum always, a bad length unless the file ends in the
   * block, and a blank header only through a record cut at either end of what is dropped.
   */
  predicate Noticed(f: Bytes, records: seq<Bytes>, p: nat)
    requires p + HEADER <= |f|
  {
    if !Room(f, p, Min(|f|, BlockEnd(p))) then BlockEnd(p) <= |f|
    else !Blank(f, p) || Crossed(records, p) || Crossed(records, BlockEnd(p))
  }

  lemma FirstHeader(records: seq<Bytes>, i: nat, p: nat)
    requires i < |records| && p == NextStart(StartOf(records, i))
    ensures Complete(records, p) == i && !Crossed(records, p)
  {
    hide Log, Complete, StartOf, Crossed, Record;
    CrossedAt(records, p);
    StartNext(records, i);
    RecordLong(StartOf(records, i), records[i], true);
    var k := Complete(records, p);
    if k < i {
      StartsAscend(records, k + 1, i);
    } else if i < k {
      StartsAscend(records, i + 1, k);
    }
  }

  /** Up to `p` all is read. */
  lemma EnterAt(checksum: bool, f: Bytes, records: seq<Bytes>, p: nat) returns (scratch: Bytes)
    requires HeaderAt(records, p) && Intact(f, records, 0, p) && p < |f|
    ensures Clean(Crossed(records, p), scratch)
    ensures Rest(checksum, f, 0, false, []) ==
      Plus(Tally(records[..Complete(records, p)], 0), Rest(checksum, f, p, Crossed(records, p), scratch))
  {
    hide Rest, Complete, Log, NextStart, Intact, Crossed, CarriedTo, StartOf;
    if p % BLOCK == 0 {
      EnterBlock(checksum, f, records, p);
      CarriedClean(records, p);
      scratch := CarriedTo(records, p);
    } else {
      var i :| 0 <= i < |records| && p == NextStart(StartOf(records, i));
      FirstHeader(records, i, p);
      StartOfAll(records);
      IntactPart(f, records, 0, p, 0, StartOf(records, i));
      IntactAreRead(checksum, f, records, 0, i);
      assert records[0..i] == records[..i];
      RestFromStart(checksum, f, StartOf(records, i), false, []);
      scratch := [];
    }
  }

  lemma HeaderStarts(records: seq<Bytes>, p: nat)
    requires HeaderAt(records, p)
    ensures NextStart(p) == p && InBlock(BlockEnd(p) - BLOCK, p) && p + HEADER <= BlockEnd(p)
  {
    hide StartOf;
    if p % BLOCK != 0 {
      var i :| 0 <= i < |records| && p == NextStart(StartOf(records, i));
      StartTwice(StartOf(records, i));
    }
    EndIsBoundary(p);
  }

  lemma EndIsBoundary(p: nat)
    ensures BlockEnd(p) % BLOCK == 0 && p < BlockEnd(p) <= p + BLOCK
  {
    assert p - p % BLOCK == p / BLOCK * BLOCK;
  }

  /** Behind the end of the log no record is open, and none begins. */
  lemma NothingBeyond(records: seq<Bytes>, x: nat)
    requires x >= |Log(records)|
    ensures !Crossed(records, x) && records[After(records, x)..] == []
  {
    hide Log, NextStart, StartOf, Crossed, Complete;
    CrossedAt(records, x);
    StartOfAll(records);
    if Complete(records, x) < |records| {
      StartsAscend(records, Complete(records, x) + 1, |records|);
    }
  }

  /**
   * A log damaged from header `p` on, in that header's block, where the fragment at `p` does
   * not pass: exactly the records that end before `p` and those that begin after the block
   * are returned, and a corruption is reported exactly when the drop is noticed.
   */
  lemma DamageIsContained(checksum: bool, f: Bytes, records: seq<Bytes>, p: nat)
    requires HeaderAt(records, p) && DamagedFrom(f, records, p)
    requires !Sound(checksum, f, p, Min(|f|, BlockEnd(p)))
    ensures ReadAll(checksum, f, 0).0 == records[..Complete(records, p)] + records[After(records, BlockEnd(p))..]
    ensures ReadAll(checksum, f, 0).1 > 0 <==> Noticed(f, records, p)
  {
    hide Rest, Complete, Log, NextStart, Intact, Crossed, StartOf, After, HeaderAt, BlockEnd, ReadAll, Sealed, Parse;
    RestIsAll(checksum, f, 0);
    HeaderStarts(records, p);
    EndIsBoundary(p);
    var scratch := EnterAt(checksum, f, records, p);
    ParseAt(checksum, f, BlockEnd(p) - BLOCK, p);
    if BlockEnd(p) <= |f| {
      DropFullBlock(checksum, f, records, p, scratch);
    } else {
      IntactSize(f, records, 0, p);
      NothingBeyond(records, BlockEnd(p));
      DropLastBlock(checksum, f, records, p, scratch);
    }
  }

  lemma DropFullBlock(checksum: bool, f: Bytes, records: seq<Bytes>, p: nat, scratch: Bytes)
    requires p + HEADER <= |f| && BlockEnd(p) <= |f| && Intact(f, records, BlockEnd(p), |f|)
    requires Clean(Crossed(records, p), scratch)
    requires Parse(checksum, f, p) == Damaged(!Room(f, p, BlockEnd(p)) || !Blank(f, p), BlockEnd(p))
    ensures var all := Rest(checksum, f, p, Crossed(records, p), scratch);
      all.records == records[After(records, BlockEnd(p))..] && (all.reports > 0 <==> Noticed(f, records, p))
  {
    hide Rest, Intact, Crossed, After, BlockEnd, Parse, Blank, Stated;
    EndIsBoundary(p);
    RestDamaged(checksum, f, p, Crossed(records, p), scratch, !Room(f, p, BlockEnd(p)) || !Blank(f, p), BlockEnd(p));
    var found := LeaveBlock(checksum, f, records, BlockEnd(p), false, []);
  }

  lemma DropLastBlock(checksum: bool, f: Bytes, records: seq<Bytes>, p: nat, scratch: Bytes)
    requires p + HEADER <= |f| < BlockEnd(p) && Clean(Crossed(records, p), scratch) && !Crossed(records, BlockEnd(p))
    requires Parse(checksum, f, p) == if !Room(f, p, |f|) then End else Damaged(!Blank(f, p), |f|)
    ensures var all := Rest(checksum, f, p, Crossed(records, p), scratch);
      all.records == [] && (all.reports > 0 <==> Noticed(f, records, p))
  {
    hide Rest, Crossed, BlockEnd, Parse, Blank, Stated;
    if Room(f, p, |f|) {
      RestDamaged(checksum, f, p, Crossed(records, p), scratch, !Blank(f, p), |f|);
      AtEnd(checksum, f, false, []);
    } else {
      RestUnfolds(checksum, f, p, Crossed(records, p), scratch);
    }
  }

  /** The reader on such a file. */
  method ReadDamagedFile(checksum: bool, f: Bytes, ghost records: seq<Bytes>, ghost p: nat)
    returns (read: seq<Bytes>, reports: nat)
    requires HeaderAt(records, p) && DamagedFrom(f, records, p)
    requires !Sound(checksum, f, p, Min(|f|, BlockEnd(p)))
    ensures read == records[..Complete(records, p)] + records[After(records, BlockEnd(p))..]
    ensures reports > 0 <==> Noticed(f, records, p)
  {
    hide HeaderAt, DamagedFrom, Sound, Complete, After, Noticed, BlockEnd, ReadAll, Log;
    DamageIsContained(checksum, f, records, p);
    read, reports := Logs.ReadFile(checksum, f);
  }

  // ---------------------------------------------------------------- two ways to lose records unnoticed

  /** A blank header drops its block without a word. */
  lemma BlankBlockIsSilent(checksum: bool, f: Bytes)
    requires HEADER <= |f| <= BLOCK && Blank(f, 0)
    ensures ReadAll(checksum, f, 0) == ([], 0)
  {
    hide Parse, Rest, ReadAll, Checksum, Unmask, Decode32, NextStart;
    ParseAt(checksum, f, 0, 0);
    RestDamaged(checksum, f, 0, false, [], false, |f|);
    AtEnd(checksum, f, false, []);
    PlusNone(NONE);
    NothingRead(checksum, f);
  }

  lemma NothingRead(checksum: bool, f: Bytes)
    requires Rest(checksum, f, 0, false, []) == NONE
    ensures ReadAll(checksum, f, 0) == ([], 0)
  {
    hide Rest, ReadAll;
    RestIsAll(checksum, f, 0);
    var all := ReadAll(checksum, f, 0);
    assert all == (all.0, all.1);
  }

  /** A file that begins with the mark reads as empty. */
  lemma MarkFirst(checksum: bool, f: Bytes, payload: Bytes)
    requires |payload| == BLOCK - HEADER && BLOCK <= |f| && f[0..BLOCK] == Emit(EOF, payload)
    ensures ReadAll(checksum, f, 0) == ([], 0)
  {
    hide Parse, Rest, ReadAll, Emit, NextStart;
    BlockOf(0, 0);
    ParseWhole(checksum, f, 0, EOF, payload);
    StopsThere(checksum, f, 0, EOF, payload, BLOCK);
    NothingRead(checksum, f);
  }

  lemma StopsThere(checksum: bool, f: Bytes, pos: nat, kind: Byte, payload: Bytes, next: nat)
    requires kind == EOF && Parse(checksum, f, pos) == Found(kind, payload, next)
    ensures Rest(checksum, f, pos, false, []) == NONE
  {
    hide Parse, Rest, React, Reports, Plus;
    RestUnfolds(checksum, f, pos, false, []);
    EofReaction(payload, false, []);
    NoReport(kind);
    PlusNone(NONE);
  }

  lemma NoReport(kind: Byte)
    requires kind == EOF
    ensures Reports(kind, false, []) == 0
  {
  }

  /** One block of a log turned into a sound fragment with the mark: all records are lost, and nothing is reported. */
  lemma MarkLosesRecords(checksum: bool, first: Bytes, second: Bytes)
    requires |first| == BLOCK - HEADER
    ensures var log := Log([first, second]);
      && BLOCK < |log|
      && var f := Emit(EOF, first) + log[BLOCK..];
      && AlikeOutside(f, log, 0, BLOCK) && EofMark(checksum, f, 0, BLOCK)
      && ReadAll(checksum, f, 0) == ([], 0) && ReadAll(checksum, log, 0) == ([first, second], 0)
  {
    hide ReadAll, Emit, EofMark, Log, AlikeOutside;
    var log := Log([first, second]);
    FullFirst(first, second);
    var f := Emit(EOF, first) + log[BLOCK..];
    SplicedFirst(Emit(EOF, first), log);
    MarkFirst(checksum, f, first);
    MarkAt(checksum, f, first);
    WholeIsRead(checksum, [first, second]);
  }

  lemma SplicedFirst(b: Bytes, log: Bytes)
    requires |b| == BLOCK <= |log|
    ensures var f := b + log[BLOCK..]; |f| == |log| && f[0..BLOCK] == b && AlikeOutside(f, log, 0, BLOCK)
  {
  }

  lemma WholeIsRead(checksum: bool, records: seq<Bytes>)
    ensures ReadAll(checksum, Log(records), 0) == (records, 0)
  {
    hide Log, ReadAll, Complete;
    Logs.WholeIsComplete(records);
    TruncatedLog(checksum, records, |Log(records)|);
    assert Log(records)[..|Log(records)|] == Log(records);
  }

  lemma FullFirst(first: Bytes, second: Bytes)
    requires |first| == BLOCK - HEADER
    ensures BLOCK < |Log([first, second])|
  {
    hide Emit, Record;
    var records: seq<Bytes> := [first, second];
    assert records[..1] == [first] && [first][..0] == [];
    RecordLong(|Log([first])|, second, true);
    assert Log([first]) == [] + Record(0, first, true);
    RecordLength(first);
  }

  lemma RecordLength(first: Bytes)
    requires |first| == BLOCK - HEADER
    ensures |Record(0, first, true)| == BLOCK
  {
    hide Emit;
  }

  lemma MarkAt(checksum: bool, f: Bytes, payload: Bytes)
    requires |payload| == BLOCK - HEADER && BLOCK <= |f| && f[0..BLOCK] == Emit(EOF, payload)
    ensures EofMark(checksum, f, 0, BLOCK)
  {
    hide Emit, Checksum, Unmask, Decode32;
    var b := Emit(EOF, payload);
    EmitBytes(EOF, payload);
    assert forall i :: 0 <= i < BLOCK ==> f[i] == f[0..BLOCK][i];
    assert f[4] == b[4] && f[5] == b[5] && f[6] == b[6] && f[0..4] == b[..4] && f[6..BLOCK] == b[6..];
  }
}
