/** Fixed-width integers and the stored form of checksums (util/coding.cc, util/crc32c.h). */
module Fixed {
  import opened Bytewise

  const WORD := 0x1_0000_0000
  type U32 = x: int | 0 <= x < 0x1_0000_0000

  /** EncodeFixed32: least significant byte first. */
  function Encode32(x: U32): (b: Bytes)
    ensures |b| == 4
  {
    [x % 0x100, x / 0x100 % 0x100, x / 0x1_0000 % 0x100, x / 0x100_0000]
  }

  function Decode32(b: Bytes): U32
    requires |b| == 4
  {
    b[0] as int + b[1] as int * 0x100 + b[2] as int * 0x1_0000 + b[3] as int * 0x100_0000
  }

  lemma Decode32Encode32(x: U32)
    ensures Decode32(Encode32(x)) == x
  {
    var high := x / 0x1_0000;
    assert x / 0x100 / 0x100 == high && high / 0x100 == x / 0x100_0000;
    assert x == x % 0x100 + x / 0x100 % 0x100 * 0x100 + high * 0x1_0000;
  }

  type U64 = x: int | 0 <= x < 0x1_0000_0000_0000_0000

  /** EncodeFixed64: the low word, then the high word. */
  function Encode64(x: U64): (b: Bytes)
    ensures |b| == 8
  {
    Encode32(x % WORD) + Encode32(x / WORD)
  }

  function Decode64(b: Bytes): U64
    requires |b| == 8
  {
    Decode32(b[..4]) + Decode32(b[4..]) * WORD
  }

  lemma Decode64Encode64(x: U64)
    ensures Decode64(Encode64(x)) == x
  {
    Decode32Encode32(x % WORD);
    Decode32Encode32(x / WORD);
  }

  const MASK_DELTA: U32 := 0xa282ead8

  /** Rotate right by 15 bits and add a constant, modulo 2^32. */
  function Mask(crc: U32): U32 {
    (crc / 0x8000 + crc % 0x8000 * 0x2_0000 + MASK_DELTA) % WORD
  }

  function Unmask(masked: U32): U32 {
    var rot := (masked + WORD - MASK_DELTA) % WORD;
    rot / 0x2_0000 + rot % 0x2_0000 * 0x8000
  }

  lemma UnmaskMask(crc: U32)
    ensures Unmask(Mask(crc)) == crc
  {
    var high, low := crc / 0x8000, crc % 0x8000;
    var rot := high + low * 0x2_0000;
    assert (Mask(crc) + WORD - MASK_DELTA) % WORD == rot;
    assert rot / 0x2_0000 == low && rot % 0x2_0000 == high;
  }
}

/** The format of log files (db/log_format.h), as functions of the bytes. */
module LogFormat {
  import opened Bytewise
  import opened Crc32c
  import opened Fixed

  const BLOCK := 32768
  const HEADER := 7

  const FULL: Byte := 1
  const FIRST: Byte := 2
  const MIDDLE: Byte := 3
  const LAST: Byte := 4
  /** The reader's own codes share the number space of stored types. */
  const EOF: Byte := 5
  const BAD: Byte := 6

  /** The checksum of a string. */
  function Checksum(b: Bytes): U32 {
    Extended(0, Octets(b)) as int
  }

  function Octets(b: Bytes): Crc32c.Octets {
    seq(|b|, i requires 0 <= i < |b| => b[i] as bv8)
  }

  // ---------------------------------------------------------------- writing

  /** Where the next header goes: a block's last six bytes or fewer are a trailer. */
  function NextStart(pos: nat): (s: nat)
    ensures pos <= s < pos + HEADER && s % BLOCK + HEADER <= BLOCK
  {
    if BLOCK - pos % BLOCK < HEADER then pos + (BLOCK - pos % BLOCK) else pos
  }

  function BlockEnd(pos: nat): nat {
    pos - pos % BLOCK + BLOCK
  }

  /** One physical record. */
  function Emit(kind: Byte, payload: Bytes): (b: Bytes)
    requires |payload| <= 0xffff
    ensures |b| == HEADER + |payload|
  {
    Encode32(Mask(Checksum([kind] + payload))) + [|payload| % 0x100, |payload| / 0x100, kind] + payload
  }

  function Min(a: int, b: int): int {
    if a < b then a else b
  }

  function Zeros(n: nat): Bytes {
    seq(n, _ => 0)
  }

  /** How much of the data fits behind the next header. */
  function Fits(pos: nat, data: Bytes): (n: nat)
    ensures n <= |data| && NextStart(pos) % BLOCK + HEADER + n <= BLOCK
  {
    Min(|data|, BLOCK - NextStart(pos) % BLOCK - HEADER)
  }

  function Kind(begin: bool, end: bool): Byte {
    if begin && end then FULL else if begin then FIRST else if end then LAST else MIDDLE
  }

  /** A trailer if one is due, and the next fragment. */
  function Fragment(pos: nat, data: Bytes, begin: bool): (b: Bytes)
    ensures |b| == NextStart(pos) - pos + HEADER + Fits(pos, data)
  {
    var n := Fits(pos, data);
    Zeros(NextStart(pos) - pos) + Emit(Kind(begin, n == |data|), data[..n])
  }

  lemma FullBlock(pos: nat, data: Bytes)
    requires Fits(pos, data) < |data|
    ensures (NextStart(pos) + HEADER + Fits(pos, data)) % BLOCK == 0
    ensures Fits(pos, data) == 0 ==> pos % BLOCK != 0
  {
  }

  lemma FragmentFills(pos: nat, data: Bytes, begin: bool)
    requires Fits(pos, data) < |data|
    ensures (pos + |Fragment(pos, data, begin)|) % BLOCK == 0
    ensures Fits(pos, data) == 0 ==> Crowded(pos + |Fragment(pos, data, begin)|) < Crowded(pos)
  {
    hide Emit, Zeros, Fragment;
    FullBlock(pos, data);
  }

  /** One if a block has room for a header and no data. */
  function Crowded(pos: nat): nat {
    if NextStart(pos) % BLOCK + HEADER == BLOCK then 1 else 0
  }

  /** What the writer appends at `pos` for the rest of a record. */
  function Record(pos: nat, data: Bytes, begin: bool): Bytes
    decreases |data|, Crowded(pos)
  {
    if Fits(pos, data) == |data| then Fragment(pos, data, begin)
    else
      FragmentFills(pos, data, begin);
      Fragment(pos, data, begin) + Record(pos + |Fragment(pos, data, begin)|, data[Fits(pos, data)..], false)
  }

  /** The file that holds the given records. */
  function Log(records: seq<Bytes>): Bytes {
    if records == [] then []
    else
      var before := Log(records[..|records| - 1]);
      before + Record(|before|, records[|records| - 1], true)
  }

  // ---------------------------------------------------------------- reading

  /** What reading one physical record gives, and where reading goes on. */
  datatype Physical = End | Damaged(reported: bool, next: nat) | Found(kind: Byte, payload: Bytes, next: nat)

  function Parse(checksum: bool, f: Bytes, pos: nat): (r: Physical)
    ensures r.Damaged? || r.Found? ==> pos < r.next <= |f|
  {
    var s := NextStart(pos);
    var end := Min(|f|, BlockEnd(s));
    if s + HEADER > end then End
    else
      var length := f[s + 4] as int + f[s + 5] as int * 0x100;
      if s + HEADER + length > end then
        if end < BlockEnd(s) then End else Damaged(true, end)
      else if f[s + 6] == 0 && length == 0 then Damaged(false, end)
      else if checksum && Checksum(f[s + 6..s + HEADER + length]) != Unmask(Decode32(f[s..s + 4])) then
        Damaged(true, end)
      else Found(f[s + 6], f[s + HEADER..s + HEADER + length], s + HEADER + length)
  }

  /** What ReadRecord gives: a record or the end, and how many corruptions it reported. */
  datatype Reading = Got(record: Bytes, next: nat, reports: nat) | Over(reports: nat)

  function Reported(n: nat, r: Reading): Reading {
    r.(reports := r.reports + n)
  }

  /** What one physical record does to a record being collected. */
  datatype Reaction = Return(record: Bytes) | Stop | GoOn(open: bool, scratch: Bytes)

  function React(kind: Byte, payload: Bytes, open: bool, scratch: Bytes): Reaction {
    if kind == FULL then Return(payload)
    else if kind == FIRST then GoOn(true, payload)
    else if kind == MIDDLE then GoOn(open, if open then scratch + payload else scratch)
    else if kind == LAST then if open then Return(scratch + payload) else GoOn(false, scratch)
    else if kind == EOF then Stop
    else GoOn(false, if kind == BAD && !open then scratch else [])
  }

  /** Whether that is reported as a corruption. */
  function Reports(kind: Byte, open: bool, scratch: Bytes): nat {
    if kind == FULL || kind == FIRST then if open && scratch != [] then 1 else 0
    else if kind == MIDDLE || kind == LAST then if open then 0 else 1
    else if kind == EOF then 0
    else if kind == BAD then if open then 1 else 0
    else 1
  }

  /** ReadRecord from `pos`, with `scratch` collected if a fragmented record is open. */
  function Read(checksum: bool, f: Bytes, pos: nat, open: bool, scratch: Bytes): (r: Reading)
    ensures r.Got? ==> pos < r.next <= |f|
    decreases |f| - pos, 1
  {
    match Parse(checksum, f, pos)
    case End => Over(0)
    case Damaged(reported, next) =>
      Reported((if reported then 1 else 0) + Reports(BAD, open, scratch),
               Resume(checksum, f, pos, React(BAD, [], open, scratch), next))
    case Found(kind, payload, next) =>
      Reported(Reports(kind, open, scratch), Resume(checksum, f, pos, React(kind, payload, open, scratch), next))
  }

  function Resume(checksum: bool, f: Bytes, pos: nat, a: Reaction, next: nat): (r: Reading)
    requires pos < next <= |f|
    ensures r.Got? ==> pos < r.next <= |f|
    decreases |f| - pos, 0
  {
    match a
    case Return(record) => Got(record, next, 0)
    case Stop => Over(0)
    case GoOn(open, scratch) => Read(checksum, f, next, open, scratch)
  }

  // ---------------------------------------------------------------- arbitrary bytes

  /** From `pos` on: middle fragments and a last one, back to back, that spell `data`. */
  predicate Continues(checksum: bool, f: Bytes, pos: nat, data: Bytes, next: nat)
    decreases |f| - pos
  {
    var r := Parse(checksum, f, pos);
    && r.Found?
    && if r.kind == LAST then data == r.payload && next == r.next
       else r.kind == MIDDLE && r.payload <= data && Continues(checksum, f, r.next, data[|r.payload|..], next)
  }

  /** From `pos` on: one full fragment, or a first one and what continues it. */
  predicate Whole(checksum: bool, f: Bytes, pos: nat, data: Bytes, next: nat) {
    var r := Parse(checksum, f, pos);
    && r.Found?
    && if r.kind == FULL then data == r.payload && next == r.next
       else r.kind == FIRST && r.payload <= data && Continues(checksum, f, r.next, data[|r.payload|..], next)
  }

  /** A record read on with fragments open continues them directly, or is a later whole record. */
  lemma {:induction false} ReadIsWhole(checksum: bool, f: Bytes, pos: nat, open: bool, scratch: Bytes)
    requires Read(checksum, f, pos, open, scratch).Got?
    ensures var r := Read(checksum, f, pos, open, scratch);
            || (open && scratch <= r.record && Continues(checksum, f, pos, r.record[|scratch|..], r.next))
            || exists q: nat :: pos <= q < r.next && Whole(checksum, f, q, r.record, r.next)
    decreases |f| - pos
  {
    hide Parse;
    var r := Read(checksum, f, pos, open, scratch);
    match Parse(checksum, f, pos) {
      case Damaged(_, next) =>
        var a := React(BAD, [], open, scratch);
        ReadIsWhole(checksum, f, next, a.open, a.scratch);
      case Found(kind, payload, next) =>
        var a := React(kind, payload, open, scratch);
        if a.GoOn? {
          ReadIsWhole(checksum, f, next, a.open, a.scratch);
        }
        if kind == FULL || kind == FIRST {
          assert a.GoOn? && payload <= r.record && Continues(checksum, f, next, r.record[|payload|..], r.next) ==>
            Whole(checksum, f, pos, r.record, r.next);
          assert a.Return? ==> Whole(checksum, f, pos, r.record, r.next);
        } else if open && scratch + payload <= r.record {
          assert r.record[|scratch|..][|payload|..] == r.record[|scratch + payload|..];
        }
    }
  }

  /**
   * Whatever the bytes, a record returned is one unbroken chain of fragments: records are
   * never joined across damage.
   */
  lemma RecordsAreUnbroken(checksum: bool, f: Bytes, pos: nat)
    requires Read(checksum, f, pos, false, []).Got?
    ensures var r := Read(checksum, f, pos, false, []);
            exists q: nat :: pos <= q < r.next && Whole(checksum, f, q, r.record, r.next)
  {
    ReadIsWhole(checksum, f, pos, false, []);
  }

  /** Between two fragments of a chain lies nothing, or fewer than seven bytes up to the block's end. */
  lemma OnlyTrailersBetween(checksum: bool, f: Bytes, pos: nat)
    requires Parse(checksum, f, pos).Found?
    ensures var r, start := Parse(checksum, f, pos), NextStart(pos);
            && r.next == start + HEADER + |r.payload| && r.next <= |f|
            && f[start + HEADER..r.next] == r.payload && f[start + 6] == r.kind
            && (start == pos || (pos < start < pos + HEADER && start % BLOCK == 0))
            && start / BLOCK == (r.next - 1) / BLOCK
            && (checksum ==> Checksum([r.kind] + r.payload) == Unmask(Decode32(f[start..start + 4])))
  {
    hide Checksum, Unmask, Decode32;
    var r := Parse(checksum, f, pos);
    var s := NextStart(pos);
    assert f[s + 6..r.next] == [r.kind] + r.payload;
  }

  // ---------------------------------------------------------------- what was written is read back

  lemma EmitBytes(kind: Byte, payload: Bytes)
    requires |payload| <= 0xffff
    ensures var b := Emit(kind, payload);
            && b[4] as int + b[5] as int * 0x100 == |payload|
            && b[6] == kind && b[6..] == [kind] + payload && b[HEADER..] == payload
            && Unmask(Decode32(b[..4])) == Checksum([kind] + payload)
  {
    var word := Encode32(Mask(Checksum([kind] + payload)));
    assert Emit(kind, payload)[..4] == word;
    Decode32Encode32(Mask(Checksum([kind] + payload)));
    UnmaskMask(Checksum([kind] + payload));
  }

  /** A fragment that lies whole in the file is found. */
  lemma ParseWhole(checksum: bool, f: Bytes, s: nat, kind: Byte, payload: Bytes)
    requires NextStart(s) == s && s % BLOCK + HEADER + |payload| <= BLOCK && kind != 0
    requires s + HEADER + |payload| <= |f| && f[s..s + HEADER + |payload|] == Emit(kind, payload)
    ensures Parse(checksum, f, s) == Found(kind, payload, s + HEADER + |payload|)
  {
    hide Checksum, Unmask, Decode32, Emit;
    var b := Emit(kind, payload);
    EmitBytes(kind, payload);
    assert forall i :: 0 <= i < |b| ==> f[s + i] == b[i];
    assert f[s + 4] == b[4] && f[s + 5] == b[5] && f[s + 6] == b[6];
    assert f[s..s + 4] == b[..4];
    assert f[s + 6..s + |b|] == b[6..];
    assert f[s + HEADER..s + |b|] == payload;
  }

  /** A fragment that the end of the file cuts is taken for the end, without a report. */
  lemma ParseCut(checksum: bool, f: Bytes, s: nat, kind: Byte, payload: Bytes)
    requires NextStart(s) == s && s % BLOCK + HEADER + |payload| <= BLOCK
    requires |f| < s + HEADER + |payload|
    requires s <= |f| ==> f[s..] == Emit(kind, payload)[..|f| - s]
    ensures Parse(checksum, f, s) == End
  {
    var b := Emit(kind, payload);
    if s + HEADER <= |f| {
      EmitBytes(kind, payload);
      assert f[s + 4] == f[s..][4] == b[4] && f[s + 5] == f[s..][5] == b[5];
    }
  }

  lemma StartTwice(pos: nat)
    ensures NextStart(NextStart(pos)) == NextStart(pos)
  {
  }

  lemma ParseFromStart(checksum: bool, f: Bytes, pos: nat)
    ensures Parse(checksum, f, pos) == Parse(checksum, f, NextStart(pos))
  {
    hide NextStart, Checksum, BlockEnd, Unmask, Decode32;
    StartTwice(pos);
  }

  /** The file holds `b` at `pos`, or ends inside it. */
  predicate HoldsAt(f: Bytes, pos: nat, b: Bytes) {
    && pos <= |f|
    && if pos + |b| <= |f| then f[pos..pos + |b|] == b else f[pos..] == b[..|f| - pos]
  }

  /** The next fragment of a record, in a file that holds all of it or is cut inside it. */
  lemma ParseFragment(checksum: bool, f: Bytes, pos: nat, data: Bytes, begin: bool)
    requires HoldsAt(f, pos, Fragment(pos, data, begin))
    ensures var b, n := Fragment(pos, data, begin), Fits(pos, data);
            var whole := Found(Kind(begin, n == |data|), data[..n], pos + |b|);
            Parse(checksum, f, pos) == if pos + |b| <= |f| then whole else End
  {
    hide Parse, HoldsAt, Emit, NextStart, Fits, Fragment;
    ParseFromStart(checksum, f, pos);
    if pos + |Fragment(pos, data, begin)| <= |f| {
      FragmentWhole(checksum, f, pos, data, begin);
    } else {
      FragmentCut(checksum, f, pos, data, begin);
    }
  }

  lemma FragmentTail(pos: nat, data: Bytes, begin: bool)
    ensures var b, n, s := Fragment(pos, data, begin), Fits(pos, data), NextStart(pos);
            b[s - pos..] == Emit(Kind(begin, n == |data|), data[..n])
  {
    hide Emit, NextStart, Fits;
  }

  lemma FragmentWhole(checksum: bool, f: Bytes, pos: nat, data: Bytes, begin: bool)
    requires HoldsAt(f, pos, Fragment(pos, data, begin)) && pos + |Fragment(pos, data, begin)| <= |f|
    ensures var b, n := Fragment(pos, data, begin), Fits(pos, data);
            Parse(checksum, f, NextStart(pos)) == Found(Kind(begin, n == |data|), data[..n], pos + |b|)
  {
    hide Parse, Emit, NextStart, Fits, Fragment;
    var b, n, s := Fragment(pos, data, begin), Fits(pos, data), NextStart(pos);
    StartTwice(pos);
    FragmentTail(pos, data, begin);
    assert f[s..pos + |b|] == f[pos..pos + |b|][s - pos..];
    ParseWhole(checksum, f, s, Kind(begin, n == |data|), data[..n]);
  }

  lemma FragmentCut(checksum: bool, f: Bytes, pos: nat, data: Bytes, begin: bool)
    requires HoldsAt(f, pos, Fragment(pos, data, begin)) && pos + |Fragment(pos, data, begin)| > |f|
    ensures Parse(checksum, f, NextStart(pos)) == End
  {
    hide Parse, Emit, NextStart, Fits, Fragment;
    var b, n, s := Fragment(pos, data, begin), Fits(pos, data), NextStart(pos);
    StartTwice(pos);
    FragmentTail(pos, data, begin);
    if s <= |f| {
      assert f[s..] == f[pos..][s - pos..] == b[..|f| - pos][s - pos..] == b[s - pos..][..|f| - s];
    }
    ParseCut(checksum, f, s, Kind(begin, n == |data|), data[..n]);
  }

  lemma HoldsParts(f: Bytes, pos: nat, a: Bytes, b: Bytes)
    requires HoldsAt(f, pos, a + b)
    ensures HoldsAt(f, pos, a)
    ensures pos + |a| <= |f| ==> HoldsAt(f, pos + |a|, b)
  {
    if pos + |a| <= |f| {
      if pos + |a + b| <= |f| {
        assert f[pos..pos + |a|] == (a + b)[..|a|] && f[pos + |a|..pos + |a + b|] == (a + b)[|a|..];
      } else {
        assert f[pos..pos + |a|] == f[pos..][..|a|] == a && f[pos + |a|..] == f[pos..][|a|..];
        assert (a + b)[..|f| - pos][|a|..] == b[..|f| - pos - |a|];
      }
    }
  }

  /** The rest of a record, in a file that holds all of it or is cut inside it. */
  lemma {:induction false} ReadWritten(checksum: bool, f: Bytes, pos: nat, data: Bytes, begin: bool, scratch: Bytes)
    requires HoldsAt(f, pos, Record(pos, data, begin))
    ensures var next := pos + |Record(pos, data, begin)|;
            var whole := Got((if begin then [] else scratch) + data, next, 0);
            Read(checksum, f, pos, !begin, scratch) == if next <= |f| then whole else Over(0)
    decreases |data|, pos % BLOCK
  {
    hide Parse, Fragment, HoldsAt, NextStart, Fits;
    var b, n := Fragment(pos, data, begin), Fits(pos, data);
    if n == |data| {
      ParseFragment(checksum, f, pos, data, begin);
      assert data[..n] == data;
    } else {
      FullBlock(pos, data);
      HoldsParts(f, pos, b, Record(pos + |b|, data[n..], false));
      ParseFragment(checksum, f, pos, data, begin);
      if pos + |b| <= |f| {
        var scratch' := if begin then data[..n] else scratch + data[..n];
        ReadWritten(checksum, f, pos + |b|, data[n..], false, scratch');
        assert scratch' + data[n..] == (if begin then [] else scratch) + data;
      }
    }
  }

  /** ReadRecord called until it finds no more: the records, and the corruptions reported. */
  function ReadAll(checksum: bool, f: Bytes, pos: nat): (seq<Bytes>, nat)
    decreases |f| - pos
  {
    match Read(checksum, f, pos, false, [])
    case Over(reports) => ([], reports)
    case Got(record, next, reports) =>
      var rest := ReadAll(checksum, f, next);
      ([record] + rest.0, reports + rest.1)
  }

  /** How many of the records end within the first `m` bytes. */
  function Complete(records: seq<Bytes>, m: nat): (k: nat)
    ensures k <= |records|
    ensures |Log(records[..k])| <= m
    ensures k < |records| ==> m < |Log(records[..k + 1])|
  {
    if |Log(records)| <= m then
      assert records[..|records|] == records;
      |records|
    else
      var shorter := records[..|records| - 1];
      var k := Complete(shorter, m);
      assert shorter[..k] == records[..k];
      assert if k < |shorter| then shorter[..k + 1] == records[..k + 1] else records[..k + 1] == records;
      k
  }

  lemma {:induction false} LogPrefix(records: seq<Bytes>, k: nat)
    requires k <= |records|
    ensures Log(records[..k]) <= Log(records)
  {
    if k < |records| {
      var shorter := records[..|records| - 1];
      LogPrefix(shorter, k);
      assert shorter[..k] == records[..k];
    } else {
      assert records[..k] == records;
    }
  }

  /** The record after the first `k`, as the truncated file has it. */
  lemma TruncatedHolds(records: seq<Bytes>, m: nat, k: nat)
    requires k < |records| && |Log(records[..k])| <= m <= |Log(records)|
    ensures var pos := |Log(records[..k])|;
            var b := Record(pos, records[k], true);
            && pos + |b| == |Log(records[..k + 1])|
            && HoldsAt(Log(records)[..m], pos, b)
  {
    hide Record;
    var before, whole := Log(records[..k]), Log(records);
    var b := Record(|before|, records[k], true);
    assert records[..k + 1][..k] == records[..k];
    assert Log(records[..k + 1]) == before + b;
    LogPrefix(records, k + 1);
    assert whole[|before|..|before| + |b|] == whole[..|before + b|][|before|..] == b;
  }

  lemma ReadAtEnd(checksum: bool, f: Bytes)
    ensures Read(checksum, f, |f|, false, []) == Over(0)
  {
  }

  lemma {:induction false} TruncatedFrom(checksum: bool, records: seq<Bytes>, m: nat, i: nat)
    requires m <= |Log(records)| && i <= Complete(records, m)
    ensures |Log(records[..i])| <= m
    ensures ReadAll(checksum, Log(records)[..m], |Log(records[..i])|) == (records[i..Complete(records, m)], 0)
    decreases |records| - i
  {
    hide Log, Record, Read, HoldsAt;
    var f, k := Log(records)[..m], Complete(records, m);
    assert records[..k][..i] == records[..i];
    LogPrefix(records[..k], i);
    if i < |records| {
      TruncatedHolds(records, m, i);
      ReadWritten(checksum, f, |Log(records[..i])|, records[i], true, []);
      if i < k {
        TruncatedFrom(checksum, records, m, i + 1);
        assert records[i..k] == [records[i]] + records[i + 1..k];
        assert records[i] == [] + records[i];
      }
    } else {
      assert records[..i] == records;
      ReadAtEnd(checksum, f);
    }
  }

  /** Reading any truncation of a log gives exactly the records that end within it, and reports nothing. */
  lemma TruncatedLog(checksum: bool, records: seq<Bytes>, m: nat)
    requires m <= |Log(records)|
    ensures ReadAll(checksum, Log(records)[..m], 0) == (records[..Complete(records, m)], 0)
  {
    TruncatedFrom(checksum, records, m, 0);
  }
}

/** The writer and the reader of log files (db/log_writer.cc, db/log_reader.cc). */
module Logs {
  import opened Bytewise
  import opened Fixed
  import opened LogFormat

  lemma SameOffset(a: nat, b: nat, n: nat)
    requires a % BLOCK == b % BLOCK
    ensures (a + n) % BLOCK == (b + n) % BLOCK
  {
    assert a - b == (a / BLOCK - b / BLOCK) * BLOCK;
  }

  /** A file with a record to come, after one more fragment of it. */
  lemma RecordUnfolds(dest: Bytes, left: Bytes, begin: bool)
    ensures var n, file := Fits(|dest|, left), dest + Fragment(|dest|, left, begin);
            && (n == |left| ==> dest + Record(|dest|, left, begin) == file)
            && (n < |left| ==> dest + Record(|dest|, left, begin) == file + Record(|file|, left[n..], false))
            && (n == 0 < |left| ==> |file| % BLOCK < |dest| % BLOCK)
  {
    hide NextStart, Fits, Fragment;
    var n, fragment := Fits(|dest|, left), Fragment(|dest|, left, begin);
    if n < |left| {
      FullBlock(|dest|, left);
      var rest := Record(|dest| + |fragment|, left[n..], false);
      assert Record(|dest|, left, begin) == fragment + rest;
      assert dest + (fragment + rest) == (dest + fragment) + rest;
    }
  }

  class Writer {
    var dest: Bytes
    var blockOffset: nat

    predicate Inv()
      reads this
    {
      blockOffset <= BLOCK && blockOffset % BLOCK == |dest| % BLOCK
    }

    /** A writer for a new file, or one that goes on at the end of `existing`. */
    constructor (existing: Bytes)
      ensures Inv() && dest == existing
    {
      dest, blockOffset := existing, |existing| % BLOCK;
    }

    method EmitPhysicalRecord(kind: Byte, payload: Bytes)
      requires Inv() && blockOffset + HEADER + |payload| <= BLOCK
      modifies this
      ensures Inv() && dest == old(dest) + Emit(kind, payload)
      ensures blockOffset == old(blockOffset) + HEADER + |payload|
    {
      hide Encode32, Checksum, Mask;
      SameOffset(blockOffset, |dest|, HEADER + |payload|);
      var header := Encode32(Mask(Checksum([kind] + payload))) + [|payload| % 0x100, |payload| / 0x100, kind];
      dest := dest + header;
      dest := dest + payload;
      blockOffset := blockOffset + HEADER + |payload|;
    }

    /** Fill up the block if no header fits, and write as much of the data as the block takes. */
    method AddFragment(left: Bytes, begin: bool) returns (n: nat)
      requires Inv()
      modifies this
      ensures Inv() && n == Fits(|old(dest)|, left) && dest == old(dest) + Fragment(|old(dest)|, left, begin)
    {
      hide Emit;
      var leftover := BLOCK - blockOffset;
      if leftover < HEADER {
        if leftover > 0 {
          dest := dest + Zeros(leftover);
        }
        blockOffset := 0;
      }
      assert dest == old(dest) + Zeros(NextStart(|old(dest)|) - |old(dest)|);
      var avail := BLOCK - blockOffset - HEADER;
      n := Min(|left|, avail);
      EmitPhysicalRecord(Kind(begin, n == |left|), left[..n]);
    }

    method AddRecord(data: Bytes)
      requires Inv()
      modifies this
      ensures Inv() && dest == old(dest) + Record(|old(dest)|, data, true)
    {
      hide Record, Fragment, NextStart, Fits;
      var left, begin, more := data, true, true;
      ghost var target := dest + Record(|dest|, data, true);
      while more
        invariant Inv()
        invariant target == if more then dest + Record(|dest|, left, begin) else dest
        decreases more, |left|, |dest| % BLOCK
      {
        RecordUnfolds(dest, left, begin);
        var n := AddFragment(left, begin);
        var end := n == |left|;
        left, begin, more := left[n..], false, !end;
      }
    }
  }

  lemma LogGrows(records: seq<Bytes>, data: Bytes)
    ensures Log(records) + Record(|Log(records)|, data, true) == Log(records + [data])
  {
    assert (records + [data])[..|records|] == records;
  }

  /** Reading one physical record from the block in the buffer, which begins at `pos`. */
  function ParseBuffer(checksum: bool, buffer: Bytes, eof: bool, pos: nat): Physical {
    if |buffer| < HEADER then End
    else
      var length := buffer[4] as int + buffer[5] as int * 0x100;
      if HEADER + length > |buffer| then
        if eof then End else Damaged(true, pos + |buffer|)
      else if buffer[6] == 0 && length == 0 then Damaged(false, pos + |buffer|)
      else if checksum && Checksum(buffer[6..HEADER + length]) != Unmask(Decode32(buffer[..4])) then
        Damaged(true, pos + |buffer|)
      else Found(buffer[6], buffer[HEADER..HEADER + length], pos + HEADER + length)
  }

  lemma BufferSlice(f: Bytes, s: nat, end: nat, i: nat, j: nat)
    requires s <= end <= |f| && i <= j <= end - s
    ensures f[s..end][i..j] == f[s + i..s + j]
  {
    assert forall k :: 0 <= k < j - i ==> f[s..end][i..j][k] == f[s + i + k];
  }

  lemma BufferParses(checksum: bool, f: Bytes, s: nat, end: nat, eof: bool)
    requires NextStart(s) == s && s + HEADER <= end && end == Min(|f|, BlockEnd(s)) && (eof <==> end < BlockEnd(s))
    ensures ParseBuffer(checksum, f[s..end], eof, s) == Parse(checksum, f, s)
  {
    hide Checksum, Unmask, Decode32, NextStart, BlockEnd;
    var length := f[s + 4] as int + f[s + 5] as int * 0x100;
    if s + HEADER + length <= end {
      BufferSlice(f, s, end, 6, HEADER + length);
      BufferSlice(f, s, end, HEADER, HEADER + length);
      BufferSlice(f, s, end, 0, 4);
    }
  }

  lemma ReadUnfolds(checksum: bool, f: Bytes, pos: nat, open: bool, scratch: Bytes)
    ensures var p := Parse(checksum, f, pos);
            var kind, payload := if p.Found? then p.kind else BAD, if p.Found? then p.payload else [];
            var extra := if p.Damaged? && p.reported then 1 else 0;
            Read(checksum, f, pos, open, scratch) == if p.End? then Over(0)
              else Reported(extra + Reports(kind, open, scratch),
                            Resume(checksum, f, pos, React(kind, payload, open, scratch), p.next))
  {
    hide Parse;
  }

  class Reader {
    const file: Bytes
    const checksum: bool
    var buffer: Bytes
    var eof: bool
    var endOfBuffer: nat
    /** How many corruptions were reported. */
    var reports: nat

    constructor (f: Bytes, verify: bool)
      ensures Inv() && file == f && checksum == verify && Pos() == 0 && reports == 0
    {
      hide Parse, Read;
      file, checksum, buffer, eof, endOfBuffer, reports := f, verify, [], false, 0, 0;
      assert f[0..0] == [];
    }

    function Pos(): int
      reads this
    {
      endOfBuffer - |buffer|
    }

    predicate Inv()
      reads this
    {
      && |buffer| <= endOfBuffer <= |file|
      && buffer == file[Pos()..endOfBuffer]
      && if eof then endOfBuffer == |file| && |buffer| <= endOfBuffer % BLOCK
         else endOfBuffer % BLOCK == 0 && |buffer| <= BLOCK
    }

    /** Blocks begin where the offset is a multiple of the block size. */
    static lemma WithinBlock(start: nat, n: nat)
      requires start % BLOCK == 0 && n <= BLOCK
      ensures (start + n) % BLOCK == if n == BLOCK then 0 else n
    {
    }

    /** Read the next block. */
    method Fill()
      requires Inv() && !eof && |buffer| < HEADER
      modifies this
      ensures Inv() && reports == old(reports)
      ensures Pos() == old(endOfBuffer) && endOfBuffer == Min(|file|, old(endOfBuffer) + BLOCK)
      ensures eof <==> |buffer| < BLOCK
    {
      WithinBlock(endOfBuffer, Min(|file|, endOfBuffer + BLOCK) - endOfBuffer);
      buffer := file[endOfBuffer..Min(|file|, endOfBuffer + BLOCK)];
      endOfBuffer := endOfBuffer + |buffer|;
      if |buffer| < BLOCK {
        eof := true;
      }
    }

    /** Drop the rest of the block. */
    method Drop(report: bool)
      requires Inv()
      modifies this
      ensures Inv() && Pos() == endOfBuffer == old(endOfBuffer) && eof == old(eof)
      ensures reports == old(reports) + if report then 1 else 0
    {
      buffer := [];
      if report {
        reports := reports + 1;
      }
    }

    /** Read blocks until the buffer holds a header or the file is over. */
    method Refill()
      requires Inv()
      modifies this
      ensures Inv() && reports == old(reports)
      ensures ParseBuffer(checksum, buffer, eof, Pos()) == Parse(checksum, file, old(Pos()))
      ensures |buffer| < HEADER ==> eof
    {
      hide ParseBuffer, Parse;
      if |buffer| < HEADER && !eof {
        Fill();
      }
      ReadyParses(old(Pos()));
    }

    lemma ReadyParses(pos: nat)
      requires Inv()
      requires var s := NextStart(pos);
               if |buffer| >= HEADER then
                 Pos() == s && endOfBuffer == Min(|file|, BlockEnd(s)) && (eof <==> endOfBuffer < BlockEnd(s))
               else eof && s + HEADER > Min(|file|, BlockEnd(s))
      ensures ParseBuffer(checksum, buffer, eof, Pos()) == Parse(checksum, file, pos)
    {
      hide NextStart, BlockEnd, Checksum, Unmask, Decode32;
      var s := NextStart(pos);
      ParseFromStart(checksum, file, pos);
      StartTwice(pos);
      if |buffer| >= HEADER {
        BufferParses(checksum, file, s, endOfBuffer, eof);
      }
    }

    method ReadPhysicalRecord() returns (kind: Byte, fragment: Bytes)
      requires Inv()
      modifies this
      ensures Inv()
      ensures match Parse(checksum, file, old(Pos()))
              case End => kind == EOF && Pos() == |file| && reports == old(reports)
              case Damaged(reported, next) =>
                kind == BAD && Pos() == next && reports == old(reports) + if reported then 1 else 0
              case Found(k, payload, next) =>
                kind == k && fragment == payload && Pos() == next && reports == old(reports)
    {
      hide Parse, Checksum, Unmask, Decode32;
      Refill();
      if |buffer| < HEADER {
        Drop(false);
        return EOF, [];
      }
      var length := buffer[4] as int + buffer[5] as int * 0x100;
      if HEADER + length > |buffer| {
        if !eof {
          Drop(true);
          return BAD, [];
        }
        Drop(false);
        return EOF, [];
      }
      if buffer[6] == 0 && length == 0 {
        Drop(false);
        return BAD, [];
      }
      if checksum && Checksum(buffer[6..HEADER + length]) != Unmask(Decode32(buffer[..4])) {
        Drop(true);
        return BAD, [];
      }
      kind, fragment := buffer[6], buffer[HEADER..HEADER + length];
      buffer := buffer[HEADER + length..];
    }

    /** The switch on the type of a physical record: reports, and whether a record is complete. */
    method Collect(kind: Byte, fragment: Bytes, open: bool, scratch: Bytes) returns (a: Reaction)
      modifies this`reports
      ensures a == React(kind, fragment, open, scratch) && reports == old(reports) + Reports(kind, open, scratch)
    {
      if kind == FULL {
        if open && scratch != [] {
          reports := reports + 1;
        }
        return Return(fragment);
      } else if kind == FIRST {
        if open && scratch != [] {
          reports := reports + 1;
        }
        return GoOn(true, fragment);
      } else if kind == MIDDLE {
        if !open {
          reports := reports + 1;
          return GoOn(false, scratch);
        }
        return GoOn(true, scratch + fragment);
      } else if kind == LAST {
        if !open {
          reports := reports + 1;
          return GoOn(false, scratch);
        }
        return Return(scratch + fragment);
      } else if kind == EOF {
        return Stop;
      } else if kind == BAD {
        if open {
          reports := reports + 1;
          return GoOn(false, []);
        }
        return GoOn(open, scratch);
      } else {
        reports := reports + 1;
        return GoOn(false, []);
      }
    }

    method ReadRecord() returns (ok: bool, record: Bytes)
      requires Inv()
      modifies this
      ensures Inv()
      ensures match Read(checksum, file, old(Pos()), false, [])
              case Got(data, next, n) => ok && record == data && Pos() == next && reports == old(reports) + n
              case Over(n) => !ok && reports == old(reports) + n
    {
      hide Parse, Read, Reports, React, Checksum;
      var scratch: Bytes, open := [], false;
      ghost var target := Read(checksum, file, Pos(), false, []);
      while true
        invariant Inv() && (open || scratch == []) && reports >= old(reports)
        invariant target == Reported(reports - old(reports), Read(checksum, file, Pos(), open, scratch))
        decreases |file| - Pos()
      {
        ReadUnfolds(checksum, file, Pos(), open, scratch);
        DamagedReaction(open, scratch);
        var kind, fragment := ReadPhysicalRecord();
        var a := Collect(kind, fragment, open, scratch);
        match a {
          case Return(data) => return true, data;
          case Stop => return false, [];
          case GoOn(open', scratch') => open, scratch := open', scratch';
        }
      }
    }
  }

  /** Damage closes an open record, and makes the end of file or a complete record impossible. */
  lemma DamagedReaction(open: bool, scratch: Bytes)
    requires open || scratch == []
    ensures forall fragment :: React(BAD, fragment, open, scratch) == GoOn(false, [])
    ensures forall fragment :: React(EOF, fragment, open, scratch) == Stop
    ensures Reports(EOF, open, scratch) == 0
    ensures forall kind, fragment :: var a := React(kind, fragment, open, scratch); a.GoOn? ==>
        a.open || a.scratch == []
  {
  }

  // ---------------------------------------------------------------- writing and reading whole files

  /** The records of several sessions, in the order they were written. */
  function Joined(sessions: seq<seq<Bytes>>): seq<Bytes> {
    if sessions == [] then [] else Joined(sessions[..|sessions| - 1]) + sessions[|sessions| - 1]
  }

  /** A session: open a file, new or with a log in it, and add records. */
  method WriteSession(existing: Bytes, ghost before: seq<Bytes>, records: seq<Bytes>) returns (file: Bytes)
    requires existing == Log(before)
    ensures file == Log(before + records)
  {
    hide Log, Record;
    var writer := new Writer(existing);
    assert before + records[..0] == before;
    for i := 0 to |records|
      invariant writer.Inv() && writer.dest == Log(before + records[..i])
    {
      LogGrows(before + records[..i], records[i]);
      assert before + records[..i + 1] == before + records[..i] + [records[i]];
      writer.AddRecord(records[i]);
    }
    assert records[..|records|] == records;
    file := writer.dest;
  }

  /** Any sessions on one file, reopened for each, make the log of all their records. */
  method WriteSessions(sessions: seq<seq<Bytes>>) returns (file: Bytes)
    ensures file == Log(Joined(sessions))
  {
    file := [];
    assert Joined(sessions[..0]) == [];
    for i := 0 to |sessions|
      invariant file == Log(Joined(sessions[..i]))
    {
      file := WriteSession(file, Joined(sessions[..i]), sessions[i]);
      assert sessions[..i + 1][..i] == sessions[..i];
    }
    assert sessions[..|sessions|] == sessions;
  }

  /** ReadRecord until it finds no more. */
  method ReadFile(checksum: bool, file: Bytes) returns (records: seq<Bytes>, reports: nat)
    ensures (records, reports) == ReadAll(checksum, file, 0)
  {
    hide Read, Reader.Inv;
    var reader := new Reader(file, checksum);
    records, reports := [], 0;
    var more := true;
    ghost var all := ReadAll(checksum, file, 0);
    while more
      invariant reader.Inv() && reader.file == file && reader.checksum == checksum
      invariant more ==> 0 <= reader.Pos() <= |file|
      invariant var rest := if more then ReadAll(checksum, file, reader.Pos()) else ([], 0);
                all.0 == records + rest.0 && all.1 == reader.reports + rest.1
      decreases more, |file| - reader.Pos()
    {
      ghost var pos := reader.Pos();
      ReadOneMore(checksum, file, pos);
      var record;
      more, record := reader.ReadRecord();
      if more {
        records := records + [record];
      }
    }
    reports := reader.reports;
    assert records + [] == records && all == (all.0, all.1);
  }

  lemma ReadOneMore(checksum: bool, f: Bytes, pos: nat)
    ensures match Read(checksum, f, pos, false, [])
            case Over(n) => ReadAll(checksum, f, pos) == ([], n)
            case Got(record, next, n) =>
              && pos < next <= |f|
              && var rest := ReadAll(checksum, f, next); ReadAll(checksum, f, pos) == ([record] + rest.0, n + rest.1)
  {
    hide Read;
  }

  /**
   * What any sessions wrote is read back up to wherever the file was cut: all records that
   * were wholly in it, in order, and no corruption reported.
   */
  method WrittenIsReadBack(sessions: seq<seq<Bytes>>, m: nat, checksum: bool)
    returns (records: seq<Bytes>, reports: nat)
    requires m <= |Log(Joined(sessions))|
    ensures records == Joined(sessions)[..Complete(Joined(sessions), m)] && reports == 0
    ensures m == |Log(Joined(sessions))| ==> records == Joined(sessions)
  {
    var file := WriteSessions(sessions);
    TruncatedLog(checksum, Joined(sessions), m);
    WholeIsComplete(Joined(sessions));
    hide Log, Complete, ReadAll, Joined;
    records, reports := ReadFile(checksum, file[..m]);
  }

  lemma WholeIsComplete(records: seq<Bytes>)
    ensures Complete(records, |Log(records)|) == |records|
    ensures records[..|records|] == records
  {
    forall i | 0 <= i <= |records| ensures |Log(records[..i])| <= |Log(records)| {
      LogPrefix(records, i);
    }
  }
}
