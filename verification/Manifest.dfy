/** Edits as bytes in the manifest (db/version_edit.cc). */
module VersionEdits {
  import opened Bytewise
  import opened Coding
  import opened Options

  const NUM_LEVELS := 7

  datatype FileMeta = FileMeta(number: nat, size: nat, smallest: Bytes, largest: Bytes)

  datatype Pointer = Pointer(level: nat, key: Bytes)
  datatype Deleted = Deleted(level: nat, number: nat)
  datatype Added = Added(level: nat, file: FileMeta)

  datatype Edit = Edit(
    comparator: Option<Bytes>,
    logNumber: Option<nat>,
    prevLogNumber: Option<nat>,
    nextFileNumber: Option<nat>,
    lastSequence: Option<nat>,
    compactPointers: seq<Pointer>,
    deletedFiles: set<Deleted>,
    newFiles: seq<Added>)

  /** A freshly made edit. */
  const EMPTY := Edit(None, None, None, None, None, [], {}, [])

  /** One tagged item of the encoding. */
  datatype Field =
    | Comparator(name: Bytes)
    | LogNumber(n: nat)
    | PrevLogNumber(n: nat)
    | NextFileNumber(n: nat)
    | LastSequence(n: nat)
    | CompactPointer(pointer: Pointer)
    | DeletedFile(deleted: Deleted)
    | NewFile(added: Added)

  function EncodeField(f: Field): Bytes {
    match f
    case Comparator(name) => Varint(1) + Prefixed(name)
    case LogNumber(n) => Varint(2) + Varint(n)
    case PrevLogNumber(n) => Varint(9) + Varint(n)
    case NextFileNumber(n) => Varint(3) + Varint(n)
    case LastSequence(n) => Varint(4) + Varint(n)
    case CompactPointer(p) => Varint(5) + (Varint(p.level) + Prefixed(p.key))
    case DeletedFile(d) => Varint(6) + (Varint(d.level) + Varint(d.number))
    case NewFile(a) =>
      Varint(7) + (Varint(a.level) + (Varint(a.file.number) + (Varint(a.file.size) +
        (Prefixed(a.file.smallest) + Prefixed(a.file.largest)))))
  }

  predicate ValidFile(f: FileMeta) {
    f.number < WORD64 && f.size < WORD64 && |f.smallest| < WORD32 && |f.largest| < WORD32
  }

  /** What the types of the source allow. */
  predicate ValidField(f: Field) {
    match f
    case Comparator(name) => |name| < WORD32
    case CompactPointer(p) => p.level < NUM_LEVELS && |p.key| < WORD32
    case DeletedFile(d) => d.level < NUM_LEVELS && d.number < WORD64
    case NewFile(a) => a.level < NUM_LEVELS && ValidFile(a.file)
    case _ => f.n < WORD64
  }

  // ---------------------------------------------------------------- parsing one field

  function GetLevel(input: Bytes): (r: Option<Decoded<nat>>)
    ensures r.Some? ==> |r.value.rest| < |input| && r.value.value < NUM_LEVELS
  {
    var v := GetVarint32(input);
    if v.Some? && v.value.value < NUM_LEVELS then v else None
  }

  function GetNumber(input: Bytes, make: nat): (r: Option<Decoded<Field>>)
    ensures r.Some? ==> |r.value.rest| < |input|
  {
    var v := GetVarint64(input);
    if v.None? then None
    else
      var n := v.value.value;
      var f := if make == 2 then LogNumber(n)
               else if make == 9 then PrevLogNumber(n)
               else if make == 3 then NextFileNumber(n)
               else LastSequence(n);
      Some(Decoded(f, v.value.rest))
  }

  function GetPointer(input: Bytes): (r: Option<Decoded<Field>>)
    ensures r.Some? ==> |r.value.rest| < |input|
  {
    var level := GetLevel(input);
    if level.None? then None
    else
      var key := GetPrefixed(level.value.rest);
      if key.None? then None
      else Some(Decoded(CompactPointer(Pointer(level.value.value, key.value.value)), key.value.rest))
  }

  function GetDeleted(input: Bytes): (r: Option<Decoded<Field>>)
    ensures r.Some? ==> |r.value.rest| < |input|
  {
    var level := GetLevel(input);
    if level.None? then None
    else
      var number := GetVarint64(level.value.rest);
      if number.None? then None
      else Some(Decoded(DeletedFile(Deleted(level.value.value, number.value.value)), number.value.rest))
  }

  function GetAdded(input: Bytes): (r: Option<Decoded<Field>>)
    ensures r.Some? ==> |r.value.rest| < |input|
  {
    var level := GetLevel(input);
    if level.None? then None
    else
      var number := GetVarint64(level.value.rest);
      if number.None? then None
      else
        var size := GetVarint64(number.value.rest);
        if size.None? then None
        else
          var smallest := GetPrefixed(size.value.rest);
          if smallest.None? then None
          else
            var largest := GetPrefixed(smallest.value.rest);
            if largest.None? then None
            else
              var file := FileMeta(number.value.value, size.value.value, smallest.value.value, largest.value.value);
              Some(Decoded(NewFile(Added(level.value.value, file)), largest.value.rest))
  }

  /** A tag and what it announces; an unknown tag is an error. */
  function ParseField(input: Bytes): (r: Option<Decoded<Field>>)
    ensures r.Some? ==> |r.value.rest| < |input|
  {
    var tag := GetVarint32(input);
    if tag.None? then None
    else
      var t, rest := tag.value.value, tag.value.rest;
      if t == 1 then
        var name := GetPrefixed(rest);
        if name.None? then None else Some(Decoded(Comparator(name.value.value), name.value.rest))
      else if t == 2 || t == 9 || t == 3 || t == 4 then GetNumber(rest, t)
      else if t == 5 then GetPointer(rest)
      else if t == 6 then GetDeleted(rest)
      else if t == 7 then GetAdded(rest)
      else None
  }

  lemma GetLevelBack(level: nat, rest: Bytes)
    requires level < NUM_LEVELS
    ensures GetLevel(Varint(level) + rest) == Some(Decoded(level, rest))
  {
    hide GetVarint32, Varint;
    GetVarint32Back(level, rest);
  }

  lemma GetAddedBack(a: Added, rest: Bytes)
    requires a.level < NUM_LEVELS && ValidFile(a.file)
    ensures var f := a.file;
            var body := Varint(a.level) + (Varint(f.number) + (Varint(f.size) +
              (Prefixed(f.smallest) + Prefixed(f.largest))));
            GetAdded(body + rest) == Some(Decoded(NewFile(a), rest))
  {
    hide GetVarint64, Varint, GetPrefixed, Prefixed, GetLevel;
    var f := a.file;
    var r4 := Prefixed(f.largest) + rest;
    var r3 := Prefixed(f.smallest) + r4;
    var r2 := Varint(f.size) + r3;
    var r1 := Varint(f.number) + r2;
    Flatten5(Varint(a.level), Varint(f.number), Varint(f.size), Prefixed(f.smallest), Prefixed(f.largest), rest);
    GetLevelBack(a.level, r1);
    GetVarint64Back(f.number, r2);
    GetVarint64Back(f.size, r3);
    GetPrefixedBack(f.smallest, r4);
    GetPrefixedBack(f.largest, rest);
  }

  lemma Flatten5(a: Bytes, b: Bytes, c: Bytes, d: Bytes, e: Bytes, rest: Bytes)
    ensures a + (b + (c + (d + e))) + rest == a + (b + (c + (d + (e + rest))))
  {
  }

  lemma Flatten2(a: Bytes, b: Bytes, rest: Bytes)
    ensures a + b + rest == a + (b + rest)
  {
  }

  /** A field is read back, whatever follows it. */
  lemma ParseBack(f: Field, rest: Bytes)
    requires ValidField(f)
    ensures ParseField(EncodeField(f) + rest) == Some(Decoded(f, rest))
  {
    hide GetVarint32, GetVarint64, Varint, GetPrefixed, Prefixed, GetLevel, GetAdded;
    match f
    case Comparator(name) =>
      Flatten2(Varint(1), Prefixed(name), rest);
      GetVarint32Back(1, Prefixed(name) + rest);
      GetPrefixedBack(name, rest);
    case CompactPointer(p) =>
      Flatten2(Varint(5), Varint(p.level) + Prefixed(p.key), rest);
      GetVarint32Back(5, Varint(p.level) + Prefixed(p.key) + rest);
      Flatten2(Varint(p.level), Prefixed(p.key), rest);
      GetLevelBack(p.level, Prefixed(p.key) + rest);
      GetPrefixedBack(p.key, rest);
    case DeletedFile(d) =>
      Flatten2(Varint(6), Varint(d.level) + Varint(d.number), rest);
      GetVarint32Back(6, Varint(d.level) + Varint(d.number) + rest);
      Flatten2(Varint(d.level), Varint(d.number), rest);
      GetLevelBack(d.level, Varint(d.number) + rest);
      GetVarint64Back(d.number, rest);
    case NewFile(a) =>
      var body := Varint(a.level) + (Varint(a.file.number) + (Varint(a.file.size) +
        (Prefixed(a.file.smallest) + Prefixed(a.file.largest))));
      Flatten2(Varint(7), body, rest);
      GetVarint32Back(7, body + rest);
      GetAddedBack(a, rest);
    case _ =>
      var tag := if f.LogNumber? then 2 else if f.PrevLogNumber? then 9 else if f.NextFileNumber? then 3 else 4;
      Flatten2(Varint(tag), Varint(f.n), rest);
      GetVarint32Back(tag, Varint(f.n) + rest);
      GetVarint64Back(f.n, rest);
  }

  // ---------------------------------------------------------------- whole edits

  function Apply(e: Edit, f: Field): Edit {
    match f
    case Comparator(name) => e.(comparator := Some(name))
    case LogNumber(n) => e.(logNumber := Some(n))
    case PrevLogNumber(n) => e.(prevLogNumber := Some(n))
    case NextFileNumber(n) => e.(nextFileNumber := Some(n))
    case LastSequence(n) => e.(lastSequence := Some(n))
    case CompactPointer(p) => e.(compactPointers := e.compactPointers + [p])
    case DeletedFile(d) => e.(deletedFiles := e.deletedFiles + {d})
    case NewFile(a) => e.(newFiles := e.newFiles + [a])
  }

  function ApplyAll(e: Edit, fs: seq<Field>): Edit
    decreases |fs|
  {
    if fs == [] then e else ApplyAll(Apply(e, fs[0]), fs[1..])
  }

  function EncodeAll(fs: seq<Field>): Bytes {
    if fs == [] then [] else EncodeField(fs[0]) + EncodeAll(fs[1..])
  }

  /** DecodeFrom: fields until the input is used up. */
  function Decode(input: Bytes, e: Edit): Option<Edit>
    decreases |input|
  {
    if input == [] then Some(e)
    else
      var f := ParseField(input);
      if f.None? then None else Decode(f.value.rest, Apply(e, f.value.value))
  }

  method DecodeFrom(src: Bytes) returns (r: Option<Edit>)
    ensures r == Decode(src, EMPTY)
  {
    hide ParseField;
    var input, e := src, EMPTY;
    while input != []
      invariant Decode(input, e) == Decode(src, EMPTY)
      decreases |input|
    {
      var f := ParseField(input);
      if f.None? {
        return None;
      }
      input, e := f.value.rest, Apply(e, f.value.value);
    }
    return Some(e);
  }

  lemma {:induction false} DecodeFields(fs: seq<Field>, e: Edit)
    requires forall i :: 0 <= i < |fs| ==> ValidField(fs[i])
    ensures Decode(EncodeAll(fs), e) == Some(ApplyAll(e, fs))
    decreases |fs|
  {
    hide ParseField, EncodeField, ValidField, Apply;
    if fs != [] {
      var rest := EncodeAll(fs[1..]);
      ParseBack(fs[0], rest);
      EncodeNotEmpty(fs[0]);
      DecodeFields(fs[1..], Apply(e, fs[0]));
    }
  }

  lemma EncodeNotEmpty(f: Field)
    ensures EncodeField(f) != []
  {
    hide Varint, Prefixed;
  }

  /** The fields of an edit in the order of EncodeTo; `deleted` lists the deleted files. */
  function Fields(e: Edit, deleted: seq<Deleted>): seq<Field> {
    Scalars(e) + Pointers(e.compactPointers) + Deletions(deleted) + Additions(e.newFiles)
  }

  function Scalars(e: Edit): seq<Field> {
    (if e.comparator.Some? then [Comparator(e.comparator.value)] else [])
    + (if e.logNumber.Some? then [LogNumber(e.logNumber.value)] else [])
    + (if e.prevLogNumber.Some? then [PrevLogNumber(e.prevLogNumber.value)] else [])
    + (if e.nextFileNumber.Some? then [NextFileNumber(e.nextFileNumber.value)] else [])
    + (if e.lastSequence.Some? then [LastSequence(e.lastSequence.value)] else [])
  }

  function Pointers(ps: seq<Pointer>): seq<Field> {
    seq(|ps|, i requires 0 <= i < |ps| => CompactPointer(ps[i]))
  }

  function Deletions(ds: seq<Deleted>): seq<Field> {
    seq(|ds|, i requires 0 <= i < |ds| => DeletedFile(ds[i]))
  }

  function Additions(fs: seq<Added>): seq<Field> {
    seq(|fs|, i requires 0 <= i < |fs| => NewFile(fs[i]))
  }

  predicate ValidEdit(e: Edit, deleted: seq<Deleted>) {
    forall i :: 0 <= i < |Fields(e, deleted)| ==> ValidField(Fields(e, deleted)[i])
  }

  lemma {:induction false} ApplyConcat(e: Edit, a: seq<Field>, b: seq<Field>)
    ensures ApplyAll(e, a + b) == ApplyAll(ApplyAll(e, a), b)
    decreases |a|
  {
    hide Apply;
    if a == [] {
      assert a + b == b;
    } else {
      ApplyConcat(Apply(e, a[0]), a[1..], b);
      assert (a + b)[1..] == a[1..] + b;
    }
  }

  lemma {:induction false} ApplyPointers(e: Edit, ps: seq<Pointer>)
    ensures ApplyAll(e, Pointers(ps)) == e.(compactPointers := e.compactPointers + ps)
    decreases |ps|
  {
    if ps != [] {
      ApplyPointers(Apply(e, CompactPointer(ps[0])), ps[1..]);
      assert Pointers(ps)[1..] == Pointers(ps[1..]);
      assert e.compactPointers + [ps[0]] + ps[1..] == e.compactPointers + ps;
    }
  }

  lemma {:induction false} ApplyDeletions(e: Edit, ds: seq<Deleted>)
    ensures ApplyAll(e, Deletions(ds)) == e.(deletedFiles := e.deletedFiles + set d | d in ds)
    decreases |ds|
  {
    if ds != [] {
      ApplyDeletions(Apply(e, DeletedFile(ds[0])), ds[1..]);
      assert Deletions(ds)[1..] == Deletions(ds[1..]);
      assert e.deletedFiles + {ds[0]} + (set d | d in ds[1..]) == e.deletedFiles + set d | d in ds;
    }
  }

  lemma {:induction false} ApplyAdditions(e: Edit, fs: seq<Added>)
    ensures ApplyAll(e, Additions(fs)) == e.(newFiles := e.newFiles + fs)
    decreases |fs|
  {
    if fs != [] {
      ApplyAdditions(Apply(e, NewFile(fs[0])), fs[1..]);
      assert Additions(fs)[1..] == Additions(fs[1..]);
      assert e.newFiles + [fs[0]] + fs[1..] == e.newFiles + fs;
    }
  }

  lemma {:induction false} EncodeSnoc(fs: seq<Field>, f: Field)
    ensures EncodeAll(fs + [f]) == EncodeAll(fs) + EncodeField(f)
  {
    hide EncodeField;
    if fs == [] {
      assert fs + [f] == [f] && [f][1..] == [];
    } else {
      EncodeSnoc(fs[1..], f);
      assert (fs + [f])[1..] == fs[1..] + [f];
    }
  }

  /** EncodeTo; the set of deleted files is listed in the order of the set. */
  method EncodeTo(e: Edit, deleted: seq<Deleted>) returns (dst: Bytes)
    requires e.deletedFiles == set d | d in deleted
    ensures dst == EncodeAll(Fields(e, deleted))
  {
    hide EncodeField, EncodeAll;
    dst := EncodeScalars(e);
    ghost var fs := Scalars(e);
    for i := 0 to |e.compactPointers|
      invariant fs == Scalars(e) + Pointers(e.compactPointers[..i]) && dst == EncodeAll(fs)
    {
      var f := CompactPointer(e.compactPointers[i]);
      EncodeSnoc(fs, f);
      dst, fs := dst + EncodeField(f), fs + [f];
    }
    assert e.compactPointers[..|e.compactPointers|] == e.compactPointers;
    for i := 0 to |deleted|
      invariant fs == Scalars(e) + Pointers(e.compactPointers) + Deletions(deleted[..i]) && dst == EncodeAll(fs)
    {
      var f := DeletedFile(deleted[i]);
      EncodeSnoc(fs, f);
      dst, fs := dst + EncodeField(f), fs + [f];
    }
    assert deleted[..|deleted|] == deleted;
    for i := 0 to |e.newFiles|
      invariant fs == Scalars(e) + Pointers(e.compactPointers) + Deletions(deleted) + Additions(e.newFiles[..i])
      invariant dst == EncodeAll(fs)
    {
      var f := NewFile(e.newFiles[i]);
      EncodeSnoc(fs, f);
      dst, fs := dst + EncodeField(f), fs + [f];
    }
    assert e.newFiles[..|e.newFiles|] == e.newFiles;
  }

  method EncodeScalars(e: Edit) returns (dst: Bytes)
    ensures dst == EncodeAll(Scalars(e))
  {
    hide EncodeField, EncodeAll;
    ghost var fs: seq<Field> := [];
    dst := [];
    assert EncodeAll([]) == [] by { NoFields(); }
    if e.comparator.Some? {
      dst, fs := AppendField(dst, fs, Comparator(e.comparator.value));
    }
    if e.logNumber.Some? {
      dst, fs := AppendField(dst, fs, LogNumber(e.logNumber.value));
    }
    assert fs == (if e.comparator.Some? then [Comparator(e.comparator.value)] else [])
                 + (if e.logNumber.Some? then [LogNumber(e.logNumber.value)] else []);
    ghost var first := fs;
    if e.prevLogNumber.Some? {
      dst, fs := AppendField(dst, fs, PrevLogNumber(e.prevLogNumber.value));
    }
    if e.nextFileNumber.Some? {
      dst, fs := AppendField(dst, fs, NextFileNumber(e.nextFileNumber.value));
    }
    assert fs == first + (if e.prevLogNumber.Some? then [PrevLogNumber(e.prevLogNumber.value)] else [])
                 + (if e.nextFileNumber.Some? then [NextFileNumber(e.nextFileNumber.value)] else []);
    if e.lastSequence.Some? {
      dst, fs := AppendField(dst, fs, LastSequence(e.lastSequence.value));
    }
    assert fs == Scalars(e);
  }

  lemma NoFields()
    ensures EncodeAll([]) == []
  {
  }

  method AppendField(dst: Bytes, ghost fs: seq<Field>, f: Field) returns (dst': Bytes, ghost fs': seq<Field>)
    requires dst == EncodeAll(fs)
    ensures fs' == fs + [f] && dst' == EncodeAll(fs')
  {
    EncodeSnoc(fs, f);
    dst', fs' := dst + EncodeField(f), fs + [f];
  }

  /** Decoding an encoded edit gives the edit back, in whatever order its deleted files are listed. */
  lemma RoundTrip(e: Edit, deleted: seq<Deleted>)
    requires ValidEdit(e, deleted) && e.deletedFiles == set d | d in deleted
    ensures Decode(EncodeAll(Fields(e, deleted)), EMPTY) == Some(e)
  {
    DecodeFields(Fields(e, deleted), EMPTY);
    FieldsRestore(e, deleted);
  }

  lemma FieldsRestore(e: Edit, deleted: seq<Deleted>)
    requires e.deletedFiles == set d | d in deleted
    ensures ApplyAll(EMPTY, Fields(e, deleted)) == e
  {
    hide Scalars, Pointers, Deletions, Additions, ApplyAll;
    var s, p, d, a := Scalars(e), Pointers(e.compactPointers), Deletions(deleted), Additions(e.newFiles);
    ApplyConcat(EMPTY, s + p + d, a);
    ApplyConcat(EMPTY, s + p, d);
    ApplyConcat(EMPTY, s, p);
    ScalarsRestore(e);
    var e1 := ApplyAll(EMPTY, s);
    ApplyPointers(e1, e.compactPointers);
    var e2 := ApplyAll(e1, p);
    ApplyDeletions(e2, deleted);
    ApplyAdditions(ApplyAll(e2, d), e.newFiles);
  }

  lemma ScalarsRestore(e: Edit)
    ensures ApplyAll(EMPTY, Scalars(e)) == e.(compactPointers := [], deletedFiles := {}, newFiles := [])
  {
    var a := if e.comparator.Some? then [Comparator(e.comparator.value)] else [];
    var b := if e.logNumber.Some? then [LogNumber(e.logNumber.value)] else [];
    var c := if e.prevLogNumber.Some? then [PrevLogNumber(e.prevLogNumber.value)] else [];
    var d := if e.nextFileNumber.Some? then [NextFileNumber(e.nextFileNumber.value)] else [];
    var l := if e.lastSequence.Some? then [LastSequence(e.lastSequence.value)] else [];
    ApplyConcat(EMPTY, a + b + c + d, l);
    ApplyConcat(EMPTY, a + b + c, d);
    ApplyConcat(EMPTY, a + b, c);
    ApplyConcat(EMPTY, a, b);
  }
}

/** Replaying a manifest (VersionSet::Recover) against applying its edits one by one (LogAndApply). */
module Replay {
  import opened InternalKeys
  import opened VersionBuilder
  import opened Versions

  /** What one edit does to one level. */
  datatype LevelEdit = LevelEdit(deleted: set<nat>, added: set<Table>)

  /** A builder's state for one level. */
  datatype LevelState = LevelState(deleted: set<nat>, added: set<Table>)

  function Numbers(ts: set<Table>): set<nat> {
    set t | t in ts :: t.number
  }

  /** Builder::Apply: deletions first, then additions, which take their numbers off the deleted. */
  function Applied(s: LevelState, e: LevelEdit): LevelState {
    LevelState(s.deleted + e.deleted - Numbers(e.added), s.added + e.added)
  }

  function TableSet(ts: seq<Table>): set<Table> {
    set t | t in ts
  }

  /** Builder::Apply for one level, with the loops of the source. */
  method Apply(s: LevelState, deleted: seq<nat>, added: seq<Table>) returns (r: LevelState)
    ensures r == Applied(s, LevelEdit((set n | n in deleted), TableSet(added)))
  {
    r := s;
    for i := 0 to |deleted|
      invariant r == LevelState(s.deleted + (set n | n in deleted[..i]), s.added)
    {
      r := r.(deleted := r.deleted + {deleted[i]});
      assert deleted[..i + 1] == deleted[..i] + [deleted[i]];
    }
    assert deleted[..|deleted|] == deleted;
    ghost var was := r.deleted;
    for i := 0 to |added|
      invariant r == LevelState(was - Numbers(TableSet(added[..i])), s.added + TableSet(added[..i]))
    {
      r := LevelState(r.deleted - {added[i].number}, r.added + {added[i]});
      NumbersSnoc(added, i);
    }
    assert added[..|added|] == added;
  }

  lemma NumbersSnoc(added: seq<Table>, i: nat)
    requires i < |added|
    ensures TableSet(added[..i + 1]) == TableSet(added[..i]) + {added[i]}
    ensures Numbers(TableSet(added[..i + 1])) == Numbers(TableSet(added[..i])) + {added[i].number}
  {
    assert added[..i + 1] == added[..i] + [added[i]];
    assert TableSet(added[..i + 1]) == TableSet(added[..i]) + {added[i]};
  }

  function AppliedAll(s: LevelState, es: seq<LevelEdit>): LevelState {
    if es == [] then s else Applied(AppliedAll(s, es[..|es| - 1]), es[|es| - 1])
  }

  /** Builder::SaveTo: the files of the base and the added ones, less the deleted. */
  function Files(base: set<Table>, s: LevelState): set<Table> {
    set t | t in base + s.added && t.number !in s.deleted
  }

  const FRESH := LevelState({}, {})

  /** Every edit saved by a builder of its own, as when the database ran. */
  function OneByOne(base: set<Table>, es: seq<LevelEdit>): set<Table> {
    if es == [] then base
    else Files(OneByOne(base, es[..|es| - 1]), Applied(FRESH, es[|es| - 1]))
  }

  /** No edit adds a number that the base or an earlier edit already added to the level. */
  predicate NoneAddedTwice(base: set<Table>, es: seq<LevelEdit>) {
    && (forall i :: 0 <= i < |es| ==> Numbers(es[i].added) !! Numbers(base))
    && forall i, j :: 0 <= i < j < |es| ==> Numbers(es[i].added) !! Numbers(es[j].added)
  }

  lemma {:induction false} AddedBefore(base: set<Table>, es: seq<LevelEdit>, t: Table)
    requires t in AppliedAll(FRESH, es).added
    ensures exists i :: 0 <= i < |es| && t in es[i].added
  {
    if es != [] {
      var fewer := es[..|es| - 1];
      if t in AppliedAll(FRESH, fewer).added {
        AddedBefore(base, fewer, t);
        var i :| 0 <= i < |fewer| && t in fewer[i].added;
        assert t in es[i].added;
      }
    }
  }

  /** One builder over all edits saves what the builders of the single edits saved in turn. */
  lemma {:induction false} ReplayIsOneByOne(base: set<Table>, es: seq<LevelEdit>)
    requires NoneAddedTwice(base, es)
    ensures Files(base, AppliedAll(FRESH, es)) == OneByOne(base, es)
  {
    if es == [] {
      assert Files(base, FRESH) == base;
    } else {
      var fewer, e := es[..|es| - 1], es[|es| - 1];
      ReplayIsOneByOne(base, fewer);
      var s := AppliedAll(FRESH, fewer);
      forall t | t in base + s.added ensures t.number !in Numbers(e.added) {
        if t in base {
          assert t.number in Numbers(base);
        } else {
          AddedBefore(base, fewer, t);
          var i :| 0 <= i < |fewer| && t in fewer[i].added;
          assert t.number in Numbers(es[i].added);
        }
      }
      assert Numbers(es[|es| - 1].added) == Numbers(e.added);
      OneMore(base, s, e);
    }
  }

  lemma OneMore(base: set<Table>, s: LevelState, e: LevelEdit)
    requires forall t :: t in base + s.added ==> t.number !in Numbers(e.added)
    ensures Files(base, Applied(s, e)) == Files(Files(base, s), Applied(FRESH, e))
  {
    forall t ensures t in Files(base, Applied(s, e)) <==> t in Files(Files(base, s), Applied(FRESH, e)) {
      if t in e.added {
        assert t.number in Numbers(e.added);
      }
    }
  }

  /** Hence the sorted file lists are the same, too. */
  lemma ReplayListsAreSame(base: set<Table>, es: seq<LevelEdit>, p: Level, q: Level)
    requires NoneAddedTwice(base, es) && SortedBySmallest(p) && SortedBySmallest(q)
    requires forall t :: t in p <==> t in Files(base, AppliedAll(FRESH, es))
    requires forall t :: t in q <==> t in OneByOne(base, es)
    ensures p == q
  {
    ReplayIsOneByOne(base, es);
    SortedListingUnique(p, q);
  }

  /** The condition is needed: a number that is deleted and added again brings the old file back. */
  lemma AddedTwiceDiffers(first: Table, second: Table)
    requires first.number == second.number && first != second
    ensures var es := [LevelEdit({first.number}, {}), LevelEdit({}, {second})];
            first in Files({first}, AppliedAll(FRESH, es)) && first !in OneByOne({first}, es)
  {
    var es := [LevelEdit({first.number}, {}), LevelEdit({}, {second})];
    assert es[..1] == [LevelEdit({first.number}, {})] && es[..1][..0] == [];
    assert second.number in Numbers({second});
    assert AppliedAll(FRESH, es[..1]) == Applied(FRESH, es[0]);
    assert OneByOne({first}, es[..1]) == Files({first}, Applied(FRESH, es[0]));
  }
}
