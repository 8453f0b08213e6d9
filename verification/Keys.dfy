/** Values that may be absent. */
module Options {
  datatype Option<+T> = None | Some(value: T)
}

/** Bytes, and the bytewise order of byte strings (util/comparator.cc). */
module Bytewise {
  type Byte = b: int | 0 <= b < 256
  type Bytes = seq<Byte>

  /** `memcmp` order: a proper prefix sorts first. */
  predicate Less(a: Bytes, b: Bytes) {
    if b == [] then false
    else if a == [] then true
    else a[0] < b[0] || (a[0] == b[0] && Less(a[1..], b[1..]))
  }

  /**
   * A position on the unit interval that orders byte strings bytewise. Code that
   * compares user keys only through the comparator is modelled on positions.
   */
  function Rank(k: Bytes): (r: real)
    ensures 0.0 <= r < 1.0
    ensures k == [] <==> r == 0.0
  {
    if k == [] then 0.0 else (k[0] as real + 1.0 + Rank(k[1..])) / 257.0
  }

  /** The position determines the byte string, and keeps and reflects the order. */
  lemma {:induction false} RankOrder(a: Bytes, b: Bytes)
    ensures Less(a, b) <==> Rank(a) < Rank(b)
    ensures a == b <==> Rank(a) == Rank(b)
  {
    if a != [] && b != [] {
      RankOrder(a[1..], b[1..]);
      assert a == [a[0]] + a[1..] && b == [b[0]] + b[1..];
    }
  }
}

/** User keys, internal keys and stored entries (db/dbformat.h, db/dbformat.cc). */
module InternalKeys {
  import opened Bytewise

  /** A user key, by its position in the user comparator's order. */
  type UserKey = real

  datatype ValueType = Deletion | Value

  const MAX_SEQUENCE: nat := 0xFF_FFFF_FFFF_FFFF

  datatype Entry = Entry(user: UserKey, seqno: nat, kind: ValueType, value: Bytes)

  /** PackSequenceAndType. */
  function Tag(seqno: nat, kind: ValueType): nat {
    seqno * 256 + if kind == Value then 1 else 0
  }

  /** InternalKeyComparator: increasing user key, then decreasing packed tag. */
  predicate Before(a: Entry, b: Entry) {
    a.user < b.user || (a.user == b.user && Tag(a.seqno, a.kind) > Tag(b.seqno, b.kind))
  }

  /** The internal key a lookup or seek of `user` at `seqno` starts from (LookupKey). */
  function SeekKey(user: UserKey, seqno: nat): Entry {
    Entry(user, seqno, Value, [])
  }

  ghost predicate Sorted(es: seq<Entry>) {
    forall i, j :: 0 <= i < j < |es| ==> Before(es[i], es[j])
  }
}

/** What a read means: the newest entry of a user key at or below a snapshot. */
module Lookups {
  import opened Bytewise
  import opened InternalKeys
  import opened Options

  predicate Visible(e: Entry, user: UserKey, snapshot: nat) {
    e.user == user && e.seqno <= snapshot
  }

  ghost predicate IsNewest(es: iset<Entry>, user: UserKey, snapshot: nat, r: Option<Entry>) {
    match r
    case None => forall e :: e in es ==> !Visible(e, user, snapshot)
    case Some(x) =>
      && x in es
      && Visible(x, user, snapshot)
      && forall e :: e in es && Visible(e, user, snapshot) ==> e.seqno <= x.seqno
  }

  /** What the caller of Get sees: a value, or not found. */
  function Outcome(r: Option<Entry>): Option<Bytes> {
    if r.Some? && r.value.kind == Value then Some(r.value.value) else None
  }

  /** No two entries share a user key and a sequence number. */
  ghost predicate Unique(es: iset<Entry>) {
    forall a, b :: a in es && b in es && a.user == b.user && a.seqno == b.seqno ==> a == b
  }

  /** The newest visible entry, searching down from the snapshot. */
  ghost function Newest(es: iset<Entry>, user: UserKey, snapshot: nat): (r: Option<Entry>)
    ensures IsNewest(es, user, snapshot, r)
    decreases snapshot
  {
    if exists e :: e in es && e.user == user && e.seqno == snapshot then
      var e :| e in es && e.user == user && e.seqno == snapshot;
      Some(e)
    else if snapshot == 0 then None
    else
      assert forall e :: e in es && Visible(e, user, snapshot) ==> Visible(e, user, snapshot - 1);
      Newest(es, user, snapshot - 1)
  }

  /** The value that reading `user` at `snapshot` from a set of entries must return. */
  ghost function Read(es: iset<Entry>, user: UserKey, snapshot: nat): Option<Bytes> {
    Outcome(Newest(es, user, snapshot))
  }

  /** In every shared user key, the first set is newer than the second. */
  ghost predicate Newer(a: iset<Entry>, b: iset<Entry>) {
    forall x, y :: x in a && y in b && x.user == y.user ==> x.seqno > y.seqno
  }

  ghost function SeqEntries(es: seq<Entry>): iset<Entry> {
    iset e | e in es
  }

  /**
   * Seek to the lookup key and accept the entry found if it has the right user
   * key (MemTable::Get, and Table::InternalGet with SaveValue).
   */
  function SeekGet(es: seq<Entry>, user: UserKey, snapshot: nat): Option<Entry> {
    if es == [] then None
    else if Before(es[0], SeekKey(user, snapshot)) then SeekGet(es[1..], user, snapshot)
    else if es[0].user == user then Some(es[0]) else None
  }

  /** The one entry that the seek stops at is the newest visible one. */
  lemma {:induction false} SeekGetNewest(es: seq<Entry>, user: UserKey, snapshot: nat)
    requires Sorted(es)
    ensures IsNewest(SeqEntries(es), user, snapshot, SeekGet(es, user, snapshot))
  {
    if es != [] {
      if Before(es[0], SeekKey(user, snapshot)) {
        assert !Visible(es[0], user, snapshot);
        SeekGetNewest(es[1..], user, snapshot);
        assert forall e :: e in es <==> e == es[0] || e in es[1..];
      } else {
        forall e | e in es && Visible(e, user, snapshot)
          ensures es[0].user == user && e.seqno <= es[0].seqno
        {
          var i :| 0 <= i < |es| && es[i] == e;
        }
      }
    }
  }

  /** A newest entry exists in any finite store, and unique entries make it unique. */
  lemma NewestIsUnique(es: iset<Entry>, user: UserKey, snapshot: nat, r: Option<Entry>, q: Option<Entry>)
    requires Unique(es)
    requires IsNewest(es, user, snapshot, r) && IsNewest(es, user, snapshot, q)
    ensures r == q
  {
    if r.Some? && q.Some? {
      assert r.value.seqno == q.value.seqno;
    }
  }

  /** Reading the newer of two stores first, and the older only on a miss, reads both. */
  lemma NewestFirst(a: iset<Entry>, b: iset<Entry>, user: UserKey, snapshot: nat, r: Option<Entry>, q: Option<Entry>)
    requires Newer(a, b)
    requires IsNewest(a, user, snapshot, r) && IsNewest(b, user, snapshot, q)
    ensures IsNewest(a + b, user, snapshot, if r.Some? then r else q)
  {
  }
}
