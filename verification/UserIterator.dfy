/** A cursor over a sorted run of entries: what every internal iterator must be. */
module Cursors {
  import opened InternalKeys

  /** The first entry at or after `target`; the length of the run if there is none. */
  function LowerBound(es: seq<Entry>, target: Entry): (n: nat)
    ensures n <= |es|
    ensures forall i :: 0 <= i < n ==> Before(es[i], target)
    ensures n < |es| ==> !Before(es[n], target)
  {
    if es == [] || !Before(es[0], target) then 0 else
      var n := LowerBound(es[1..], target);
      assert forall i :: 0 < i < n + 1 ==> es[i] == es[1..][i - 1];
      n + 1
  }

  /** Where stepping back from the boundary `n` leads; past the end when nothing is before it. */
  function Back(es: seq<Entry>, n: nat): nat {
    if n == 0 then |es| else n - 1
  }

  /** Positioned at `entries[pos]`, or not valid when `pos` is past the end. */
  class Cursor {
    const entries: seq<Entry>
    var pos: nat

    constructor (es: seq<Entry>)
      ensures entries == es && pos == |es|
    {
      entries, pos := es, |es|;
    }

    predicate Valid()
      reads this
    {
      pos < |entries|
    }

    method SeekToFirst()
      modifies this
      ensures pos == 0
    {
      pos := 0;
    }

    method SeekToLast()
      modifies this
      ensures pos == Back(entries, |entries|)
    {
      pos := Back(entries, |entries|);
    }

    method Seek(target: Entry)
      modifies this
      ensures pos == LowerBound(entries, target)
    {
      pos := LowerBound(entries, target);
    }

    method Next()
      requires Valid()
      modifies this
      ensures pos == old(pos) + 1
    {
      pos := pos + 1;
    }

    method Prev()
      requires Valid()
      modifies this
      ensures pos == Back(entries, old(pos))
    {
      pos := Back(entries, pos);
    }
  }
}

/** The iterator handed to users (db/db_iter.cc). */
module UserIterators {
  import opened Bytewise
  import opened Cursors
  import opened InternalKeys
  import opened Lookups
  import opened Options

  // ---------------------------------------------------------------- what it iterates over

  ghost predicate Hidden(es: seq<Entry>, sequence: nat, i: nat)
    requires i < |es|
  {
    exists j :: 0 <= j < i && Visible(es[j], es[i].user, sequence)
  }

  /** Entry `i` is its user key's newest visible entry, and is a value. */
  ghost predicate Shown(es: seq<Entry>, sequence: nat, i: nat) {
    i < |es| && es[i].seqno <= sequence && es[i].kind == Value && !Hidden(es, sequence, i)
  }

  /** The shown entries among the first `n`, in order. */
  ghost function View(es: seq<Entry>, sequence: nat, n: nat): (view: seq<nat>)
    ensures forall k :: 0 <= k < |view| ==> view[k] < n && Shown(es, sequence, view[k])
  {
    if n == 0 then []
    else View(es, sequence, n - 1) + if Shown(es, sequence, n - 1) then [n - 1] else []
  }

  ghost predicate NoneShown(es: seq<Entry>, sequence: nat, from: int, to: int) {
    forall i: nat :: from <= i < to ==> !Shown(es, sequence, i)
  }

  lemma {:induction false} ViewMembers(es: seq<Entry>, sequence: nat, n: nat)
    ensures forall i: nat :: i in View(es, sequence, n) <==> i < n && Shown(es, sequence, i)
  {
    if n > 0 {
      ViewMembers(es, sequence, n - 1);
    }
  }

  /** Longer views extend shorter ones, and add nothing where nothing is shown. */
  lemma {:induction false} ViewGrows(es: seq<Entry>, sequence: nat, m: nat, n: nat)
    requires m <= n
    ensures View(es, sequence, m) <= View(es, sequence, n)
    ensures NoneShown(es, sequence, m, n) ==> View(es, sequence, m) == View(es, sequence, n)
    ensures forall k :: |View(es, sequence, m)| <= k < |View(es, sequence, n)| ==> View(es, sequence, n)[k] >= m
    decreases n
  {
    if m < n {
      ViewGrows(es, sequence, m, n - 1);
    }
  }

  /** A shown entry's place in the view is the number of shown entries before it. */
  lemma ViewAt(es: seq<Entry>, sequence: nat, i: nat)
    requires i < |es| && Shown(es, sequence, i)
    ensures View(es, sequence, i + 1) == View(es, sequence, i) + [i]
    ensures |View(es, sequence, i)| < |View(es, sequence, |es|)|
    ensures View(es, sequence, |es|)[|View(es, sequence, i)|] == i
    ensures forall k :: 0 <= k < |View(es, sequence, |es|)| && View(es, sequence, |es|)[k] == i ==>
        k == |View(es, sequence, i)|
  {
    hide Shown;
    ViewGrows(es, sequence, i + 1, |es|);
  }

  /** The first shown entry from `limit` on, or the end. */
  lemma LandsForward(es: seq<Entry>, sequence: nat, limit: nat, p: nat)
    requires limit <= p <= |es| && NoneShown(es, sequence, limit, p)
    requires p < |es| ==> Shown(es, sequence, p)
    ensures var whole := View(es, sequence, |es|);
            var at := |View(es, sequence, limit)|;
            && at <= |whole|
            && (at < |whole| <==> p < |es|)
            && (p < |es| ==> whole[at] == p)
  {
    ViewGrows(es, sequence, limit, p);
    if p < |es| {
      ViewAt(es, sequence, p);
    }
  }

  /** The last shown entry before `i`, or none. */
  lemma LandsBackward(es: seq<Entry>, sequence: nat, i: nat, g: int)
    requires -1 <= g < i <= |es| && NoneShown(es, sequence, g + 1, i)
    requires g >= 0 ==> Shown(es, sequence, g)
    ensures |View(es, sequence, i)| == if g < 0 then 0 else |View(es, sequence, g)| + 1
  {
    ViewGrows(es, sequence, g + 1, i);
  }

  /**
   * The view is the map of the database at `sequence`: its keys are those that read as a
   * value, and so are its values.
   */
  lemma ViewIsWhatIsRead(es: seq<Entry>, sequence: nat, user: UserKey, value: Bytes)
    requires Sorted(es) && Unique(SeqEntries(es))
    ensures Read(SeqEntries(es), user, sequence) == Some(value)
       <==> exists i: nat :: i in View(es, sequence, |es|) && es[i].user == user && es[i].value == value
  {
    ViewMembers(es, sequence, |es|);
    if i: nat :| i in View(es, sequence, |es|) && es[i].user == user && es[i].value == value {
      ShownIsNewest(es, sequence, i);
      NewestIsUnique(SeqEntries(es), user, sequence, Newest(SeqEntries(es), user, sequence), Some(es[i]));
    }
    if Read(SeqEntries(es), user, sequence) == Some(value) {
      var e := Newest(SeqEntries(es), user, sequence).value;
      var i: nat :| i < |es| && es[i] == e;
      NewestIsShown(es, sequence, i);
      assert i in View(es, sequence, |es|);
    }
  }

  lemma ShownIsNewest(es: seq<Entry>, sequence: nat, i: nat)
    requires Sorted(es) && Shown(es, sequence, i)
    ensures IsNewest(SeqEntries(es), es[i].user, sequence, Some(es[i]))
  {
    forall e | e in SeqEntries(es) && Visible(e, es[i].user, sequence) ensures e.seqno <= es[i].seqno {
      var j :| 0 <= j < |es| && es[j] == e;
    }
  }

  lemma NewestIsShown(es: seq<Entry>, sequence: nat, i: nat)
    requires Sorted(es) && Unique(SeqEntries(es)) && i < |es| && es[i].kind == Value
    requires IsNewest(SeqEntries(es), es[i].user, sequence, Some(es[i]))
    ensures Shown(es, sequence, i)
  {
  }

  // ---------------------------------------------------------------- the iterator

  datatype Direction = Forward | Reverse

  /** No entry in `from..to` is visible. */
  ghost predicate NoneVisible(es: seq<Entry>, sequence: nat, from: int, to: int) {
    forall i :: 0 <= i < |es| && from <= i < to ==> es[i].seqno > sequence
  }

  /**
   * Among the visible entries from `pos` on, the rule "skip keys up to `skip`" singles out
   * exactly those whose key has a visible entry before `limit`.
   */
  ghost predicate Skips(es: seq<Entry>, sequence: nat, limit: nat, pos: nat, skipping: bool, skip: UserKey) {
    forall j :: pos <= j < |es| && es[j].seqno <= sequence ==>
      ((skipping && es[j].user <= skip) <==> SeenBefore(es, sequence, limit, es[j].user))
  }

  ghost predicate SeenBefore(es: seq<Entry>, sequence: nat, limit: nat, user: UserKey) {
    exists i :: 0 <= i < limit && i < |es| && Visible(es[i], user, sequence)
  }

  class DBIter {
    const iter: Cursor
    const sequence: nat
    var savedKey: UserKey
    var savedValue: Bytes
    var direction: Direction
    var valid: bool
    /** The place in the view; its length when not valid. */
    ghost var at: nat

    ghost function Whole(): seq<nat> {
      View(iter.entries, sequence, |iter.entries|)
    }

    /** The last entry the internal iterator has not gone back over, or -1. */
    function Low(): int
      reads iter
    {
      if iter.Valid() then iter.pos else -1
    }

    /** Reverse: the shown entry `g` is saved, and nothing visible lies between it and the internal iterator. */
    ghost predicate Saved(g: nat)
      reads this, iter
    {
      && Shown(iter.entries, sequence, g)
      && savedKey == iter.entries[g].user && savedValue == iter.entries[g].value
      && Low() < g
      && NoneVisible(iter.entries, sequence, Low() + 1, g)
    }

    ghost predicate Inv()
      reads this, iter
    {
      && Sorted(iter.entries) && iter.pos <= |iter.entries|
      && at <= |Whole()|
      && (valid <==> at < |Whole()|)
      && (valid && direction == Forward ==> iter.pos == Whole()[at])
      && (valid && direction == Reverse ==> Saved(Whole()[at]))
    }

    constructor (internal: Cursor, s: nat)
      requires Sorted(internal.entries) && internal.pos <= |internal.entries|
      ensures Inv() && iter == internal && sequence == s && !valid
    {
      iter, sequence, savedKey, savedValue, direction, valid := internal, s, 0.0, [], Forward, false;
      at := |View(internal.entries, s, |internal.entries|)|;
    }

    function Key(): (key: UserKey)
      requires Inv() && valid
      reads this, iter
      ensures key == iter.entries[Whole()[at]].user
    {
      if direction == Forward then iter.entries[iter.pos].user else savedKey
    }

    function Value(): (value: Bytes)
      requires Inv() && valid
      reads this, iter
      ensures value == iter.entries[Whole()[at]].value
    {
      if direction == Forward then iter.entries[iter.pos].value else savedValue
    }

    // The scans ------------------------------------------------------

    /** Move forward to the first shown entry at or after `limit`. */
    method FindNextUserEntry(skipping0: bool, skip0: UserKey, ghost limit: nat)
      requires Sorted(iter.entries) && iter.Valid() && direction == Forward
      requires iter.pos <= limit <= |iter.entries| && ValuesTo(iter.entries, sequence, iter.pos, limit)
      requires Skips(iter.entries, sequence, Max(limit, iter.pos), iter.pos, skipping0, skip0)
      modifies this`savedKey, this`valid, iter
      ensures valid <==> iter.Valid()
      ensures iter.Valid() ==> limit <= iter.pos && Shown(iter.entries, sequence, iter.pos)
      ensures iter.pos <= |iter.entries| && NoneShown(iter.entries, sequence, limit, iter.pos)
    {
      hide Skips, Shown, Sorted;
      var skipping, skip := skipping0, skip0;
      while iter.Valid()
        invariant direction == Forward
        invariant iter.pos <= |iter.entries|
        invariant ValuesTo(iter.entries, sequence, iter.pos, limit)
        invariant Skips(iter.entries, sequence, Max(limit, iter.pos), iter.pos, skipping, skip)
        invariant NoneShown(iter.entries, sequence, limit, iter.pos)
        decreases |iter.entries| - iter.pos
      {
        var e := iter.entries[iter.pos];
        ghost var skipping1, skip1 := skipping, skip;
        if e.seqno <= sequence {
          if e.kind == Deletion {
            skip, skipping := e.user, true;
          } else if skipping && e.user <= skip {
          } else {
            NotSkipped(iter.entries, sequence, limit, iter.pos, skipping, skip);
            valid, savedKey := true, 0.0;
            return;
          }
        }
        SkipsStep(iter.entries, sequence, limit, iter.pos, skipping1, skip1, skipping, skip);
        iter.Next();
      }
      savedKey, valid := 0.0, false;
    }

    /** Move back to the greatest shown entry up to the internal iterator's position, and save it. */
    method FindPrevUserEntry() returns (ghost g: int)
      requires Sorted(iter.entries) && direction == Reverse && iter.pos <= |iter.entries|
      modifies this`savedKey, this`savedValue, this`valid, this`direction, iter
      ensures iter.pos <= |iter.entries|
      ensures valid ==> direction == Reverse && 0 <= g <= old(Low()) && Saved(g)
      ensures !valid ==> g == -1
      ensures NoneShown(iter.entries, sequence, g + 1, old(Low()) + 1)
    {
      var kind := Deletion;
      ghost var top := Low();
      g := -1;
      if iter.Valid() {
        while iter.Valid()
          invariant direction == Reverse && iter.pos <= |iter.entries|
          invariant kind == Deletion ==> NoneShown(iter.entries, sequence, Low() + 1, top + 1)
          invariant kind != Deletion ==> Candidate(g, top)
          decreases Low() + 1
        {
          var e := iter.entries[iter.pos];
          if e.seqno <= sequence {
            if kind != Deletion && e.user < savedKey {
              break;
            }
            kind := e.kind;
            if kind == Deletion {
              savedKey, savedValue := 0.0, [];
            } else {
              savedKey, savedValue := e.user, e.value;
              g := iter.pos;
            }
          }
          iter.Prev();
        }
      }
      if kind == Deletion {
        valid, savedKey, savedValue, direction := false, 0.0, [], Forward;
        g := -1;
      } else {
        valid := true;
      }
    }

    // The moves ------------------------------------------------------

    method SeekToFirst()
      requires Inv()
      modifies this, iter
      ensures Inv() && at == 0
    {
      direction, savedValue := Forward, [];
      iter.SeekToFirst();
      if iter.Valid() {
        FindNextUserEntry(false, savedKey, 0);
      } else {
        valid := false;
      }
      LandsForward(iter.entries, sequence, 0, iter.pos);
      at := 0;
    }

    method Seek(target: UserKey)
      requires Inv()
      modifies this, iter
      ensures Inv()
      ensures forall k :: 0 <= k < at ==> iter.entries[Whole()[k]].user < target
      ensures forall k :: at <= k < |Whole()| ==> iter.entries[Whole()[k]].user >= target
    {
      hide Shown, Skips, Sorted, View, NoneShown;
      direction, savedValue := Forward, [];
      savedKey := 0.0;
      iter.Seek(SeekKey(target, sequence));
      ghost var start := iter.pos;
      SeekSkips(iter.entries, sequence, target);
      if iter.Valid() {
        FindNextUserEntry(false, savedKey, start);
      } else {
        valid := false;
      }
      LandsForward(iter.entries, sequence, start, iter.pos);
      ViewGrows(iter.entries, sequence, start, |iter.entries|);
      at := |View(iter.entries, sequence, start)|;
    }

    method Next()
      requires Inv() && valid
      modifies this, iter
      ensures Inv() && at == old(at) + 1
    {
      hide Shown, Skips, Sorted, View, ValuesTo, NoneShown;
      ghost var i := Whole()[at];
      ViewAt(iter.entries, sequence, i);
      if direction == Reverse {
        direction := Forward;
        if !iter.Valid() {
          iter.SeekToFirst();
        } else {
          iter.Next();
        }
        // The test for a run that ended here never succeeds: entry `i` is still ahead.
        assert iter.Valid();
      } else {
        savedKey := iter.entries[iter.pos].user;
      }
      NextSkips(iter.entries, sequence, iter.pos, i);
      FindNextUserEntry(true, savedKey, i + 1);
      LandsForward(iter.entries, sequence, i + 1, iter.pos);
      at := at + 1;
    }

    /** Go back from shown entry `i` to the first entry of a smaller key, over entries that are not visible. */
    method LeaveKey(ghost i: nat)
      requires Sorted(iter.entries) && iter.pos == i && Shown(iter.entries, sequence, i)
      requires savedKey == iter.entries[i].user
      modifies iter
      ensures iter.pos <= |iter.entries| && Low() < i
      ensures NoneVisible(iter.entries, sequence, Low() + 1, i)
    {
      while true
        invariant iter.Valid() && iter.pos <= i
        invariant forall j :: iter.pos <= j <= i ==> iter.entries[j].user == savedKey
        decreases iter.pos
      {
        iter.Prev();
        if !iter.Valid() || iter.entries[iter.pos].user < savedKey {
          NoneBefore(iter.entries, sequence, Low() + 1, i);
          return;
        }
      }
    }

    method Prev()
      requires Inv() && valid
      modifies this, iter
      ensures Inv() && at == if old(at) == 0 then |Whole()| else old(at) - 1
    {
      hide Shown, View, NoneShown, NoneVisible, Sorted;
      ghost var i := Whole()[at];
      ViewAt(iter.entries, sequence, i);
      if direction == Forward {
        savedKey := iter.entries[iter.pos].user;
        LeaveKey(i);
        if !iter.Valid() {
          NoneVisibleShown(iter.entries, sequence, 0, i);
          LandsBackward(iter.entries, sequence, i, -1);
          valid, savedKey, savedValue := false, 0.0, [];
          at := |Whole()|;
          return;
        }
        direction := Reverse;
      }
      ghost var low := Low();
      NoneVisibleShown(iter.entries, sequence, low + 1, i);
      var g := FindPrevUserEntry();
      JoinShown(iter.entries, sequence, g + 1, low + 1, i);
      LandsBackward(iter.entries, sequence, i, g);
      if valid {
        ViewAt(iter.entries, sequence, g);
        at := at - 1;
      } else {
        at := |Whole()|;
      }
    }

    method SeekToLast()
      requires Inv()
      modifies this, iter
      ensures Inv() && at == if |Whole()| == 0 then 0 else |Whole()| - 1
    {
      direction, savedValue := Reverse, [];
      iter.SeekToLast();
      var g := FindPrevUserEntry();
      LandsBackward(iter.entries, sequence, |iter.entries|, g);
      if valid {
        ViewAt(iter.entries, sequence, g);
        at := |View(iter.entries, sequence, g)|;
      } else {
        at := |Whole()|;
      }
    }

    /** The saved entry `g` is the greatest shown entry up to `top`, unless a newer one of its key follows. */
    ghost predicate Candidate(g: int, top: int)
      reads this, iter
    {
      && Low() < g <= top < |iter.entries|
      && 0 <= g && iter.entries[g].seqno <= sequence && iter.entries[g].kind == ValueType.Value
      && savedKey == iter.entries[g].user && savedValue == iter.entries[g].value
      && NoneVisible(iter.entries, sequence, Low() + 1, g)
      && NoneShown(iter.entries, sequence, g + 1, top + 1)
    }
  }

  function Max(a: nat, b: nat): nat {
    if a >= b then a else b
  }

  /** Entries in `from..to` that are visible are values. */
  ghost predicate ValuesTo(es: seq<Entry>, sequence: nat, from: nat, to: nat) {
    forall j :: from <= j < to && j < |es| ==> es[j].seqno > sequence || es[j].kind == Value
  }

  /** Passing over one entry keeps the skip rule exact. */
  lemma SkipsStep(es: seq<Entry>, sequence: nat, limit: nat, pos: nat, skipping: bool, skip: UserKey, skipping': bool,
                  skip': UserKey)
    requires Sorted(es) && pos < |es| && ValuesTo(es, sequence, pos, limit)
    requires Skips(es, sequence, Max(limit, pos), pos, skipping, skip)
    requires if es[pos].seqno <= sequence && es[pos].kind == Deletion then skipping' && skip' == es[pos].user
             else skipping' == skipping && skip' == skip
    requires es[pos].seqno <= sequence && es[pos].kind == Value ==> skipping && es[pos].user <= skip
    ensures Skips(es, sequence, Max(limit, pos + 1), pos + 1, skipping', skip')
    ensures limit <= pos ==> !Shown(es, sequence, pos)
  {
  }

  lemma NotSkipped(es: seq<Entry>, sequence: nat, limit: nat, pos: nat, skipping: bool, skip: UserKey)
    requires pos < |es| && Skips(es, sequence, Max(limit, pos), pos, skipping, skip)
    requires es[pos].seqno <= sequence && es[pos].kind == Value && !(skipping && es[pos].user <= skip)
    ensures limit <= pos && Shown(es, sequence, pos)
  {
    assert !Visible(es[pos], es[pos].user, sequence) || limit <= pos;
  }

  /** Where a seek starts, no key from there on has a visible entry before. */
  lemma SeekSkips(es: seq<Entry>, sequence: nat, target: UserKey)
    requires Sorted(es)
    ensures var start := LowerBound(es, SeekKey(target, sequence));
            && Skips(es, sequence, start, start, false, 0.0)
            && (forall i: nat :: i < start && Shown(es, sequence, i) ==> es[i].user < target)
            && (forall i: nat :: start <= i < |es| ==> es[i].user >= target)
  {
    var start := LowerBound(es, SeekKey(target, sequence));
    forall i: nat | i < start ensures es[i].user < target || (es[i].user == target && es[i].seqno > sequence) {
      assert Before(es[i], SeekKey(target, sequence));
    }
    forall i: nat | start <= i < |es| ensures es[i].user >= target {
      assert !Before(es[start], SeekKey(target, sequence));
      assert start < i ==> Before(es[start], es[i]);
    }
  }

  /** Going on from shown entry `i`, its key is what to skip. */
  lemma NextSkips(es: seq<Entry>, sequence: nat, pos: nat, i: nat)
    requires Sorted(es) && Shown(es, sequence, i) && pos <= i && NoneVisible(es, sequence, pos, i)
    ensures Skips(es, sequence, i + 1, pos, true, es[i].user)
    ensures ValuesTo(es, sequence, pos, i + 1)
  {
    hide Sorted, SeenBefore;
    forall j | pos <= j < |es| && es[j].seqno <= sequence
      ensures es[j].user <= es[i].user <==> SeenBefore(es, sequence, i + 1, es[j].user)
    {
      assert i <= j;
      SeenByThen(es, sequence, i, j);
    }
  }

  lemma SeenByThen(es: seq<Entry>, sequence: nat, i: nat, j: nat)
    requires Sorted(es) && i <= j < |es| && es[i].seqno <= sequence
    ensures es[j].user <= es[i].user <==> SeenBefore(es, sequence, i + 1, es[j].user)
  {
    InKeyOrder(es, i, j);
    if es[j].user <= es[i].user {
      assert Visible(es[i], es[j].user, sequence);
    }
    if SeenBefore(es, sequence, i + 1, es[j].user) {
      var k :| 0 <= k < i + 1 && k < |es| && Visible(es[k], es[j].user, sequence);
      InKeyOrder(es, k, i);
    }
  }

  lemma InKeyOrder(es: seq<Entry>, i: nat, j: nat)
    requires Sorted(es) && i <= j < |es|
    ensures es[i].user <= es[j].user
  {
    assert i == j || Before(es[i], es[j]);
  }

  lemma NoneVisibleShown(es: seq<Entry>, sequence: nat, from: int, to: int)
    requires NoneVisible(es, sequence, from, to)
    ensures NoneShown(es, sequence, from, to)
  {
  }

  lemma JoinShown(es: seq<Entry>, sequence: nat, from: int, mid: int, to: int)
    requires NoneShown(es, sequence, from, mid) && NoneShown(es, sequence, mid, to)
    ensures NoneShown(es, sequence, from, to)
  {
  }

  /** Entries of a shown entry's key before it are not visible. */
  lemma NoneBefore(es: seq<Entry>, sequence: nat, from: nat, i: nat)
    requires Shown(es, sequence, i) && from <= i
    requires forall j :: from <= j <= i ==> es[j].user == es[i].user
    ensures NoneVisible(es, sequence, from, i)
  {
    forall j | from <= j < i ensures es[j].seqno > sequence {
      assert !Visible(es[j], es[i].user, sequence);
    }
  }
}
