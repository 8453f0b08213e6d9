/** VersionSet::Builder: applying edits to a version (db/version_set.cc). */
module VersionBuilder {
  import opened InternalKeys
  import opened Versions

  /** BySmallestKey. */
  predicate BySmallest(a: Table, b: Table) {
    Before(a.smallest, b.smallest) || (!Before(b.smallest, a.smallest) && a.number < b.number)
  }

  ghost predicate SortedBySmallest(ts: Level) {
    forall i, j :: 0 <= i < j < |ts| ==> BySmallest(ts[i], ts[j])
  }

  /** The files of one level after an edit: what was there and what was added, less the deleted. */
  ghost predicate Saved(base: Level, added: Level, deleted: set<nat>, r: Level) {
    && SortedBySmallest(r)
    && forall t :: t in r <==> (t in base || t in added) && t.number !in deleted
  }

  /** MaybeAddFile over a run of files. */
  function Filter(ts: Level, deleted: set<nat>): Level {
    if ts == [] then []
    else Filter(ts[..|ts| - 1], deleted) + if ts[|ts| - 1].number in deleted then [] else [ts[|ts| - 1]]
  }

  lemma {:induction false} FilterSaved(ts: Level, deleted: set<nat>)
    requires SortedBySmallest(ts)
    ensures Saved(ts, [], deleted, Filter(ts, deleted))
  {
    if ts != [] {
      var init := ts[..|ts| - 1];
      FilterSaved(init, deleted);
      assert ts == init + [ts[|ts| - 1]];
      assert forall i :: 0 <= i < |Filter(init, deleted)| ==> Filter(init, deleted)[i] in init;
    }
  }

  /** std::upper_bound from `from`: the first file that sorts after `f`. */
  method UpperBound(base: Level, from: nat, f: Table) returns (r: nat)
    requires SortedBySmallest(base) && from <= |base|
    ensures from <= r <= |base|
    ensures forall i :: from <= i < r ==> !BySmallest(f, base[i])
    ensures forall i :: r <= i < |base| ==> BySmallest(f, base[i])
  {
    var lo, hi := from, |base|;
    while lo < hi
      invariant from <= lo <= hi <= |base|
      invariant forall i :: from <= i < lo ==> !BySmallest(f, base[i])
      invariant forall i :: hi <= i < |base| ==> BySmallest(f, base[i])
    {
      var mid := (lo + hi) / 2;
      assert forall i :: from <= i < mid ==> BySmallest(base[i], base[mid]);
      assert forall i :: mid < i < |base| ==> BySmallest(base[mid], base[i]);
      if BySmallest(f, base[mid]) {
        hi := mid;
      } else {
        lo := mid + 1;
      }
    }
    r := lo;
  }

  /** Every file merged so far sorts before the files still to come from either run. */
  ghost predicate Merged(base: Level, b: nat, added: Level, a: nat, merged: Level)
    requires b <= |base| && a <= |added|
  {
    && SortedBySmallest(merged)
    && (forall t :: t in merged <==> t in base[..b] || t in added[..a])
    && (forall t, i :: t in merged && b <= i < |base| ==> BySmallest(t, base[i]))
    && (forall t, i :: t in merged && a <= i < |added| ==> BySmallest(t, added[i]))
  }

  lemma TakeBase(base: Level, b: nat, added: Level, a: nat, merged: Level)
    requires b < |base| && a <= |added| && Merged(base, b, added, a, merged)
    requires SortedBySmallest(base)
    requires forall i :: a <= i < |added| ==> BySmallest(base[b], added[i])
    ensures Merged(base, b + 1, added, a, merged + [base[b]])
  {
    assert base[..b + 1] == base[..b] + [base[b]];
    assert forall i :: 0 <= i < |merged| ==> merged[i] in merged;
  }

  lemma TakeAdded(base: Level, b: nat, added: Level, a: nat, merged: Level)
    requires b <= |base| && a < |added| && Merged(base, b, added, a, merged)
    requires SortedBySmallest(added)
    requires forall i :: b <= i < |base| ==> BySmallest(added[a], base[i])
    ensures Merged(base, b, added, a + 1, merged + [added[a]])
  {
    assert added[..a + 1] == added[..a] + [added[a]];
    assert forall i :: 0 <= i < |merged| ==> merged[i] in merged;
  }

  /**
   * Builder::SaveTo for one level: merging the sorted added files into the sorted base
   * files, and leaving out the deleted ones, gives the edited level in order.
   */
  method SaveTo(base: Level, added: Level, deleted: set<nat>) returns (r: Level)
    requires SortedBySmallest(base) && SortedBySmallest(added)
    requires forall s, t :: s in base && t in added ==> s.number != t.number
    ensures Saved(base, added, deleted, r)
  {
    ghost var merged: Level := [];
    r := [];
    var b := 0;
    for a := 0 to |added|
      invariant b <= |base|
      invariant Merged(base, b, added, a, merged)
      invariant r == Filter(merged, deleted)
    {
      var bpos := UpperBound(base, b, added[a]);
      while b < bpos
        invariant b <= bpos <= |base|
        invariant Merged(base, b, added, a, merged)
        invariant r == Filter(merged, deleted)
        invariant forall i :: b <= i < bpos ==> !BySmallest(added[a], base[i])
      {
        BaseFirst(base, b, added, a);
        TakeBase(base, b, added, a, merged);
        r, merged := MaybeAdd(r, merged, base[b], deleted);
        b := b + 1;
      }
      TakeAdded(base, b, added, a, merged);
      r, merged := MaybeAdd(r, merged, added[a], deleted);
    }
    while b < |base|
      invariant b <= |base|
      invariant Merged(base, b, added, |added|, merged)
      invariant r == Filter(merged, deleted)
    {
      TakeBase(base, b, added, |added|, merged);
      r, merged := MaybeAdd(r, merged, base[b], deleted);
      b := b + 1;
    }
    assert base[..b] == base && added[..|added|] == added;
    FilterSaved(merged, deleted);
  }

  /** A base file that is not after the next added file sorts before all added ones to come. */
  lemma BaseFirst(base: Level, b: nat, added: Level, a: nat)
    requires b < |base| && a < |added| && SortedBySmallest(added)
    requires base[b] in base && added[a] in added && forall s, t :: s in base && t in added ==> s.number != t.number
    requires !BySmallest(added[a], base[b])
    ensures forall i :: a <= i < |added| ==> BySmallest(base[b], added[i])
  {
    assert base[b].number != added[a].number;
    forall i | a <= i < |added| ensures BySmallest(base[b], added[i]) {
      assert i == a || BySmallest(added[a], added[i]);
    }
  }

  method MaybeAdd(r: Level, ghost merged: Level, t: Table, deleted: set<nat>) returns (r': Level, ghost merged': Level)
    requires r == Filter(merged, deleted)
    ensures merged' == merged + [t]
    ensures r' == Filter(merged', deleted)
  {
    merged' := merged + [t];
    assert merged'[..|merged|] == merged;
    r' := if t.number in deleted then r else r + [t];
  }

  /** A set of files has one sorted listing. */
  lemma {:induction false} SortedListingUnique(p: Level, q: Level)
    requires SortedBySmallest(p) && SortedBySmallest(q)
    requires forall t :: t in p <==> t in q
    ensures p == q
  {
    assert p != [] ==> p[0] in q;
    assert q != [] ==> q[0] in p;
    if p != [] {
      var i :| 0 <= i < |q| && q[i] == p[0];
      var j :| 0 <= j < |p| && p[j] == q[0];
      assert p[0] == q[0];
      forall t ensures t in p[1..] <==> t in q[1..] {
        Rest(p, t);
        Rest(q, t);
      }
      SortedListingUnique(p[1..], q[1..]);
    }
  }

  lemma Rest(p: Level, t: Table)
    requires SortedBySmallest(p) && p != []
    ensures t in p[1..] <==> t in p && t != p[0]
  {
    assert p == [p[0]] + p[1..];
    if t in p[1..] {
      var i :| 0 <= i < |p| - 1 && p[1..][i] == t;
      assert BySmallest(p[0], p[i + 1]);
    }
  }
}
