/** The iterator that merges several sorted runs (table/merger.cc). */
module Merging {
  import opened Cursors
  import opened InternalKeys

  /** Entry `e` comes before position `p` of the merged run. */
  predicate Under(e: Entry, all: seq<Entry>, p: nat) {
    p < |all| ==> Before(e, all[p])
  }

  /** Position `n` splits the run `es` where position `p` splits the merged run. */
  ghost predicate SplitAt(es: seq<Entry>, all: seq<Entry>, p: nat, n: nat) {
    && n <= |es| && p <= |all|
    && forall k :: 0 <= k < |es| ==> (k < n <==> Under(es[k], all, p))
  }

  /** `all` is the sorted merge of the runs, in which no internal key occurs twice. */
  ghost predicate IsMerge(runs: seq<seq<Entry>>, all: seq<Entry>) {
    && Sorted(all)
    && (forall i, e :: 0 <= i < |runs| && e in runs[i] ==> e in all)
    && (forall e :: e in all ==> exists i :: 0 <= i < |runs| && e in runs[i])
    && (forall i :: 0 <= i < |runs| ==> Sorted(runs[i]))
    && forall i, j, e :: 0 <= i < j < |runs| && e in runs[i] ==> e !in runs[j]
  }

  // ---------------------------------------------------------------- every set of runs has a merge

  predicate Apart(a: Entry, b: Entry) {
    Before(a, b) || Before(b, a)
  }

  function Merge(a: seq<Entry>, b: seq<Entry>): seq<Entry> {
    if a == [] then b
    else if b == [] then a
    else if Before(a[0], b[0]) then [a[0]] + Merge(a[1..], b)
    else [b[0]] + Merge(a, b[1..])
  }

  lemma {:induction false} MergeMembers(a: seq<Entry>, b: seq<Entry>)
    ensures forall e :: e in Merge(a, b) <==> e in a || e in b
  {
    if a != [] && b != [] {
      if Before(a[0], b[0]) {
        MergeMembers(a[1..], b);
        assert a == [a[0]] + a[1..];
      } else {
        MergeMembers(a, b[1..]);
        assert b == [b[0]] + b[1..];
      }
    }
  }

  lemma SortedCons(e: Entry, es: seq<Entry>)
    requires Sorted(es) && forall x :: x in es ==> Before(e, x)
    ensures Sorted([e] + es)
  {
  }

  lemma SortedRest(es: seq<Entry>)
    requires Sorted(es) && es != []
    ensures Sorted(es[1..]) && forall x :: x in es[1..] ==> Before(es[0], x)
  {
  }

  lemma {:induction false} MergeSorted(a: seq<Entry>, b: seq<Entry>)
    requires Sorted(a) && Sorted(b) && forall x, y :: x in a && y in b ==> Apart(x, y)
    ensures Sorted(Merge(a, b))
  {
    hide Sorted;
    if a != [] && b != [] {
      SortedRest(a);
      SortedRest(b);
      if Before(a[0], b[0]) {
        MergeSorted(a[1..], b);
        MergeMembers(a[1..], b);
        assert forall x :: x in b ==> x == b[0] || x in b[1..];
        SortedCons(a[0], Merge(a[1..], b));
      } else {
        assert Apart(a[0], b[0]);
        MergeSorted(a, b[1..]);
        MergeMembers(a, b[1..]);
        assert forall x :: x in a ==> x == a[0] || x in a[1..];
        SortedCons(b[0], Merge(a, b[1..]));
      }
    }
  }

  lemma EmptySorted()
    ensures Sorted([])
  {
  }

  lemma NotInTwo(runs: seq<seq<Entry>>)
    requires forall i, j, x, y :: 0 <= i < j < |runs| && x in runs[i] && y in runs[j] ==> Apart(x, y)
    ensures forall i, j, e :: 0 <= i < j < |runs| && e in runs[i] ==> e !in runs[j]
  {
    forall i, j, e | 0 <= i < j < |runs| && e in runs[i] ensures e !in runs[j] {
      assert !Apart(e, e);
    }
  }

  /** Sorted runs whose keys are pairwise distinct can be merged. */
  lemma {:induction false} MergeExists(runs: seq<seq<Entry>>) returns (all: seq<Entry>)
    requires forall i :: 0 <= i < |runs| ==> Sorted(runs[i])
    requires forall i, j, x, y :: 0 <= i < j < |runs| && x in runs[i] && y in runs[j] ==> Apart(x, y)
    ensures IsMerge(runs, all)
  {
    hide Sorted, Apart, Merge;
    NotInTwo(runs);
    if runs == [] {
      EmptySorted();
      all := [];
    } else {
      var rest := MergeExists(runs[1..]);
      all := Merge(runs[0], rest);
      MergeMembers(runs[0], rest);
      forall x, y | x in runs[0] && y in rest ensures Apart(x, y) {
        var i :| 0 <= i < |runs[1..]| && y in runs[1..][i];
      }
      MergeSorted(runs[0], rest);
      forall e | e in all ensures exists i :: 0 <= i < |runs| && e in runs[i] {
        if e in rest {
          var i :| 0 <= i < |runs[1..]| && e in runs[1..][i];
          assert e in runs[i + 1];
        }
      }
      forall i, e | 0 <= i < |runs| && e in runs[i] ensures e in all {
        assert i > 0 ==> runs[i] == runs[1..][i - 1];
      }
    }
  }

  /** One step back from where `p` splits the run. */
  ghost predicate SteppedBack(es: seq<Entry>, all: seq<Entry>, p: nat, n: nat) {
    exists b :: SplitAt(es, all, p, b) && n == Back(es, b)
  }

  // ---------------------------------------------------------------- one run in the merge

  ghost predicate Within(es: seq<Entry>, all: seq<Entry>) {
    Sorted(es) && Sorted(all) && forall e :: e in es ==> e in all
  }

  lemma UnderNext(e: Entry, all: seq<Entry>, p: nat)
    requires Sorted(all) && e in all && p < |all|
    ensures Under(e, all, p + 1) <==> Under(e, all, p) || e == all[p]
    ensures !Under(e, all, p + 1) <==> Before(all[p], e)
  {
    var i :| 0 <= i < |all| && all[i] == e;
  }

  /** The entry at `p` of the merge is the run's entry at the split, or comes before it. */
  lemma SplitHead(es: seq<Entry>, all: seq<Entry>, p: nat, n: nat)
    requires Within(es, all) && SplitAt(es, all, p, n) && p < |all|
    ensures n < |es| ==> es[n] == all[p] || Before(all[p], es[n])
    ensures all[p] in es ==> n < |es| && es[n] == all[p] && SplitAt(es, all, p + 1, n + 1)
    ensures all[p] !in es ==> SplitAt(es, all, p + 1, n)
  {
    hide Under;
    forall k | 0 <= k < |es|
      ensures Under(es[k], all, p + 1) <==> Under(es[k], all, p) || es[k] == all[p]
      ensures !Under(es[k], all, p + 1) <==> Before(all[p], es[k])
    {
      UnderNext(es[k], all, p);
    }
    NotUnderItself(all, p);
  }

  lemma NotUnderItself(all: seq<Entry>, p: nat)
    requires p < |all|
    ensures !Under(all[p], all, p)
  {
  }

  /** The entry before `p` in the merge is the run's entry before the split, or comes after it. */
  lemma SplitTail(es: seq<Entry>, all: seq<Entry>, p: nat, b: nat)
    requires Within(es, all) && SplitAt(es, all, p + 1, b) && p < |all|
    ensures b > 0 ==> es[b - 1] == all[p] || Before(es[b - 1], all[p])
    ensures all[p] in es ==> b > 0 && es[b - 1] == all[p] && SplitAt(es, all, p, b - 1)
    ensures all[p] !in es ==> SplitAt(es, all, p, b)
  {
    hide Under;
    forall k | 0 <= k < |es|
      ensures Under(es[k], all, p + 1) <==> Under(es[k], all, p) || es[k] == all[p]
      ensures !Under(es[k], all, p + 1) <==> Before(all[p], es[k])
    {
      UnderNext(es[k], all, p);
    }
    NotUnderItself(all, p);
    if b > 0 && es[b - 1] != all[p] {
      UnderIsBefore(es[b - 1], all, p);
    }
  }

  lemma UnderIsBefore(e: Entry, all: seq<Entry>, p: nat)
    requires p < |all| && Under(e, all, p)
    ensures Before(e, all[p])
  {
  }

  lemma SplitSeek(es: seq<Entry>, all: seq<Entry>, target: Entry)
    requires Within(es, all)
    ensures SplitAt(es, all, LowerBound(all, target), LowerBound(es, target))
  {
    hide Under;
    var p, n := LowerBound(all, target), LowerBound(es, target);
    forall k | 0 <= k < |es| ensures k < n <==> Under(es[k], all, p) {
      UnderSeek(es[k], all, target);
      UnderSorted(es, k, target);
    }
  }

  lemma UnderSeek(e: Entry, all: seq<Entry>, target: Entry)
    requires Sorted(all) && e in all
    ensures Under(e, all, LowerBound(all, target)) <==> Before(e, target)
  {
    var i :| 0 <= i < |all| && all[i] == e;
    UnderSorted(all, i, target);
    var p := LowerBound(all, target);
    assert p < i < |all| ==> Before(all[p], all[i]);
    assert i < p < |all| ==> Before(all[i], all[p]);
  }

  lemma UnderSorted(es: seq<Entry>, k: nat, target: Entry)
    requires Sorted(es) && k < |es|
    ensures k < LowerBound(es, target) <==> Before(es[k], target)
  {
    hide LowerBound, Tag;
    var n := LowerBound(es, target);
    assert n < k ==> Before(es[n], es[k]);
  }

  lemma SplitEnds(es: seq<Entry>, all: seq<Entry>)
    requires Within(es, all)
    ensures SplitAt(es, all, 0, 0) && SplitAt(es, all, |all|, |es|)
  {
    forall k | 0 <= k < |es| ensures !Under(es[k], all, 0) {
      assert es[k] in all;
    }
  }

  class MergingIterator {
    const children: seq<Cursor>
    /** The index of the child that holds the current entry; -1 when not valid. */
    var current: int
    var forward: bool
    ghost const all: seq<Entry>
    /** The position in the merged run; its length when not valid. */
    ghost var at: nat

    ghost function Runs(): seq<seq<Entry>> {
      seq(|children|, i requires 0 <= i < |children| => children[i].entries)
    }

    /** Every child stands where position `p` splits its run. */
    ghost predicate Ahead(p: nat)
      reads children
    {
      forall i :: 0 <= i < |children| ==> SplitAt(children[i].entries, all, p, children[i].pos)
    }

    /** Every child stands one step back from there. */
    ghost predicate Behind(p: nat)
      reads children
    {
      forall i :: 0 <= i < |children| ==> SteppedBack(children[i].entries, all, p, children[i].pos)
    }

    ghost predicate Structure() {
      && IsMerge(Runs(), all)
      && forall i, j :: 0 <= i < j < |children| ==> children[i] != children[j]
    }

    ghost predicate AtCurrent()
      reads this, children
    {
      if at < |all| then
        && 0 <= current < |children| && children[current].Valid()
        && children[current].entries[children[current].pos] == all[at]
      else current == -1
    }

    ghost predicate Inv()
      reads this, children
    {
      && Structure()
      && at <= |all|
      && AtCurrent()
      && (at < |all| ==> if forward then Ahead(at) else Behind(at + 1))
    }

    function Valid(): bool
      requires Inv()
      reads this, children
      ensures Valid() <==> at < |all|
    {
      current != -1
    }

    function Key(): (e: Entry)
      requires Inv() && Valid()
      reads this, children
      ensures e == all[at]
    {
      children[current].entries[children[current].pos]
    }

    constructor (cursors: seq<Cursor>, ghost merged: seq<Entry>)
      requires forall i, j :: 0 <= i < j < |cursors| ==> cursors[i] != cursors[j]
      requires IsMerge(seq(|cursors|, i requires 0 <= i < |cursors| => cursors[i].entries), merged)
      ensures Inv() && children == cursors && all == merged && !Valid()
    {
      children, current, forward, all, at := cursors, -1, true, merged, |merged|;
    }

    lemma RunWithin(i: nat)
      requires Structure() && i < |children|
      ensures Within(children[i].entries, all)
    {
      assert Runs()[i] == children[i].entries;
    }

    /** Exactly one child's run holds the entry at `p`. */
    lemma Holder(p: nat) returns (h: nat)
      requires Structure() && p < |all|
      ensures h < |children| && all[p] in children[h].entries
      ensures forall i :: 0 <= i < |children| && i != h ==> all[p] !in children[i].entries
    {
      assert all[p] in all;
      h :| h < |Runs()| && all[p] in Runs()[h];
      forall i | 0 <= i < |children| && i != h ensures all[p] !in children[i].entries {
        assert Runs()[i] == children[i].entries;
      }
    }

    method FindSmallest()
      requires Structure() && at <= |all| && Ahead(at)
      modifies this`current
      ensures AtCurrent()
    {
      current := -1;
      for i := 0 to |children|
        invariant -1 <= current < i
        invariant current == -1 ==> forall j :: 0 <= j < i ==> !children[j].Valid()
        invariant current != -1 ==> children[current].Valid()
        invariant current != -1 ==> forall j :: 0 <= j < i && children[j].Valid() ==> !Before(At(j), At(current))
      {
        if children[i].Valid() {
          if current == -1 || Before(At(i), At(current)) {
            current := i;
          }
        }
      }
      SmallestIsNext();
    }

    /** The entry a valid child stands at. */
    function At(i: nat): Entry
      requires i < |children| && children[i].Valid()
      reads children
    {
      children[i].entries[children[i].pos]
    }

    lemma SmallestIsNext()
      requires Structure() && at <= |all| && Ahead(at) && -1 <= current < |children|
      requires current == -1 ==> forall j :: 0 <= j < |children| ==> !children[j].Valid()
      requires current != -1 ==> children[current].Valid()
      requires current != -1 ==> forall j :: 0 <= j < |children| && children[j].Valid() ==> !Before(At(j), At(current))
      ensures AtCurrent()
    {
      if at < |all| {
        var h := Holder(at);
        forall i | 0 <= i < |children| ensures children[i].Valid() ==> At(i) == all[at] || Before(all[at], At(i)) {
          RunWithin(i);
          SplitHead(children[i].entries, all, at, children[i].pos);
        }
        RunWithin(h);
        SplitHead(children[h].entries, all, at, children[h].pos);
        assert At(h) == all[at];
      }
    }

    method SeekToFirst()
      requires Inv()
      modifies this, children
      ensures Inv() && at == 0
    {
      for i := 0 to |children|
        invariant forall j :: 0 <= j < i ==> children[j].pos == 0
      {
        children[i].SeekToFirst();
      }
      at := 0;
      forall i | 0 <= i < |children| ensures SplitAt(children[i].entries, all, 0, children[i].pos) {
        RunWithin(i);
        SplitEnds(children[i].entries, all);
      }
      FindSmallest();
      forward := true;
    }

    method FindLargest(ghost p: nat)
      requires Structure() && p <= |all| && Behind(p)
      modifies this`current, this`at
      ensures at == (if p == 0 then |all| else p - 1) && AtCurrent()
    {
      current := -1;
      for i := |children| downto 0
        invariant -1 <= current < |children| && (current == -1 || i <= current)
        invariant current == -1 ==> forall j :: i <= j < |children| ==> !children[j].Valid()
        invariant current != -1 ==> children[current].Valid()
        invariant current != -1 ==> forall j :: i <= j < |children| && children[j].Valid() ==>
            !Before(At(current), At(j))
      {
        if children[i].Valid() {
          if current == -1 || Before(At(current), At(i)) {
            current := i;
          }
        }
      }
      at := if p == 0 then |all| else p - 1;
      LargestIsPrevious(p);
    }

    lemma BackTail(p: nat, i: nat)
      requires Structure() && p < |all| && Behind(p + 1) && i < |children|
      ensures children[i].Valid() ==> At(i) == all[p] || Before(At(i), all[p])
      ensures all[p] in children[i].entries ==> children[i].Valid() && At(i) == all[p]
      ensures all[p] in children[i].entries ==> SplitAt(children[i].entries, all, p, children[i].pos)
      ensures all[p] !in children[i].entries ==> SteppedBack(children[i].entries, all, p, children[i].pos)
    {
      RunWithin(i);
      assert SteppedBack(children[i].entries, all, p + 1, children[i].pos);
      var b :| SplitAt(children[i].entries, all, p + 1, b) && children[i].pos == Back(children[i].entries, b);
      SplitTail(children[i].entries, all, p, b);
    }

    lemma NothingBack(i: nat)
      requires Structure() && Behind(0) && i < |children|
      ensures !children[i].Valid()
    {
      RunWithin(i);
      SplitEnds(children[i].entries, all);
      assert SteppedBack(children[i].entries, all, 0, children[i].pos);
      var b :| SplitAt(children[i].entries, all, 0, b) && children[i].pos == Back(children[i].entries, b);
      SplitUnique(children[i].entries, all, 0, 0, b);
    }

    lemma LargestIsPrevious(p: nat)
      requires Structure() && p <= |all| && Behind(p) && -1 <= current < |children|
      requires at == if p == 0 then |all| else p - 1
      requires current == -1 ==> forall j :: 0 <= j < |children| ==> !children[j].Valid()
      requires current != -1 ==> children[current].Valid()
      requires current != -1 ==> forall j :: 0 <= j < |children| && children[j].Valid() ==> !Before(At(current), At(j))
      ensures AtCurrent()
    {
      hide SteppedBack;
      if p > 0 {
        var h := Holder(at);
        forall i | 0 <= i < |children| ensures children[i].Valid() ==> At(i) == all[at] || Before(At(i), all[at]) {
          BackTail(at, i);
        }
        BackTail(at, h);
        assert At(h) == all[at];
      } else {
        forall i | 0 <= i < |children| ensures !children[i].Valid() {
          NothingBack(i);
        }
      }
    }

    method SeekToLast()
      requires Inv()
      modifies this, children
      ensures Inv() && at == if |all| == 0 then 0 else |all| - 1
    {
      for i := 0 to |children|
        invariant forall j :: 0 <= j < i ==> children[j].pos == Back(children[j].entries, |children[j].entries|)
      {
        children[i].SeekToLast();
      }
      forall i | 0 <= i < |children| ensures SteppedBack(children[i].entries, all, |all|, children[i].pos) {
        RunWithin(i);
        SplitEnds(children[i].entries, all);
      }
      FindLargest(|all|);
      forward := false;
    }

    method Seek(target: Entry)
      requires Inv()
      modifies this, children
      ensures Inv() && at == LowerBound(all, target)
    {
      for i := 0 to |children|
        invariant forall j :: 0 <= j < i ==> children[j].pos == LowerBound(children[j].entries, target)
      {
        children[i].Seek(target);
      }
      at := LowerBound(all, target);
      forall i | 0 <= i < |children| ensures SplitAt(children[i].entries, all, at, children[i].pos) {
        RunWithin(i);
        SplitSeek(children[i].entries, all, target);
      }
      FindSmallest();
      forward := true;
    }

    /** A seek to the current key puts any other child where that key splits its run, beyond the key. */
    lemma SoughtOther(i: nat)
      requires Structure() && at < |all| && AtCurrent() && i < |children| && i != current
      ensures var es := children[i].entries;
              var n := LowerBound(es, all[at]);
              SplitAt(es, all, at, n) && SplitAt(es, all, at + 1, n) && (n < |es| ==> Before(all[at], es[n]))
    {
      RunWithin(i);
      SplitSeek(children[i].entries, all, all[at]);
      UnderSorted(all, at, all[at]);
      assert LowerBound(all, all[at]) == at;
      var h := Holder(at);
      assert At(current) == all[at] && h == current;
      SplitHead(children[i].entries, all, at, LowerBound(children[i].entries, all[at]));
    }

    /** The current child stands at the current entry, wherever the others are. */
    lemma CurrentSplit()
      requires Structure() && at < |all| && AtCurrent()
      ensures SplitAt(children[current].entries, all, at, children[current].pos)
    {
      RunWithin(current);
      var es, n := children[current].entries, children[current].pos;
      forall k | 0 <= k < |es| ensures k < n <==> Under(es[k], all, at) {
        assert k < n ==> Before(es[k], es[n]);
        assert n < k ==> Before(es[n], es[k]);
      }
    }

    /** Turning round: every other child is put after the current entry. */
    method TurnForward()
      requires Inv() && Valid() && !forward
      modifies this`forward, children
      ensures Inv() && forward && current == old(current)
    {
      hide SplitAt, LowerBound, SteppedBack, Before, IsMerge;
      var key := Key();
      for i := 0 to |children|
        invariant Structure() && AtCurrent()
        invariant forall j :: 0 <= j < i && j != current ==> SplitAt(children[j].entries, all, at, children[j].pos)
      {
        if i != current {
          children[i].Seek(key);
          ghost var n := children[i].pos;
          if children[i].Valid() && !Before(key, At(i)) && !Before(At(i), key) {
            children[i].Next();
          }
          SoughtOther(i);
          assert n == LowerBound(children[i].entries, all[at]);
        }
      }
      CurrentSplit();
      forward := true;
    }

    /** Turning round: every other child is put before the current entry. */
    method TurnBackward()
      requires Inv() && Valid() && forward
      modifies this`forward, children
      ensures Inv() && !forward && current == old(current)
    {
      hide SplitAt, LowerBound, SteppedBack, Before, IsMerge;
      var key := Key();
      for i := 0 to |children|
        invariant Structure() && AtCurrent()
        invariant forall j :: 0 <= j < i && j != current ==>
            SteppedBack(children[j].entries, all, at + 1, children[j].pos)
      {
        if i != current {
          children[i].Seek(key);
          ghost var n := children[i].pos;
          SoughtOther(i);
          if children[i].Valid() {
            children[i].Prev();
          } else {
            children[i].SeekToLast();
          }
          StepsBack(children[i].entries, all, at + 1, n);
        }
      }
      CurrentStepped();
      forward := false;
    }

    lemma CurrentStepped()
      requires Structure() && at < |all| && AtCurrent()
      ensures SteppedBack(children[current].entries, all, at + 1, children[current].pos)
    {
      CurrentSplit();
      RunWithin(current);
      SplitHead(children[current].entries, all, at, children[current].pos);
      assert SplitAt(children[current].entries, all, at + 1, children[current].pos + 1);
    }

    /** Moving the current child on moves every split one entry on. */
    lemma AllAdvance()
      requires Inv() && Valid() && forward
      ensures forall i :: 0 <= i < |children| ==>
                SplitAt(children[i].entries, all, at + 1, if i == current then children[i].pos + 1 else children[i].pos)
    {
      var h := Holder(at);
      assert At(current) == all[at] && h == current;
      forall i | 0 <= i < |children|
        ensures SplitAt(children[i].entries, all, at + 1, if i == current then children[i].pos + 1 else children[i].pos)
      {
        RunWithin(i);
        SplitHead(children[i].entries, all, at, children[i].pos);
      }
    }

    lemma AllRetreat()
      requires Inv() && Valid() && !forward
      ensures forall i :: 0 <= i < |children| ==>
                SteppedBack(children[i].entries, all, at,
                            if i == current then Back(children[i].entries, children[i].pos) else children[i].pos)
    {
      var h := Holder(at);
      assert At(current) == all[at] && h == current;
      forall i | 0 <= i < |children|
        ensures SteppedBack(children[i].entries, all, at,
                            if i == current then Back(children[i].entries, children[i].pos) else children[i].pos)
      {
        BackTail(at, i);
        if i == current {
          StepsBack(children[i].entries, all, at, children[i].pos);
        }
      }
    }

    method Next()
      requires Inv() && Valid()
      modifies this, children
      ensures Inv() && at == old(at) + 1
    {
      hide SplitAt, SteppedBack, IsMerge, Before, Under;
      if !forward {
        TurnForward();
      }
      AllAdvance();
      children[current].Next();
      at := at + 1;
      FindSmallest();
    }

    method Prev()
      requires Inv() && Valid()
      modifies this, children
      ensures Inv() && at == if old(at) == 0 then |all| else old(at) - 1
    {
      hide SplitAt, SteppedBack, IsMerge, Before, Under;
      if forward {
        TurnBackward();
      }
      AllRetreat();
      children[current].Prev();
      FindLargest(at);
    }
  }

  lemma SplitUnique(es: seq<Entry>, all: seq<Entry>, p: nat, m: nat, n: nat)
    requires SplitAt(es, all, p, m) && SplitAt(es, all, p, n)
    ensures m == n
  {
    var k := if m < n then m else n;
    if k < |es| {
      assert Under(es[k], all, p) <==> k < m;
    }
  }

  lemma StepsBack(es: seq<Entry>, all: seq<Entry>, p: nat, n: nat)
    requires SplitAt(es, all, p, n)
    ensures SteppedBack(es, all, p, Back(es, n))
  {
  }
}
