/** The cache's own hash table (HandleTable in util/cache.cc). */
module HandleTables {
  import opened Bytewise
  import opened Options

  /** A cached entry as the table sees it; `id` stands for its address. */
  datatype Handle = Handle(id: nat, hash: nat, key: Bytes)

  predicate Same(h: Handle, hash: nat, key: Bytes) {
    h.hash == hash && h.key == key
  }

  /** Bitwise and. */
  function And(a: nat, b: nat): nat {
    if a == 0 || b == 0 then 0 else 2 * And(a / 2, b / 2) + (if a % 2 == 1 && b % 2 == 1 then 1 else 0)
  }

  /** A power of two. */
  predicate Doubled(n: nat) {
    n == 1 || (n > 0 && n % 2 == 0 && Doubled(n / 2))
  }

  /** Masking with a power of two less one takes the remainder. */
  lemma {:induction false} MaskIsRemainder(hash: nat, length: nat)
    requires Doubled(length)
    ensures And(hash, length - 1) == hash % length
    decreases length
  {
    if length > 1 {
      MaskIsRemainder(hash / 2, length / 2);
      hide Doubled;
      AndUnfolds(hash, length - 1);
      TwiceRemainder(hash, length / 2);
    }
  }

  lemma AndUnfolds(a: nat, b: nat)
    requires b % 2 == 1
    ensures And(a, b) == 2 * And(a / 2, b / 2) + a % 2
  {
  }

  lemma TwiceRemainder(a: nat, half: nat)
    requires half > 0
    ensures a % (2 * half) == 2 * (a / 2 % half) + a % 2
  {
    var q, s := a / 2 / half, a / 2 % half;
    assert a / 2 == half * q + s;
    assert a == 2 * half * q + (2 * s + a % 2);
    Remainder(a, 2 * half, q, 2 * s + a % 2);
  }

  lemma Remainder(a: nat, n: nat, q: nat, r: nat)
    requires a == n * q + r && r < n
    ensures a % n == r
  {
    assert a == n * (a / n) + a % n;
    assert n * (a / n - q) == r - a % n;
    Multiple(n, a / n - q);
  }

  lemma Multiple(n: nat, d: int)
    ensures d >= 1 ==> n * d >= n
    ensures d <= -1 ==> n * d + n <= 0
  {
  }

  /** The handles of the first `n` chains. */
  ghost function Held(list: seq<seq<Handle>>, n: nat): set<Handle>
    requires n <= |list|
  {
    set i, h | 0 <= i < n && h in list[i] :: h
  }

  /** Every handle is in the chain its hash selects. */
  ghost predicate Placed(list: seq<seq<Handle>>) {
    list != [] && forall i, h :: 0 <= i < |list| && h in list[i] ==> h.hash % |list| == i
  }

  ghost predicate NoneTwice(chain: seq<Handle>) {
    forall j, k :: 0 <= j < k < |chain| ==> !Same(chain[j], chain[k].hash, chain[k].key)
  }

  /** No hash and key occur twice. */
  ghost predicate Distinct(list: seq<seq<Handle>>) {
    forall i :: 0 <= i < |list| ==> NoneTwice(list[i])
  }

  /** The table holds at most one handle for a hash and key. */
  lemma OneForKey(list: seq<seq<Handle>>, a: Handle, b: Handle)
    requires Placed(list) && Distinct(list)
    requires a in Held(list, |list|) && b in Held(list, |list|) && Same(a, b.hash, b.key)
    ensures a == b
  {
    var i :| 0 <= i < |list| && a in list[i];
    var j :| 0 <= j < |list| && b in list[j];
    var k :| 0 <= k < |list[i]| && list[i][k] == a;
    var l :| 0 <= l < |list[j]| && list[j][l] == b;
    assert i == j && NoneTwice(list[i]);
  }

  /** Changing one chain changes the handles accordingly. */
  lemma HeldUpdate(list: seq<seq<Handle>>, i: nat, chain: seq<Handle>)
    requires Placed(list) && i < |list| && Placed(list[i := chain])
    ensures forall h :: h in Held(list[i := chain], |list|) <==>
        (h in Held(list, |list|) && h !in list[i]) || h in chain
  {
    var list' := list[i := chain];
    forall h ensures h in Held(list', |list|) <==> (h in Held(list, |list|) && h !in list[i]) || h in chain {
      if h in Held(list', |list|) {
        var j :| 0 <= j < |list| && h in list'[j];
        if j != i {
          assert h in list[j] && h.hash % |list| == j;
        }
      }
      if h in Held(list, |list|) && h !in list[i] {
        var j :| 0 <= j < |list| && h in list[j];
        assert h in list'[j];
      }
      if h in chain {
        assert h in list'[i];
      }
    }
  }

  /** The handles left when the one with a hash and key is gone. */
  ghost predicate Cleared(held: set<Handle>, hash: nat, key: Bytes, left: set<Handle>) {
    forall h :: h in left <==> h in held && !Same(h, hash, key)
  }

  class HandleTable {
    var length: nat
    var elems: nat
    var list: seq<seq<Handle>>

    ghost predicate Inv()
      reads this
    {
      && |list| == length && Placed(list) && Distinct(list)
      && elems == |Held(list, length)|
      && elems <= length && Doubled(length)
    }

    ghost function Handles(): set<Handle>
      requires Inv()
      reads this
    {
      Held(list, length)
    }

    constructor ()
      ensures Inv() && Handles() == {}
    {
      length, elems, list := 0, 0, [];
      new;
      assert Held(list, 0) == {};
      Resize();
    }

    lemma Unique(a: Handle, b: Handle)
      requires Inv() && a in Handles() && b in Handles() && Same(a, b.hash, b.key)
      ensures a == b
    {
      OneForKey(list, a, b);
    }

    /** The place of the matching handle in its chain, or the chain's end. */
    method FindPointer(hash: nat, key: Bytes) returns (b: nat, p: nat)
      requires |list| == length && Placed(list) && Doubled(length)
      ensures b == hash % length && p <= |list[b]|
      ensures forall j :: 0 <= j < p ==> !Same(list[b][j], hash, key)
      ensures p < |list[b]| ==> Same(list[b][p], hash, key)
    {
      MaskIsRemainder(hash, length);
      b, p := And(hash, length - 1), 0;
      while p < |list[b]| && !Same(list[b][p], hash, key)
        invariant p <= |list[b]| && forall j :: 0 <= j < p ==> !Same(list[b][j], hash, key)
      {
        p := p + 1;
      }
    }

    method Lookup(hash: nat, key: Bytes) returns (r: Option<Handle>)
      requires Inv()
      ensures match r
              case Some(h) => h in Handles() && Same(h, hash, key)
              case None => forall h :: h in Handles() ==> !Same(h, hash, key)
    {
      var b, p := FindPointer(hash, key);
      r := if p < |list[b]| then Some(list[b][p]) else None;
      if p < |list[b]| {
        assert list[b][p] in list[b];
      } else {
        NotHeld(list, hash, key);
      }
    }

    /** The handle with the same hash and key, if any, is replaced and returned. */
    method Insert(h: Handle) returns (replaced: Option<Handle>)
      requires Inv()
      modifies this
      ensures Inv()
      ensures match replaced
              case Some(o) => o in old(Handles()) && Same(o, h.hash, h.key) && Handles() == old(Handles()) - {o} + {h}
              case None =>
                && (forall x :: x in old(Handles()) ==> !Same(x, h.hash, h.key))
                && Handles() == old(Handles()) + {h}
    {
      hide Held, Placed, Distinct;
      var b, p := FindPointer(h.hash, h.key);
      PlacedNotEmpty(list);
      TablePut(list, b, p, h);
      replaced := if p < |list[b]| then Some(list[b][p]) else None;
      if p == |list[b]| {
        NotHeld(list, h.hash, h.key);
      }
      list := list[b := Put(list[b], p, h)];
      if replaced.None? {
        elems := elems + 1;
        if elems > length {
          Resize();
        }
      }
    }

    method Remove(hash: nat, key: Bytes) returns (r: Option<Handle>)
      requires Inv()
      modifies this
      ensures Inv()
      ensures match r
              case Some(h) => h in old(Handles()) && Same(h, hash, key) && Handles() == old(Handles()) - {h}
              case None => Handles() == old(Handles())
      ensures Cleared(old(Handles()), hash, key, Handles())
    {
      hide Held, Placed, Distinct;
      var b, p := FindPointer(hash, key);
      PlacedNotEmpty(list);
      if p == |list[b]| {
        NotHeld(list, hash, key);
        return None;
      }
      TableDrop(list, b, p);
      forall x | x in Handles() && Same(x, hash, key) ensures x == list[b][p] {
        OneForKey(list, x, list[b][p]);
      }
      r := Some(list[b][p]);
      list := list[b := Drop(list[b], p)];
      elems := elems - 1;
    }

    /** Twice as many chains until there are at least as many as handles; every handle moves to its new chain. */
    method Resize()
      requires |list| == length && Distinct(list) && (list == [] || Placed(list))
      requires elems == |Held(list, length)|
      modifies this
      ensures Inv() && elems == old(elems) && Handles() == old(Held(list, length))
    {
      var newLength := 4;
      while newLength < elems
        invariant newLength >= 4 && Doubled(newLength)
      {
        newLength := newLength * 2;
      }
      var newList: seq<seq<Handle>> := seq(newLength, _ => []);
      NothingHeld(newLength);
      hide Held, Placed, Distinct;
      for i := 0 to length
        invariant list == old(list) && length == old(length) && elems == old(elems)
        invariant |newList| == newLength && Doubled(newLength) && Placed(newList) && Distinct(newList)
        invariant Held(newList, newLength) == Held(list, i)
      {
        newList := MoveChain(newList, i);
      }
      list, length := newList, newLength;
    }

    /** Push the handles of one chain on the fronts of their new chains. */
    method MoveChain(newList0: seq<seq<Handle>>, i: nat) returns (newList: seq<seq<Handle>>)
      requires i < |list| && Placed(list) && Distinct(list)
      requires Doubled(|newList0|) && Placed(newList0) && Distinct(newList0)
      requires Held(newList0, |newList0|) == Held(list, i)
      ensures |newList| == |newList0| && Placed(newList) && Distinct(newList)
      ensures Held(newList, |newList|) == Held(list, i + 1)
    {
      hide Held, Placed, Distinct;
      newList := newList0;
      var h := 0;
      StartChain(list, i);
      while h < |list[i]|
        invariant h <= |list[i]| && |newList| == |newList0| && Placed(newList) && Distinct(newList)
        invariant Held(newList, |newList|) == HeldPart(list, i, h)
      {
        PlacedNotEmpty(newList);
        MaskIsRemainder(list[i][h].hash, |newList|);
        var b := And(list[i][h].hash, |newList| - 1);
        TablePush(list, i, h, newList);
        newList := newList[b := [list[i][h]] + newList[b]];
        h := h + 1;
      }
      EndChain(list, i);
    }
  }

  /** The handles of the first `i` chains and of `n` places of the next. */
  ghost function HeldPart(list: seq<seq<Handle>>, i: nat, n: nat): set<Handle>
    requires i < |list| && n <= |list[i]|
  {
    Held(list, i) + set h | h in list[i][..n]
  }

  lemma StartChain(list: seq<seq<Handle>>, i: nat)
    requires i < |list|
    ensures HeldPart(list, i, 0) == Held(list, i)
  {
  }

  lemma EndChain(list: seq<seq<Handle>>, i: nat)
    requires i < |list|
    ensures HeldPart(list, i, |list[i]|) == Held(list, i + 1)
  {
    assert list[i][..|list[i]|] == list[i];
  }

  lemma NothingHeld(n: nat)
    requires n > 0
    ensures var list: seq<seq<Handle>> := seq(n, _ => []); Placed(list) && Distinct(list) && Held(list, n) == {}
  {
  }

  /** A handle not yet moved is not in the new table, nor is another with its hash and key. */
  lemma TablePush(list: seq<seq<Handle>>, i: nat, n: nat, newList: seq<seq<Handle>>)
    requires Placed(list) && Distinct(list) && i < |list| && n < |list[i]|
    requires Placed(newList) && Distinct(newList) && Held(newList, |newList|) == HeldPart(list, i, n)
    ensures var h := list[i][n];
            var newList' := newList[h.hash % |newList| := [h] + newList[h.hash % |newList|]];
            && Placed(newList') && Distinct(newList')
            && Held(newList', |newList|) == HeldPart(list, i, n + 1)
  {
    var h := list[i][n];
    var b := h.hash % |newList|;
    var chain' := [h] + newList[b];
    forall x | x in newList[b] ensures !Same(x, h.hash, h.key) {
      assert x in HeldPart(list, i, n);
      NotMovedYet(list, i, n, x);
    }
    assert NoneTwice(newList[b]);
    assert forall k :: 0 < k < |chain'| ==> chain'[k] == newList[b][k - 1] && chain'[k] in newList[b];
    assert NoneTwice(chain');
    assert Placed(newList[b := chain']);
    HeldUpdate(newList, b, chain');
    assert list[i][..n + 1] == list[i][..n] + [h];
    assert forall x :: x in chain' <==> x == h || x in newList[b];
  }

  lemma NotMovedYet(list: seq<seq<Handle>>, i: nat, n: nat, x: Handle)
    requires Placed(list) && Distinct(list) && i < |list| && n < |list[i]| && x in HeldPart(list, i, n)
    ensures !Same(x, list[i][n].hash, list[i][n].key)
  {
    assert NoneTwice(list[i]);
    if x in list[i][..n] {
      var j :| 0 <= j < n && list[i][j] == x;
    } else {
      var j :| 0 <= j < i && x in list[j];
      assert list[i][n] in list[i];
    }
  }

  lemma PlacedNotEmpty(list: seq<seq<Handle>>)
    requires Placed(list)
    ensures list != []
  {
  }

  function Put(chain: seq<Handle>, p: nat, h: Handle): seq<Handle> {
    if p < |chain| then chain[p := h] else chain + [h]
  }

  function Drop(chain: seq<Handle>, p: nat): seq<Handle>
    requires p < |chain|
  {
    chain[..p] + chain[p + 1..]
  }

  /** What was at the place found, as a set. */
  function Found(chain: seq<Handle>, p: nat): set<Handle> {
    if p < |chain| then {chain[p]} else {}
  }

  /** The place where a search for the handle's hash and key ends. */
  ghost predicate Ends(chain: seq<Handle>, p: nat, hash: nat, key: Bytes) {
    && p <= |chain|
    && (forall j :: 0 <= j < p ==> !Same(chain[j], hash, key))
    && (p < |chain| ==> Same(chain[p], hash, key))
  }

  lemma PutInChain(chain: seq<Handle>, p: nat, h: Handle)
    requires NoneTwice(chain) && Ends(chain, p, h.hash, h.key)
    ensures NoneTwice(Put(chain, p, h))
    ensures forall x :: x in Put(chain, p, h) <==> x == h || (x in chain && x !in Found(chain, p))
    ensures forall x :: x in chain && Same(x, h.hash, h.key) ==> x in Found(chain, p)
  {
    var chain' := Put(chain, p, h);
    forall x ensures x in chain' <==> x == h || (x in chain && x !in Found(chain, p)) {
      if x in chain {
        var j :| 0 <= j < |chain| && chain[j] == x;
        assert j != p ==> chain'[j] == x;
      }
      assert chain'[p] == h;
    }
  }

  lemma DropFromChain(chain: seq<Handle>, p: nat)
    requires NoneTwice(chain) && p < |chain|
    ensures NoneTwice(Drop(chain, p))
    ensures forall x :: x in Drop(chain, p) <==> x in chain && x != chain[p]
  {
    var chain' := Drop(chain, p);
    assert forall j :: 0 <= j < |chain'| ==> chain'[j] == if j < p then chain[j] else chain[j + 1];
    forall x ensures x in chain' <==> x in chain && x != chain[p] {
      if x in chain {
        var j :| 0 <= j < |chain| && chain[j] == x;
        assert j < p ==> chain'[j] == x;
        assert j > p ==> chain'[j - 1] == x;
      }
    }
  }

  /** Putting a handle in place of the one with its hash and key, or at the end of the chain. */
  lemma TablePut(list: seq<seq<Handle>>, b: nat, p: nat, h: Handle)
    requires Placed(list) && Distinct(list) && b == h.hash % |list| && Ends(list[b], p, h.hash, h.key)
    ensures var list', held, found := list[b := Put(list[b], p, h)], Held(list, |list|), Found(list[b], p);
            && Placed(list') && Distinct(list') && found <= held && h !in held - found
            && Held(list', |list|) == held - found + {h}
  {
    hide Put, Ends, NoneTwice, Found;
    assert NoneTwice(list[b]);
    PutInChain(list[b], p, h);
    FoundInChain(list[b], p);
    var list', held, found := list[b := Put(list[b], p, h)], Held(list, |list|), Found(list[b], p);
    assert Placed(list');
    HeldUpdate(list, b, Put(list[b], p, h));
    assert forall x :: x in list[b] ==> x in held;
    forall x | x in held && Same(x, h.hash, h.key) ensures x in found {
      var i :| 0 <= i < |list| && x in list[i];
      assert i == b;
    }
  }

  lemma FoundInChain(chain: seq<Handle>, p: nat)
    ensures forall x :: x in Found(chain, p) ==> x in chain
  {
  }

  lemma TableDrop(list: seq<seq<Handle>>, b: nat, p: nat)
    requires Placed(list) && Distinct(list) && b < |list| && p < |list[b]|
    ensures var list' := list[b := Drop(list[b], p)];
            && Placed(list') && Distinct(list')
            && list[b][p] in Held(list, |list|)
            && Held(list', |list|) == Held(list, |list|) - {list[b][p]}
  {
    hide Drop, NoneTwice;
    assert NoneTwice(list[b]);
    DropFromChain(list[b], p);
    assert Placed(list[b := Drop(list[b], p)]);
    HeldUpdate(list, b, Drop(list[b], p));
    assert list[b][p] in list[b];
  }

  lemma NotHeld(list: seq<seq<Handle>>, hash: nat, key: Bytes)
    requires Placed(list) && forall j :: 0 <= j < |list[hash % |list|]| ==> !Same(list[hash % |list|][j], hash, key)
    ensures forall h :: h in Held(list, |list|) ==> !Same(h, hash, key)
  {
    forall h | h in Held(list, |list|) ensures !Same(h, hash, key) {
      var i :| 0 <= i < |list| && h in list[i];
      assert h.hash % |list| == i;
    }
  }
}

/** One shard of the cache (LRUCache in util/cache.cc). */
module LRUCaches {
  import opened Bytewise
  import opened HandleTables
  import opened Options

  datatype Node = Node(handle: Handle, value: nat, charge: nat)

  // ---------------------------------------------------------------- sums of charges

  ghost function Sum(nodes: map<nat, Node>): nat
    decreases |nodes|
  {
    if nodes == map[] then 0 else var id :| id in nodes; nodes[id].charge + Sum(nodes - {id})
  }

  /** The sum can be taken apart at any handle. */
  lemma {:induction false} SumRemove(nodes: map<nat, Node>, id: nat)
    requires id in nodes
    ensures Sum(nodes) == nodes[id].charge + Sum(nodes - {id})
    decreases |nodes|
  {
    var first :| first in nodes && Sum(nodes) == nodes[first].charge + Sum(nodes - {first});
    if first != id {
      SumRemove(nodes - {first}, id);
      SumRemove(nodes - {id}, first);
      assert nodes - {first} - {id} == nodes - {id} - {first};
    }
  }

  lemma SumAdd(nodes: map<nat, Node>, id: nat, node: Node)
    requires id !in nodes
    ensures Sum(nodes[id := node]) == Sum(nodes) + node.charge
  {
    SumRemove(nodes[id := node], id);
    assert nodes[id := node] - {id} == nodes;
  }

  // ---------------------------------------------------------------- the list

  ghost predicate NoRepeats(s: seq<nat>) {
    forall i, j :: 0 <= i < j < |s| ==> s[i] != s[j]
  }

  /** LRU_Remove. */
  function Without(s: seq<nat>, id: nat): seq<nat> {
    if s == [] then [] else if s[0] == id then s[1..] else [s[0]] + Without(s[1..], id)
  }

  lemma {:induction false} WithoutRemoves(s: seq<nat>, id: nat)
    requires NoRepeats(s)
    ensures NoRepeats(Without(s, id)) && forall x :: x in Without(s, id) <==> x in s && x != id
  {
    if s != [] {
      var rest := s[1..];
      assert forall k :: 0 < k < |s| ==> s[k] == rest[k - 1];
      WithoutRemoves(rest, id);
      assert s == [s[0]] + rest;
      assert s[0] !in rest;
      if s[0] != id {
        NoRepeatsCons(s[0], Without(rest, id));
      }
    }
  }

  lemma NoRepeatsCons(x: nat, s: seq<nat>)
    requires NoRepeats(s) && x !in s
    ensures NoRepeats([x] + s)
  {
  }

  // ---------------------------------------------------------------- what must agree

  /** The table holds exactly the handles on the list. */
  ghost predicate Listed(lru: seq<nat>, nodes: map<nat, Node>, held: set<Handle>) {
    && NoRepeats(lru)
    && (forall id :: id in nodes ==> nodes[id].handle.id == id)
    && (forall h :: h in held ==> h.id in lru && h.id in nodes && nodes[h.id].handle == h)
    && forall id :: id in lru ==> id in nodes && nodes[id].handle in held
  }

  function Cached(lru: seq<nat>, id: nat): nat {
    if id in lru then 1 else 0
  }

  /** References are the handles given out, one for the cache, and those the running call holds. */
  ghost predicate Counted(nodes: map<nat, Node>, refs: map<nat, nat>, lru: seq<nat>, out: multiset<nat>,
                          extra: multiset<nat>) {
    && nodes.Keys == refs.Keys
    && (forall id :: id in nodes ==> refs[id] == out[id] + Cached(lru, id) + extra[id] && refs[id] > 0)
    && (forall id :: id in lru ==> id in nodes)
    && (forall id :: id in out ==> id in nodes)
    && forall id :: id in extra ==> id in nodes
  }

  /** Every handle made is alive or was deleted, once; the usage is that of the live ones. */
  ghost predicate Accounted(nodes: map<nat, Node>, usage: int, deleted: seq<nat>, made: nat) {
    && usage == Sum(nodes)
    && NoRepeats(deleted)
    && (forall id :: id in deleted ==> id !in nodes && id < made)
    && (forall id :: id in nodes ==> id < made)
    && forall id :: 0 <= id < made ==> id in nodes || id in deleted
  }

  /** Dropping one reference that is not the last. */
  lemma CountedLess(nodes: map<nat, Node>, refs: map<nat, nat>, lru: seq<nat>, out: multiset<nat>,
                    extra: multiset<nat>, id: nat)
    requires Counted(nodes, refs, lru, out, extra) && id in extra && refs[id] > 1
    ensures Counted(nodes, refs[id := refs[id] - 1], lru, out, extra - multiset{id})
  {
  }

  /** Dropping the last reference. */
  lemma CountedNone(nodes: map<nat, Node>, refs: map<nat, nat>, lru: seq<nat>, out: multiset<nat>,
                    extra: multiset<nat>, id: nat)
    requires Counted(nodes, refs, lru, out, extra) && id in extra && refs[id] == 1
    ensures id !in lru && id !in out
    ensures Counted(nodes - {id}, refs - {id}, lru, out, extra - multiset{id})
  {
  }

  lemma AccountedLess(nodes: map<nat, Node>, usage: int, deleted: seq<nat>, made: nat, id: nat)
    requires Accounted(nodes, usage, deleted, made) && id in nodes
    ensures Accounted(nodes - {id}, usage - nodes[id].charge, deleted + [id], made)
  {
    hide Sum;
    SumRemove(nodes, id);
  }

  lemma ListedLess(lru: seq<nat>, nodes: map<nat, Node>, held: set<Handle>, id: nat)
    requires Listed(lru, nodes, held) && id !in lru
    ensures Listed(lru, nodes - {id}, held)
  {
  }

  /** Taking a handle off the list and out of the table leaves the cache's reference to the caller. */
  lemma Detached(lru: seq<nat>, nodes: map<nat, Node>, held: set<Handle>, id: nat)
    requires Listed(lru, nodes, held) && id in lru
    ensures Listed(Without(lru, id), nodes, held - {nodes[id].handle})
  {
    hide Without;
    WithoutRemoves(lru, id);
  }

  lemma CountedDetached(nodes: map<nat, Node>, refs: map<nat, nat>, lru: seq<nat>, out: multiset<nat>,
                        extra: multiset<nat>, id: nat)
    requires Counted(nodes, refs, lru, out, extra) && id in lru && NoRepeats(lru)
    ensures Counted(nodes, refs, Without(lru, id), out, extra + multiset{id})
  {
    hide Without;
    WithoutRemoves(lru, id);
  }

  class LRUCache {
    const table: HandleTable
    const capacity: nat
    var usage: int
    /** The list from the oldest entry to the newest. */
    var lru: seq<nat>
    /** The allocated handles, and their reference counts. */
    var nodes: map<nat, Node>
    var refs: map<nat, nat>
    var made: nat
    /** Handles callers hold, and handles the deleter was called for. */
    ghost var out: multiset<nat>
    ghost var deleted: seq<nat>

    ghost predicate Core(extra: multiset<nat>)
      reads this, table
    {
      && table.Inv()
      && Listed(lru, nodes, table.Handles())
      && Counted(nodes, refs, lru, out, extra)
      && Accounted(nodes, usage, deleted, made)
    }

    ghost predicate Inv()
      reads this, table
    {
      Core(multiset{})
    }

    constructor (limit: nat)
      ensures Inv() && capacity == limit && nodes == map[] && fresh(table)
    {
      capacity, usage, lru, nodes, refs, made := limit, 0, [], map[], map[], 0;
      out, deleted := multiset{}, [];
      table := new HandleTable();
    }

    /** Drop a reference the running call holds; the last one deletes the entry. */
    method Unref(id: nat, ghost extra: multiset<nat>)
      requires Core(extra) && id in extra
      modifies this`usage, this`nodes, this`refs, this`deleted
      ensures Core(extra - multiset{id})
      ensures if old(refs[id]) == 1 then
          deleted == old(deleted) + [id] && nodes == old(nodes) - {id} && refs == old(refs) - {id}
              else deleted == old(deleted) && nodes == old(nodes) && refs == old(refs)[id := old(refs[id]) - 1]
      ensures usage == old(usage) - if old(refs[id]) == 1 then old(nodes[id].charge) else 0
    {
      hide Counted, Accounted, Listed;
      InNodes(nodes, refs, lru, out, extra, id);
      if refs[id] - 1 <= 0 {
        CountedNone(nodes, refs, lru, out, extra, id);
        AccountedLess(nodes, usage, deleted, made, id);
        ListedLess(lru, nodes, table.Handles(), id);
        usage := usage - nodes[id].charge;
        nodes := nodes - {id};
        refs := refs - {id};
        deleted := deleted + [id];
      } else {
        CountedLess(nodes, refs, lru, out, extra, id);
        refs := refs[id := refs[id] - 1];
      }
    }

    /** A hit gives out another reference and makes the entry the newest. */
    method Lookup(hash: nat, key: Bytes) returns (r: Option<nat>)
      requires Inv()
      modifies this`refs, this`lru, this`out
      ensures Inv()
      ensures match r
              case Some(id) => id in nodes && nodes[id].handle in table.Handles() && Same(nodes[id].handle, hash, key)
                               && out == old(out) + multiset{id} && lru == Without(old(lru), id) + [id]
              case None =>
                && (forall h :: h in table.Handles() ==> !Same(h, hash, key))
                && out == old(out) && lru == old(lru)
    {
      hide Counted, Listed, Accounted, Without;
      var found := table.Lookup(hash, key);
      if found.None? {
        return None;
      }
      var id := found.value.id;
      HeldIsListed(lru, nodes, table.Handles(), found.value);
      InNodes(nodes, refs, lru, out, multiset{}, id);
      Touched(lru, nodes, table.Handles(), refs, out, id);
      refs := refs[id := refs[id] + 1];
      lru := Without(lru, id);
      lru := lru + [id];
      out := out + multiset{id};
      return Some(id);
    }

    /** A caller gives a handle back. */
    method Release(id: nat)
      requires Inv() && id in out
      modifies this`usage, this`nodes, this`refs, this`deleted, this`out
      ensures Inv() && out == old(out) - multiset{id}
      ensures if old(refs[id]) == 1 then deleted == old(deleted) + [id] else deleted == old(deleted)
    {
      hide Counted, Listed, Accounted;
      Returned(nodes, refs, lru, out, id);
      out := out - multiset{id};
      Unref(id, multiset{id});
      assert multiset{id} - multiset{id} == multiset{};
    }

    method Erase(hash: nat, key: Bytes)
      requires Inv()
      modifies this`usage, this`lru, this`nodes, this`refs, this`deleted, table
      ensures Inv() && Cleared(old(table.Handles()), hash, key, table.Handles())
    {
      hide Cleared, Counted, Listed, Accounted, Without;
      var found := table.Remove(hash, key);
      if found.Some? {
        assert old(table.Handles()) == table.Handles() + {found.value};
        Unlink(found.value);
      }
    }

    /**
     * A new entry replaces one with its key, and the oldest entries go until the usage fits,
     * and no further.
     */
    method Insert(hash: nat, key: Bytes, value: nat, charge: nat) returns (id: nat)
      requires Inv()
      modifies this, table
      ensures Inv()
      ensures id == old(made) && id in nodes && nodes[id] == Node(Handle(id, hash, key), value, charge)
      ensures out == old(out) + multiset{id}
      ensures var rival := Rival(old(table.Handles()), hash, key);
        Evicted(WithNew(old(lru), rival, id), old(nodes)[id := nodes[id]], out,
                UsageWith(old(nodes), old(out), old(usage), rival, charge), capacity, lru, usage)
    {
      hide Counted, Listed, Accounted, Without, Evicted, Rival, WithNew, UsageWith;
      id := Add(hash, key, value, charge);
      Evict(id, old(nodes)[id := nodes[id]]);
    }

    method Add(hash: nat, key: Bytes, value: nat, charge: nat) returns (id: nat)
      requires Inv()
      modifies this, table
      ensures Inv()
      ensures id == old(made) && id in nodes && nodes[id] == Node(Handle(id, hash, key), value, charge)
      ensures out == old(out) + multiset{id}
      ensures var rival := Rival(old(table.Handles()), hash, key);
        && lru == WithNew(old(lru), rival, id)
        && usage == UsageWith(old(nodes), old(out), old(usage), rival, charge)
      ensures PartOf(nodes, old(nodes)[id := nodes[id]])
    {
      hide Counted, Listed, Accounted, Without, Rival, OneOfEach, Dropped;
      id := made;
      var node := Node(Handle(id, hash, key), value, charge);
      ghost var held := table.Handles();
      HandlesOneOfEach();
      Allocate(id, node);
      var replaced := table.Insert(node.handle);
      RivalIs(held, hash, key, replaced);
      if replaced.Some? {
        ReplacedIs(held, node.handle, replaced.value, table.Handles());
        HeldIsListed(old(lru), old(nodes), held, replaced.value);
        hide HandleTable.Inv;
        Unlink(replaced.value);
        KeepsHandedOut(id);
        DroppedOther(old(nodes), old(out), old(usage), id, node, replaced.value, nodes, usage);
      }
    }

    lemma HandlesOneOfEach()
      requires table.Inv()
      ensures OneOfEach(table.Handles())
    {
      forall a, b | a in table.Handles() && b in table.Handles() && Same(a, b.hash, b.key) ensures a == b {
        table.Unique(a, b);
      }
    }

    /** Make a handle with one reference for the caller and one for the cache, newest on the list. */
    method Allocate(id: nat, node: Node)
      requires Inv() && id == made && node.handle.id == id
      modifies this`made, this`nodes, this`refs, this`lru, this`usage, this`out
      ensures id !in old(nodes) && nodes == old(nodes)[id := node] && lru == old(lru) + [id]
      ensures out == old(out) + multiset{id} && usage == old(usage) + node.charge
      ensures Listed(lru, nodes, table.Handles() + {node.handle}) && node.handle !in table.Handles()
      ensures Counted(nodes, refs, lru, out, multiset{}) && Accounted(nodes, usage, deleted, made)
    {
      hide Counted, Listed, Accounted, Without;
      Allocated(nodes, refs, lru, out, usage, deleted, made, node);
      ListedAllocated(lru, nodes, table.Handles(), id, node);
      made := made + 1;
      nodes := nodes[id := node];
      refs := refs[id := 2];
      lru := lru + [id];
      usage := usage + node.charge;
      out := out + multiset{id};
    }

    lemma KeepsHandedOut(id: nat)
      requires Inv() && id in out
      ensures id in nodes
    {
      InNodes(nodes, refs, lru, out, multiset{}, id);
    }

    /** The oldest entry leaves until the usage fits or the list is empty. */
    method Evict(ghost id: nat, ghost charges: map<nat, Node>)
      requires Inv() && id in out && id in nodes && PartOf(nodes, charges)
      modifies this`usage, this`lru, this`nodes, this`refs, this`deleted, table
      ensures Inv() && Evicted(old(lru), charges, out, old(usage), capacity, lru, usage)
      ensures id in nodes && PartOf(nodes, charges)
    {
      hide Counted, Listed, Accounted, Without, Cleared, Evicting;
      NoneEvicted(lru, charges, out, usage, capacity);
      while usage > capacity && lru != []
        invariant Inv() && Evicting(old(lru), charges, out, old(usage), capacity, lru, usage) && out == old(out)
        invariant id in nodes && PartOf(nodes, charges)
        decreases |lru|
      {
        var oldest := lru[0];
        ListedIsHeld(lru, nodes, table.Handles(), oldest);
        OneEvicted(old(lru), charges, out, old(usage), capacity, lru, usage);
        var h := nodes[oldest].handle;
        DropHandle(h);
        KeepsHandedOut(id);
      }
    }

    /** Remove an entry from the table and the list, and drop the cache's reference. */
    method DropHandle(h: Handle)
      requires Inv() && h in table.Handles()
      modifies this`usage, this`lru, this`nodes, this`refs, this`deleted, table
      ensures Inv() && lru == Without(old(lru), h.id) && Dropped(old(nodes), old(usage), out, h.id, nodes, usage)
    {
      hide Counted, Listed, Accounted, Without, Dropped;
      ghost var held := table.Handles();
      var found := table.Remove(h.hash, h.key);
      RemovedIs(held, h, table.Handles(), found);
      Unlink(h);
    }

    /** Exactly the entries that callers hold stay. */
    method Prune()
      requires Inv()
      modifies this`usage, this`lru, this`nodes, this`refs, this`deleted, table
      ensures Inv() && forall id :: id in lru <==> id in old(lru) && id in out
    {
      hide Counted, Listed, Accounted, Without, Cleared;
      var all := lru;
      for i := 0 to |all|
        invariant Inv() && out == old(out)
        invariant forall x :: x in lru ==> x in all
        invariant forall x :: x in all && x in out ==> x in lru
        invariant forall j :: 0 <= j < i && all[j] in lru ==> all[j] in out
      {
        var id := all[i];
        if id in lru {
          ListedIsHeld(lru, nodes, table.Handles(), id);
          InNodes(nodes, refs, lru, out, multiset{}, id);
          HeldByCaller(nodes, refs, lru, out, id);
          if refs[id] == 1 {
            ListNoRepeats(lru, nodes, table.Handles());
            WithoutRemoves(lru, id);
            DropHandle(nodes[id].handle);
          }
        }
      }
    }

    /** Take off the list what the table no longer holds, and drop the cache's reference. */
    method Unlink(h: Handle)
      requires table.Inv() && h !in table.Handles() && Listed(lru, nodes, table.Handles() + {h})
      requires Counted(nodes, refs, lru, out, multiset{}) && Accounted(nodes, usage, deleted, made)
      modifies this`usage, this`lru, this`nodes, this`refs, this`deleted
      ensures Inv() && lru == Without(old(lru), h.id) && Dropped(old(nodes), old(usage), out, h.id, nodes, usage)
    {
      hide Counted, Listed, Accounted, Without;
      var id := h.id;
      HeldIsListed(lru, nodes, table.Handles() + {h}, h);
      HeldByCaller(nodes, refs, lru, out, id);
      Detached(lru, nodes, table.Handles() + {h}, id);
      assert table.Handles() + {h} - {h} == table.Handles();
      ListNoRepeats(lru, nodes, table.Handles() + {h});
      CountedDetached(nodes, refs, lru, out, multiset{}, id);
      assert multiset{} + multiset{id} == multiset{id};
      lru := Without(lru, id);
      Unref(id, multiset{id});
      assert multiset{id} - multiset{id} == multiset{};
    }
  }

  // ---------------------------------------------------------------- what an insertion does

  /** All of `a` is in `b`. */
  ghost predicate PartOf(a: map<nat, Node>, b: map<nat, Node>) {
    forall id :: id in a ==> id in b && a[id] == b[id]
  }

  /** The cache gives up an entry: it is freed, with its charge, unless a caller holds it. */
  ghost predicate Dropped(
    nodes: map<nat, Node>, usage: int, out: multiset<nat>, id: nat, nodes': map<nat, Node>, usage': int)
  {
    && nodes' == (if id in out then nodes else nodes - {id})
    && usage' == usage - Freed(nodes, out, id)
  }

  /** What giving up an entry takes off the usage. */
  function Freed(nodes: map<nat, Node>, out: multiset<nat>, id: nat): nat {
    if id in nodes && id !in out then nodes[id].charge else 0
  }

  lemma DroppedOther(nodes: map<nat, Node>, out: multiset<nat>, usage: int, id: nat, node: Node, o: Handle,
                     nodes': map<nat, Node>, usage': int)
    requires Dropped(nodes[id := node], usage + node.charge, out + multiset{id}, o.id, nodes', usage')
    requires id !in nodes && o.id in nodes && id in nodes'
    ensures PartOf(nodes', nodes[id := nodes'[id]]) && nodes'[id] == node
    ensures usage' == UsageWith(nodes, out, usage, Some(o), node.charge)
  {
  }

  ghost predicate OneOfEach(held: set<Handle>) {
    forall a, b :: a in held && b in held && Same(a, b.hash, b.key) ==> a == b
  }

  /** The handle that a new one with this hash and key replaces. */
  ghost function Rival(held: set<Handle>, hash: nat, key: Bytes): Option<Handle> {
    if o :| o in held && Same(o, hash, key) then Some(o) else None
  }

  lemma RivalIs(held: set<Handle>, hash: nat, key: Bytes, found: Option<Handle>)
    requires OneOfEach(held)
    requires match found
             case Some(o) => o in held && Same(o, hash, key)
             case None => forall x :: x in held ==> !Same(x, hash, key)
    ensures Rival(held, hash, key) == found
  {
  }

  /** The list once a new entry is on it and the one it replaces is off. */
  function WithNew(lru: seq<nat>, rival: Option<Handle>, id: nat): seq<nat> {
    match rival
    case Some(o) => Without(lru + [id], o.id)
    case None => lru + [id]
  }

  /** The usage then. */
  function UsageWith(nodes: map<nat, Node>, out: multiset<nat>, usage: int, rival: Option<Handle>, charge: nat): int {
    usage + charge - match rival { case Some(o) => Freed(nodes, out, o.id) case None => 0 }
  }

  /** What giving up some entries takes off the usage. */
  function AllFreed(nodes: map<nat, Node>, out: multiset<nat>, ids: seq<nat>): nat {
    if ids == [] then 0 else AllFreed(nodes, out, ids[..|ids| - 1]) + Freed(nodes, out, ids[|ids| - 1])
  }

  /** Of the list `all` the oldest entries have gone, each while the usage was above the capacity. */
  ghost predicate Evicting(all: seq<nat>, nodes: map<nat, Node>, out: multiset<nat>, before: int, capacity: nat,
                           left: seq<nat>, usage: int) {
    && |left| <= |all| && left == all[|all| - |left|..]
    && usage == before - AllFreed(nodes, out, all[..|all| - |left|])
    && forall k :: 0 <= k < |all| - |left| ==> before - AllFreed(nodes, out, all[..k]) > capacity
  }

  /** And now the usage fits, or there is nothing left to evict. */
  ghost predicate Evicted(all: seq<nat>, nodes: map<nat, Node>, out: multiset<nat>, before: int, capacity: nat,
                          left: seq<nat>, usage: int) {
    Evicting(all, nodes, out, before, capacity, left, usage) && (usage <= capacity || left == [])
  }

  lemma NoneEvicted(all: seq<nat>, nodes: map<nat, Node>, out: multiset<nat>, before: int, capacity: nat)
    ensures Evicting(all, nodes, out, before, capacity, all, before)
  {
    assert all == all[0..] && all[..0] == [];
  }

  lemma OneEvicted(all: seq<nat>, nodes: map<nat, Node>, out: multiset<nat>, before: int, capacity: nat,
                   left: seq<nat>, usage: int)
    requires Evicting(all, nodes, out, before, capacity, left, usage) && left != [] && usage > capacity
    ensures Evicting(all, nodes, out, before, capacity, left[1..], usage - Freed(nodes, out, left[0]))
    ensures Without(left, left[0]) == left[1..]
  {
    var n := |all| - |left|;
    assert all[..n + 1][..n] == all[..n] && all[..n + 1][n] == left[0];
  }

  /** Nothing is evicted if the usage fits at once; otherwise putting the last one back would exceed it. */
  lemma EvictionIsLeast(all: seq<nat>, nodes: map<nat, Node>, out: multiset<nat>, before: int, capacity: nat,
                        left: seq<nat>, usage: int)
    requires Evicted(all, nodes, out, before, capacity, left, usage)
    ensures before <= capacity ==> left == all && usage == before
    ensures |left| < |all| ==> usage + Freed(nodes, out, all[|all| - |left| - 1]) > capacity
  {
    var n := |all| - |left|;
    assert all[..0] == [];
    if n > 0 {
      assert before - AllFreed(nodes, out, all[..0]) > capacity;
      assert all[..n][..n - 1] == all[..n - 1] && all[..n][n - 1] == all[n - 1];
      assert before - AllFreed(nodes, out, all[..n - 1]) > capacity;
    } else {
      assert all[0..] == all;
    }
  }

  lemma ListedIsHeld(lru: seq<nat>, nodes: map<nat, Node>, held: set<Handle>, id: nat)
    requires Listed(lru, nodes, held) && id in lru
    ensures id in nodes && nodes[id].handle in held && nodes[id].handle.id == id
  {
  }

  /** An entry with one reference is held by nobody; with more, somebody holds it. */
  lemma HeldByCaller(nodes: map<nat, Node>, refs: map<nat, nat>, lru: seq<nat>, out: multiset<nat>, id: nat)
    requires Counted(nodes, refs, lru, out, multiset{}) && id in lru
    ensures id in refs && (refs[id] == 1 <==> id !in out)
  {
  }

  /** A new handle, held by its caller and by the cache. */
  lemma Allocated(nodes: map<nat, Node>, refs: map<nat, nat>, lru: seq<nat>, out: multiset<nat>, usage: int,
                  deleted: seq<nat>, made: nat, node: Node)
    requires Counted(nodes, refs, lru, out, multiset{}) && Accounted(nodes, usage, deleted, made)
    ensures made !in nodes
    ensures Counted(nodes[made := node], refs[made := 2], lru + [made], out + multiset{made}, multiset{})
    ensures Accounted(nodes[made := node], usage + node.charge, deleted, made + 1)
  {
    hide Sum;
    SumAdd(nodes, made, node);
  }

  lemma ListedAllocated(lru: seq<nat>, nodes: map<nat, Node>, held: set<Handle>, id: nat, node: Node)
    requires Listed(lru, nodes, held) && id !in nodes && node.handle.id == id
    ensures Listed(lru + [id], nodes[id := node], held + {node.handle}) && node.handle !in held
  {
  }

  lemma ReplacedIs(held: set<Handle>, h: Handle, o: Handle, after: set<Handle>)
    requires o in held && h !in held && after == held - {o} + {h}
    ensures o !in after && after + {o} == held + {h}
  {
  }

  lemma RemovedIs(held: set<Handle>, h: Handle, left: set<Handle>, found: Option<Handle>)
    requires h in held && Cleared(held, h.hash, h.key, left)
    requires left == if found.Some? then held - {found.value} else held
    ensures h !in left && left + {h} == held
  {
    assert h !in left;
  }

  lemma HeldIsListed(lru: seq<nat>, nodes: map<nat, Node>, held: set<Handle>, h: Handle)
    requires Listed(lru, nodes, held) && h in held
    ensures h.id in lru && h.id in nodes && nodes[h.id].handle == h
  {
  }

  lemma ListNoRepeats(lru: seq<nat>, nodes: map<nat, Node>, held: set<Handle>)
    requires Listed(lru, nodes, held)
    ensures NoRepeats(lru)
  {
  }

  /** Moving an entry to the end of the list and giving out one more reference. */
  lemma Touched(lru: seq<nat>, nodes: map<nat, Node>, held: set<Handle>, refs: map<nat, nat>, out: multiset<nat>,
                id: nat)
    requires Listed(lru, nodes, held) && Counted(nodes, refs, lru, out, multiset{}) && id in lru && id in refs
    ensures Listed(Without(lru, id) + [id], nodes, held)
    ensures Counted(nodes, refs[id := refs[id] + 1], Without(lru, id) + [id], out + multiset{id}, multiset{})
  {
    hide Without, Counted;
    WithoutRemoves(lru, id);
    assert NoRepeats(Without(lru, id) + [id]);
    CountedMore(nodes, refs, lru, Without(lru, id) + [id], out, id);
  }

  lemma CountedMore(nodes: map<nat, Node>, refs: map<nat, nat>, lru: seq<nat>, lru': seq<nat>, out: multiset<nat>,
                    id: nat)
    requires Counted(nodes, refs, lru, out, multiset{}) && id in refs && forall x :: x in lru' <==> x in lru
    ensures Counted(nodes, refs[id := refs[id] + 1], lru', out + multiset{id}, multiset{})
  {
  }

  lemma Returned(nodes: map<nat, Node>, refs: map<nat, nat>, lru: seq<nat>, out: multiset<nat>, id: nat)
    requires Counted(nodes, refs, lru, out, multiset{}) && id in out
    ensures id in refs && Counted(nodes, refs, lru, out - multiset{id}, multiset{id})
  {
  }

  lemma InNodes(nodes: map<nat, Node>, refs: map<nat, nat>, lru: seq<nat>, out: multiset<nat>, extra: multiset<nat>,
                id: nat)
    requires Counted(nodes, refs, lru, out, extra) && (id in extra || id in out || id in lru)
    ensures id in nodes && id in refs && refs[id] > 0
  {
  }

  lemma {:induction false} WithoutKeeps(s: seq<nat>, id: nat, x: nat)
    requires x in s && x != id
    ensures x in Without(s, id)
  {
    if s[0] != id && s[0] != x {
      WithoutKeeps(s[1..], id, x);
    }
  }

  lemma NewIsOn(lru: seq<nat>, rival: Option<Handle>, id: nat)
    requires rival.Some? ==> rival.value.id != id
    ensures id in WithNew(lru, rival, id)
  {
    assert id in lru + [id];
    if rival.Some? {
      WithoutKeeps(lru + [id], rival.value.id, id);
    }
  }

  lemma RivalIsOlder(cache: LRUCache, hash: nat, key: Bytes)
    requires cache.Inv()
    ensures var rival := Rival(cache.table.Handles(), hash, key); rival.Some? ==> rival.value.id < cache.made
  {
    hide HandleTable.Inv, Sum;
  }

  lemma OneHandle(cache: LRUCache, a: nat, b: nat)
    requires cache.Inv() && a in cache.nodes && b in cache.nodes
    requires cache.nodes[a].handle in cache.table.Handles() && cache.nodes[b].handle in cache.table.Handles()
    requires Same(cache.nodes[a].handle, cache.nodes[b].handle.hash, cache.nodes[b].handle.key)
    ensures a == b
  {
    cache.table.Unique(cache.nodes[a].handle, cache.nodes[b].handle);
    hide HandleTable.Inv, Sum;
  }

  /** After an insertion that fits, a lookup of the key returns the new entry. */
  method InsertThenLookup(cache: LRUCache, hash: nat, key: Bytes, value: nat, charge: nat)
    returns (id: nat, r: Option<nat>)
    requires cache.Inv()
    modifies cache, cache.table
    ensures cache.Inv() && id == old(cache.made)
    ensures var rival := Rival(old(cache.table.Handles()), hash, key);
      UsageWith(old(cache.nodes), old(cache.out), old(cache.usage), rival, charge) <= cache.capacity ==>
        r == Some(id) && id in cache.nodes && cache.nodes[id] == Node(Handle(id, hash, key), value, charge)
  {
    ghost var lru, nodes, out, usage := cache.lru, cache.nodes, cache.out, cache.usage;
    ghost var rival := Rival(cache.table.Handles(), hash, key);
    RivalIsOlder(cache, hash, key);
    hide Counted, Listed, Accounted, Without, Evicted, Rival, UsageWith, WithNew;
    id := cache.Insert(hash, key, value, charge);
    ghost var before := UsageWith(nodes, out, usage, rival, charge);
    EvictionIsLeast(WithNew(lru, rival, id), nodes[id := cache.nodes[id]], cache.out, before, cache.capacity,
                    cache.lru, cache.usage);
    if before <= cache.capacity {
      NewIsOn(lru, rival, id);
      ListedIsHeld(cache.lru, cache.nodes, cache.table.Handles(), id);
    }
    r := cache.Lookup(hash, key);
    if before <= cache.capacity {
      assert r.Some?;
      OneHandle(cache, r.value, id);
    }
  }
}
