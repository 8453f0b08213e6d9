/**
 * The memtable's skip list: one writer inserts while any number of readers search without
 * locks. Every atomic load and store is a separate step, interleaved arbitrarily.
 */
module SkipLists {
  type Key = real

  const MAX_HEIGHT := 12

  /** A link word; memory that was never stored to is `Unset`. */
  datatype Link = Unset | Nil | To(node: nat)

  /** An arena node; its height is the number of its links. */
  datatype Node = Node(key: Key, links: seq<Link>)

  /** FindGreaterOrEqual, FindLessThan and FindLast. */
  datatype Query = GreaterOrEqual(target: Key) | LessThan(target: Key) | Last

  datatype Reader =
    | Quiet
    | Looking(query: Query, x: nat, level: nat)
    | Found(query: Query, result: Link)

  /** Where the one call of Insert is; `prev` is its array of predecessors. */
  datatype Writer =
    | Ready
    | Locating(key: Key, x: nat, level: nat, prev: map<nat, nat>)
    | Located(key: Key, prev: map<nat, nat>)
    | Linking(node: nat, prev: map<nat, nat>, i: nat, stored: bool)

  /** `nodes[0]` is the head, whose key is never read. */
  datatype State = State(nodes: seq<Node>, maxHeight: nat, writer: Writer, readers: seq<Reader>)

  // ---------------------------------------------------------------- steps

  /** Whether a search goes on to the node it just loaded. */
  predicate Advances(nodes: seq<Node>, q: Query, next: Link) {
    && next.To?
    && next.node < |nodes|
    && match q
       case GreaterOrEqual(target) => nodes[next.node].key < target
       case LessThan(target) => nodes[next.node].key < target
       case Last => true
  }

  /** A search's load from `x` at `level` reads a link that exists. */
  predicate Loadable(nodes: seq<Node>, x: nat, level: nat) {
    x < |nodes| && level < |nodes[x].links|
  }

  /** One load of a search and what it does with the result. */
  function LoadStep(nodes: seq<Node>, q: Query, x: nat, level: nat): Reader
    requires Loadable(nodes, x, level)
  {
    var next := nodes[x].links[level];
    if Advances(nodes, q, next) then Looking(q, next.node, level)
    else if level > 0 then Looking(q, x, level - 1)
    else Found(q, if q.GreaterOrEqual? then next else To(x))
  }

  predicate ReaderStep(s: State, r: nat, s': State) {
    && r < |s.readers| == |s'.readers|
    && s' == s.(readers := s.readers[r := s'.readers[r]])
    && match s.readers[r]
       case Looking(q, x, level) => Loadable(s.nodes, x, level) && s'.readers[r] == LoadStep(s.nodes, q, x, level)
       case _ =>
         && s.maxHeight > 0 && s'.readers[r].Looking?
         && s'.readers[r] == Looking(s'.readers[r].query, 0, s.maxHeight - 1)
  }

  function SetLink(nodes: seq<Node>, n: nat, level: nat, link: Link): seq<Node>
    requires Loadable(nodes, n, level)
  {
    nodes[n := nodes[n].(links := nodes[n].links[level := link])]
  }

  /** Insert may be called only with a key that is not in the list. */
  predicate BeginStep(s: State, key: Key, s': State) {
    && s.writer.Ready?
    && s.maxHeight > 0
    && (forall n :: 0 < n < |s.nodes| ==> s.nodes[n].key != key)
    && s' == s.(writer := Locating(key, 0, s.maxHeight - 1, map[]))
  }

  predicate LocateStep(s: State, s': State) {
    && s.writer.Locating?
    && var Locating(key, x, level, prev) := s.writer;
    && Loadable(s.nodes, x, level)
    && var next := s.nodes[x].links[level];
    && s' == s.(writer :=
                if Advances(s.nodes, GreaterOrEqual(key), next) then Locating(key, next.node, level, prev)
                else if level > 0 then Locating(key, x, level - 1, prev[level := x])
                else Located(key, prev[level := x]))
  }

  /** The head precedes the new node at levels the list did not have. */
  function FillHead(prev: map<nat, nat>, from: nat, to: nat): (filled: map<nat, nat>)
    ensures forall i: nat :: i in prev || from <= i < to ==>
        i in filled && filled[i] == (if from <= i < to then 0 else prev[i])
    decreases if from < to then to - from else 0
  {
    if from < to then FillHead(prev[from := 0], from + 1, to) else prev
  }

  /** The random height is any height; the store to `max_height_` is visible at once. */
  predicate AllocateStep(s: State, height: nat, s': State) {
    && s.writer.Located?
    && 0 < height <= MAX_HEIGHT
    && var Located(key, prev) := s.writer;
    && s' == s.(nodes := s.nodes + [Node(key, seq(height, _ => Unset))],
                maxHeight := if height > s.maxHeight then height else s.maxHeight,
                writer := Linking(|s.nodes|, FillHead(prev, s.maxHeight, height), 0, false))
  }

  /** The new node's own link, stored before anything points at it. */
  predicate PrepareStep(s: State, s': State) {
    && s.writer.Linking? && !s.writer.stored
    && var Linking(node, prev, i, _) := s.writer;
    && i in prev && Loadable(s.nodes, prev[i], i) && Loadable(s.nodes, node, i)
    && s' == s.(nodes := SetLink(s.nodes, node, i, s.nodes[prev[i]].links[i]), writer := s.writer.(stored := true))
  }

  /** The release store that makes the new node reachable at level `i`. */
  predicate PublishStep(s: State, s': State) {
    && s.writer.Linking? && s.writer.stored
    && var Linking(node, prev, i, _) := s.writer;
    && i in prev && Loadable(s.nodes, prev[i], i) && Loadable(s.nodes, node, i)
    && s' == s.(nodes := SetLink(s.nodes, prev[i], i, To(node)),
                writer := if i + 1 == |s.nodes[node].links| then Ready else s.writer.(i := i + 1, stored := false))
  }

  datatype Action = Begin(key: Key) | Locate | Allocate(height: nat) | Prepare | Publish | Read(reader: nat)

  predicate Step(s: State, a: Action, s': State) {
    match a
    case Begin(key) => BeginStep(s, key, s')
    case Locate => LocateStep(s, s')
    case Allocate(height) => AllocateStep(s, height, s')
    case Prepare => PrepareStep(s, s')
    case Publish => PublishStep(s, s')
    case Read(r) => ReaderStep(s, r, s')
  }

  predicate Init(s: State) {
    && |s.nodes| == 1 && s.nodes[0].links == seq(MAX_HEIGHT, _ => Nil)
    && s.maxHeight == 1
    && s.writer.Ready?
    && forall r :: 0 <= r < |s.readers| ==> s.readers[r].Quiet?
  }

  // ---------------------------------------------------------------- what the list is

  /** The number of levels at which node `n` has been linked in. */
  function Published(nodes: seq<Node>, w: Writer, n: nat): nat
    requires n < |nodes|
  {
    if w.Linking? && n == w.node then w.i else |nodes[n].links|
  }

  /** The nodes linked in at `level`, the head among them. */
  function Members(nodes: seq<Node>, w: Writer, level: nat): set<nat> {
    set n: nat | n < |nodes| && level < Published(nodes, w, n)
  }

  /** `m` comes before `n`; the head comes before every node. */
  predicate Ahead(nodes: seq<Node>, m: nat, n: nat)
    requires m < |nodes| && n < |nodes|
  {
    n != 0 && (m == 0 || nodes[m].key < nodes[n].key)
  }

  ghost predicate Inside(nodes: seq<Node>, ms: set<nat>) {
    forall n :: n in ms ==> n < |nodes|
  }

  /** The link out of `m` leads to the next member: the least key above `m`'s. */
  ghost predicate LeadsToNext(nodes: seq<Node>, ms: set<nat>, m: nat, link: Link)
    requires Inside(nodes, ms) && m < |nodes|
  {
    match link
    case Unset => false
    case Nil => forall n :: n in ms ==> !Ahead(nodes, m, n)
    case To(t) =>
      && t in ms && Ahead(nodes, m, t)
      && forall n :: n in ms && Ahead(nodes, m, n) ==> n == t || Ahead(nodes, t, n)
  }

  /** The links of one level make its members a sorted list from the head. */
  ghost predicate LevelLinked(nodes: seq<Node>, ms: set<nat>, level: nat) {
    && Inside(nodes, ms)
    && 0 in ms
    && forall n :: n in ms ==> level < |nodes[n].links| && LeadsToNext(nodes, ms, n, nodes[n].links[level])
  }

  predicate Below(nodes: seq<Node>, n: nat, key: Key)
    requires n < |nodes|
  {
    n == 0 || nodes[n].key < key
  }

  /** `p` is the last member whose key is below `key`. */
  ghost predicate LastBelow(nodes: seq<Node>, ms: set<nat>, p: nat, key: Key) {
    && Inside(nodes, ms)
    && p in ms
    && Below(nodes, p, key)
    && forall n :: n in ms && Below(nodes, n, key) ==> !Ahead(nodes, p, n)
  }

  ghost predicate ValidNodes(nodes: seq<Node>, maxHeight: nat) {
    && |nodes| > 0
    && |nodes[0].links| == MAX_HEIGHT
    && 0 < maxHeight <= MAX_HEIGHT
    && (forall n :: 0 < n < |nodes| ==> 0 < |nodes[n].links| <= maxHeight)
    && forall m, n :: 0 < m < n < |nodes| ==> nodes[m].key != nodes[n].key
  }

  ghost predicate AllLinked(nodes: seq<Node>, w: Writer) {
    forall level: nat :: level < MAX_HEIGHT ==> LevelLinked(nodes, Members(nodes, w, level), level)
  }

  ghost predicate Fresh(nodes: seq<Node>, key: Key) {
    forall n :: 0 < n < |nodes| ==> nodes[n].key != key
  }

  /** At levels `from` up to `to`, `prev` holds the node to link behind. */
  ghost predicate Behind(nodes: seq<Node>, w: Writer, prev: map<nat, nat>, from: nat, to: nat, key: Key) {
    forall l: nat :: from <= l < to ==> l in prev && LastBelow(nodes, Members(nodes, w, l), prev[l], key)
  }

  ghost predicate ValidWriter(nodes: seq<Node>, maxHeight: nat, w: Writer) {
    match w
    case Ready => true
    case Locating(key, x, level, prev) =>
      && Fresh(nodes, key)
      && level < maxHeight
      && ValidReader(nodes, w, Looking(GreaterOrEqual(key), x, level))
      && Behind(nodes, w, prev, level + 1, maxHeight, key)
    case Located(key, prev) =>
      && Fresh(nodes, key)
      && Behind(nodes, w, prev, 0, maxHeight, key)
    case Linking(node, prev, i, stored) =>
      && 0 < node < |nodes|
      && i < |nodes[node].links|
      && Behind(nodes, w, prev, i, |nodes[node].links|, nodes[node].key)
      && (stored ==> i in prev && Loadable(nodes, prev[i], i) && nodes[node].links[i] == nodes[prev[i]].links[i])
  }

  /** A search stands at a member of its level, before everything it may return. */
  ghost predicate ValidReader(nodes: seq<Node>, w: Writer, r: Reader) {
    r.Looking? ==> r.x in Members(nodes, w, r.level) && (r.query.Last? || Below(nodes, r.x, r.query.target))
  }

  ghost predicate Inv(s: State) {
    && ValidNodes(s.nodes, s.maxHeight)
    && AllLinked(s.nodes, s.writer)
    && ValidWriter(s.nodes, s.maxHeight, s.writer)
    && forall r :: 0 <= r < |s.readers| ==> ValidReader(s.nodes, s.writer, s.readers[r])
  }

  // ---------------------------------------------------------------- the invariant holds in every run

  lemma InitInv(s: State)
    requires Init(s)
    ensures Inv(s)
  {
  }

  /** Same keys, and at this level the same members and links: the level stays linked. */
  lemma LevelFrame(nodes: seq<Node>, nodes': seq<Node>, ms: set<nat>, level: nat)
    requires LevelLinked(nodes, ms, level)
    requires |nodes| <= |nodes'|
    requires forall n :: 0 <= n < |nodes| ==> nodes'[n].key == nodes[n].key
    requires forall n :: n in ms ==> level < |nodes'[n].links| && nodes'[n].links[level] == nodes[n].links[level]
    ensures LevelLinked(nodes', ms, level)
  {
    forall n | n in ms ensures LeadsToNext(nodes', ms, n, nodes'[n].links[level]) {
      assert LeadsToNext(nodes, ms, n, nodes[n].links[level]);
    }
  }

  /** One load of a correct search, whoever makes it: the link is set, the search stays correct. */
  lemma LoadKeeps(nodes: seq<Node>, maxHeight: nat, w: Writer, q: Query, x: nat, level: nat)
    requires ValidNodes(nodes, maxHeight) && AllLinked(nodes, w)
    requires level < MAX_HEIGHT && ValidReader(nodes, w, Looking(q, x, level))
    ensures Loadable(nodes, x, level) && nodes[x].links[level] != Unset
    ensures ValidReader(nodes, w, LoadStep(nodes, q, x, level))
  {
    var ms := Members(nodes, w, level);
    assert LevelLinked(nodes, ms, level);
    assert LeadsToNext(nodes, ms, x, nodes[x].links[level]);
  }

  lemma HeadStarts(nodes: seq<Node>, maxHeight: nat, w: Writer, q: Query, level: nat)
    requires ValidNodes(nodes, maxHeight) && AllLinked(nodes, w) && level < MAX_HEIGHT
    ensures ValidReader(nodes, w, Looking(q, 0, level))
  {
    assert LevelLinked(nodes, Members(nodes, w, level), level);
  }

  lemma LevelIsLow(nodes: seq<Node>, maxHeight: nat, w: Writer, r: Reader)
    requires ValidNodes(nodes, maxHeight) && ValidReader(nodes, w, r) && r.Looking?
    requires w.Linking? && w.node < |nodes| ==> w.i < |nodes[w.node].links|
    ensures r.level < MAX_HEIGHT
  {
  }

  lemma LinkingIsLow(nodes: seq<Node>, maxHeight: nat, w: Writer)
    requires ValidWriter(nodes, maxHeight, w)
    ensures w.Linking? && w.node < |nodes| ==> w.i < |nodes[w.node].links|
  {
  }

  lemma ReaderKeepsInv(s: State, r: nat, s': State)
    requires Inv(s) && ReaderStep(s, r, s')
    ensures Inv(s')
  {
    hide ValidWriter, AllLinked, ValidReader;
    if s.readers[r].Looking? {
      LinkingIsLow(s.nodes, s.maxHeight, s.writer);
      LevelIsLow(s.nodes, s.maxHeight, s.writer, s.readers[r]);
      LoadKeeps(s.nodes, s.maxHeight, s.writer, s.readers[r].query, s.readers[r].x, s.readers[r].level);
    } else {
      HeadStarts(s.nodes, s.maxHeight, s.writer, s'.readers[r].query, s.maxHeight - 1);
    }
  }

  /** While Insert searches, the list does not change. */
  lemma SearchingFrame(s: State, w: Writer)
    requires Inv(s) && !s.writer.Linking? && !w.Linking?
    ensures forall level: nat :: Members(s.nodes, w, level) == Members(s.nodes, s.writer, level)
    ensures AllLinked(s.nodes, w)
    ensures forall r :: 0 <= r < |s.readers| ==> ValidReader(s.nodes, w, s.readers[r])
  {
    forall level: nat ensures Members(s.nodes, w, level) == Members(s.nodes, s.writer, level) {
    }
    forall level: nat | level < MAX_HEIGHT ensures LevelLinked(s.nodes, Members(s.nodes, w, level), level) {
      assert LevelLinked(s.nodes, Members(s.nodes, s.writer, level), level);
    }
  }

  lemma BeginKeepsInv(s: State, key: Key, s': State)
    requires Inv(s) && BeginStep(s, key, s')
    ensures Inv(s')
  {
    hide AllLinked, ValidReader;
    SearchingFrame(s, s'.writer);
    HeadStarts(s.nodes, s.maxHeight, s'.writer, GreaterOrEqual(key), s.maxHeight - 1);
  }

  /** Where a search stops at a level, it stands at the last member below its key. */
  lemma StopsAtLastBelow(nodes: seq<Node>, w: Writer, key: Key, x: nat, level: nat)
    requires AllLinked(nodes, w) && level < MAX_HEIGHT
    requires ValidReader(nodes, w, Looking(GreaterOrEqual(key), x, level)) && Loadable(nodes, x, level)
    requires !Advances(nodes, GreaterOrEqual(key), nodes[x].links[level])
    ensures LastBelow(nodes, Members(nodes, w, level), x, key)
  {
    assert LevelLinked(nodes, Members(nodes, w, level), level);
    assert LeadsToNext(nodes, Members(nodes, w, level), x, nodes[x].links[level]);
  }

  lemma BehindFrame(nodes: seq<Node>, w: Writer, w': Writer, prev: map<nat, nat>, from: nat, to: nat, key: Key)
    requires Behind(nodes, w, prev, from, to, key)
    requires forall level: nat :: Members(nodes, w', level) == Members(nodes, w, level)
    ensures Behind(nodes, w', prev, from, to, key)
  {
    hide LastBelow, Members;
  }

  lemma LocateKeepsWriter(s: State, s': State)
    requires Inv(s) && LocateStep(s, s') && AllLinked(s.nodes, s'.writer)
    requires forall level: nat :: Members(s.nodes, s'.writer, level) == Members(s.nodes, s.writer, level)
    ensures ValidWriter(s'.nodes, s'.maxHeight, s'.writer)
  {
    hide AllLinked, Members, LastBelow, Fresh;
    var Locating(key, x, level, prev) := s.writer;
    LoadKeeps(s.nodes, s.maxHeight, s'.writer, GreaterOrEqual(key), x, level);
    BehindFrame(s.nodes, s.writer, s'.writer, prev, level + 1, s.maxHeight, key);
    if !Advances(s.nodes, GreaterOrEqual(key), s.nodes[x].links[level]) {
      StopsAtLastBelow(s.nodes, s'.writer, key, x, level);
    }
  }

  lemma LocateKeepsInv(s: State, s': State)
    requires Inv(s) && LocateStep(s, s')
    ensures Inv(s')
  {
    hide AllLinked, ValidReader, Members, ValidWriter, ValidNodes, Loadable;
    SearchingFrame(s, s'.writer);
    LocateKeepsWriter(s, s');
  }

  ghost predicate SameLinks(nodes: seq<Node>, nodes': seq<Node>, ms: set<nat>, level: nat) {
    forall n :: n in ms ==>
      Loadable(nodes, n, level) && Loadable(nodes', n, level) && nodes'[n].links[level] == nodes[n].links[level]
  }

  /** A change to the writer's own node only. */
  lemma UnlinkedFrame(s: State, s': State)
    requires Inv(s)
    requires |s.nodes| <= |s'.nodes|
    requires forall n :: 0 <= n < |s.nodes| ==> s'.nodes[n].key == s.nodes[n].key
    requires forall level: nat :: Members(s'.nodes, s'.writer, level) == Members(s.nodes, s.writer, level)
    requires forall level: nat :: SameLinks(s.nodes, s'.nodes, Members(s.nodes, s.writer, level), level)
    requires s'.readers == s.readers
    ensures AllLinked(s'.nodes, s'.writer)
    ensures forall r :: 0 <= r < |s'.readers| ==> ValidReader(s'.nodes, s'.writer, s'.readers[r])
  {
    forall level: nat | level < MAX_HEIGHT ensures LevelLinked(s'.nodes, Members(s'.nodes, s'.writer, level), level) {
      LevelFrame(s.nodes, s'.nodes, Members(s.nodes, s.writer, level), level);
    }
    forall r | 0 <= r < |s'.readers| ensures ValidReader(s'.nodes, s'.writer, s'.readers[r]) {
      assert ValidReader(s.nodes, s.writer, s.readers[r]);
    }
  }

  lemma AllocateKeepsMembers(s: State, height: nat, s': State)
    requires Inv(s) && AllocateStep(s, height, s')
    ensures forall level: nat :: Members(s'.nodes, s'.writer, level) == Members(s.nodes, s.writer, level)
    ensures forall level: nat :: SameLinks(s.nodes, s'.nodes, Members(s.nodes, s.writer, level), level)
    ensures ValidNodes(s'.nodes, s'.maxHeight)
  {
    forall level: nat ensures Members(s'.nodes, s'.writer, level) == Members(s.nodes, s.writer, level) {
    }
  }

  /** The new node fits behind `prev` at every level it has. */
  lemma AllocateKeepsWriter(s: State, height: nat, s': State)
    requires Inv(s) && AllocateStep(s, height, s')
    requires forall level: nat :: Members(s'.nodes, s'.writer, level) == Members(s.nodes, s.writer, level)
    ensures ValidWriter(s'.nodes, s'.maxHeight, s'.writer)
  {
    var Located(key, prev) := s.writer;
    forall l: nat | l < height ensures LastBelow(s'.nodes, Members(s'.nodes, s'.writer, l), s'.writer.prev[l], key) {
      if l >= s.maxHeight {
        assert forall n :: n in Members(s.nodes, s.writer, l) ==> n == 0;
      }
    }
  }

  lemma AllocateKeepsInv(s: State, height: nat, s': State)
    requires Inv(s) && AllocateStep(s, height, s')
    ensures Inv(s')
  {
    hide AllLinked, Members, ValidWriter, ValidReader;
    AllocateKeepsMembers(s, height, s');
    UnlinkedFrame(s, s');
    AllocateKeepsWriter(s, height, s');
  }

  lemma PrepareKeepsMembers(s: State, s': State)
    requires Inv(s) && PrepareStep(s, s')
    ensures forall level: nat :: Members(s'.nodes, s'.writer, level) == Members(s.nodes, s.writer, level)
    ensures s.writer.node !in Members(s.nodes, s.writer, s.writer.i)
    ensures forall level: nat :: SameLinks(s.nodes, s'.nodes, Members(s.nodes, s.writer, level), level)
  {
    forall level: nat ensures Members(s'.nodes, s'.writer, level) == Members(s.nodes, s.writer, level) {
    }
  }

  lemma PrepareKeepsWriter(s: State, s': State)
    requires Inv(s) && PrepareStep(s, s')
    requires forall level: nat :: Members(s'.nodes, s'.writer, level) == Members(s.nodes, s.writer, level)
    requires s.writer.node !in Members(s.nodes, s.writer, s.writer.i)
    ensures ValidWriter(s'.nodes, s'.maxHeight, s'.writer)
  {
    hide Members, AllLinked, ValidReader;
    var Linking(node, prev, i, _) := s.writer;
    forall l: nat | i <= l < |s.nodes[node].links|
      ensures LastBelow(s'.nodes, Members(s'.nodes, s'.writer, l), prev[l], s.nodes[node].key)
    {
      assert LastBelow(s.nodes, Members(s.nodes, s.writer, l), prev[l], s.nodes[node].key);
    }
  }

  lemma PrepareKeepsInv(s: State, s': State)
    requires Inv(s) && PrepareStep(s, s')
    ensures Inv(s')
  {
    hide AllLinked, Members, ValidWriter, ValidReader;
    PrepareKeepsMembers(s, s');
    UnlinkedFrame(s, s');
    PrepareKeepsWriter(s, s');
  }

  /** The new node leads to what its predecessor led to. */
  lemma NewNodeLeads(nodes: seq<Node>, ms: set<nat>, p: nat, node: nat, link: Link)
    requires 0 < node < |nodes| && LastBelow(nodes, ms, p, nodes[node].key) && LeadsToNext(nodes, ms, p, link)
    requires forall n :: n in ms && n != 0 ==> nodes[n].key != nodes[node].key
    ensures LeadsToNext(nodes, ms + {node}, node, link)
  {
  }

  lemma PredecessorLeads(nodes: seq<Node>, ms: set<nat>, p: nat, node: nat)
    requires 0 < node < |nodes| && LastBelow(nodes, ms, p, nodes[node].key)
    requires forall n :: n in ms && n != 0 ==> nodes[n].key != nodes[node].key
    ensures LeadsToNext(nodes, ms + {node}, p, To(node))
  {
  }

  /** Every other member's next is not affected. */
  lemma OtherLeads(nodes: seq<Node>, ms: set<nat>, p: nat, node: nat, n: nat, link: Link)
    requires 0 < node < |nodes| && LastBelow(nodes, ms, p, nodes[node].key)
    requires n in ms && n != p && LeadsToNext(nodes, ms, n, link)
    requires forall m, n :: m in ms && n in ms && 0 != m && n != 0 && m != n ==> nodes[m].key != nodes[n].key
    ensures LeadsToNext(nodes, ms + {node}, n, link)
  {
    if Ahead(nodes, n, node) {
      assert Below(nodes, n, nodes[node].key);
      assert Ahead(nodes, n, p);
    }
  }

  /** Linking a fresh node in behind the last member below it. */
  lemma PublishLevel(nodes: seq<Node>, maxHeight: nat, ms: set<nat>, level: nat, p: nat, node: nat)
    requires ValidNodes(nodes, maxHeight) && LevelLinked(nodes, ms, level)
    requires 0 < node < |nodes| && node !in ms && p in ms && LastBelow(nodes, ms, p, nodes[node].key)
    requires level < |nodes[node].links| && nodes[node].links[level] == nodes[p].links[level]
    ensures LevelLinked(SetLink(nodes, p, level, To(node)), ms + {node}, level)
  {
    hide LeadsToNext, LastBelow;
    var nodes' := SetLink(nodes, p, level, To(node));
    forall n | n in ms + {node} ensures LeadsToNext(nodes, ms + {node}, n, nodes'[n].links[level]) {
      assert LeadsToNext(nodes, ms, p, nodes[p].links[level]);
      if n == node {
        NewNodeLeads(nodes, ms, p, node, nodes[p].links[level]);
      } else if n == p {
        PredecessorLeads(nodes, ms, p, node);
      } else {
        OtherLeads(nodes, ms, p, node, n, nodes[n].links[level]);
      }
    }
    SameKeysLead(nodes, nodes', ms + {node}, level);
  }

  lemma SameKeysLead(nodes: seq<Node>, nodes': seq<Node>, ms: set<nat>, level: nat)
    requires |nodes'| == |nodes| && Inside(nodes, ms)
    requires forall n :: 0 <= n < |nodes| ==> nodes'[n].key == nodes[n].key
    requires forall n :: n in ms ==> level < |nodes'[n].links| && LeadsToNext(nodes, ms, n, nodes'[n].links[level])
    ensures forall n :: n in ms ==> LeadsToNext(nodes', ms, n, nodes'[n].links[level])
  {
    forall n | n in ms ensures LeadsToNext(nodes', ms, n, nodes'[n].links[level]) {
      assert LeadsToNext(nodes, ms, n, nodes'[n].links[level]);
    }
  }

  lemma PublishMembers(s: State, s': State, level: nat)
    requires Inv(s) && PublishStep(s, s')
    ensures Members(s'.nodes, s'.writer, level)
         == if level == s.writer.i then Members(s.nodes, s.writer, level) + {s.writer.node}
            else Members(s.nodes, s.writer, level)
    ensures s.writer.node !in Members(s.nodes, s.writer, s.writer.i)
  {
    hide AllLinked, ValidReader;
  }

  lemma PublishKeepsLevel(s: State, s': State, level: nat)
    requires Inv(s) && PublishStep(s, s') && level < MAX_HEIGHT
    ensures LevelLinked(s'.nodes, Members(s'.nodes, s'.writer, level), level)
  {
    hide Members, LevelLinked, LastBelow, ValidReader;
    var Linking(node, prev, i, _) := s.writer;
    PublishMembers(s, s', level);
    var ms := Members(s.nodes, s.writer, level);
    assert LevelLinked(s.nodes, ms, level);
    if level == i {
      LastBelowIn(s.nodes, ms, prev[i], s.nodes[node].key);
      PublishLevel(s.nodes, s.maxHeight, ms, level, prev[i], node);
    } else {
      OtherLinks(s.nodes, prev[i], i, To(node), ms, level);
    }
  }

  lemma LastBelowIn(nodes: seq<Node>, ms: set<nat>, p: nat, key: Key)
    requires LastBelow(nodes, ms, p, key)
    ensures p in ms
  {
  }

  lemma OtherLinks(nodes: seq<Node>, n: nat, i: nat, link: Link, ms: set<nat>, level: nat)
    requires LevelLinked(nodes, ms, level) && Loadable(nodes, n, i) && i != level
    ensures LevelLinked(SetLink(nodes, n, i, link), ms, level)
  {
    LevelFrame(nodes, SetLink(nodes, n, i, link), ms, level);
  }

  lemma PublishKeepsWriter(s: State, s': State)
    requires Inv(s) && PublishStep(s, s')
    ensures ValidWriter(s'.nodes, s'.maxHeight, s'.writer)
  {
    hide Members, AllLinked, ValidReader;
    var Linking(node, prev, i, _) := s.writer;
    forall l: nat | i < l < |s.nodes[node].links|
      ensures LastBelow(s'.nodes, Members(s'.nodes, s'.writer, l), prev[l], s.nodes[node].key)
    {
      PublishMembers(s, s', l);
      assert LastBelow(s.nodes, Members(s.nodes, s.writer, l), prev[l], s.nodes[node].key);
    }
  }

  lemma PublishKeepsReader(s: State, s': State, r: Reader)
    requires Inv(s) && PublishStep(s, s') && ValidReader(s.nodes, s.writer, r)
    ensures ValidReader(s'.nodes, s'.writer, r)
  {
    hide Members, AllLinked, ValidWriter;
    if r.Looking? {
      MembersExist(s.nodes, s.writer, r.level);
      PublishMembers(s, s', r.level);
    }
  }

  lemma MembersExist(nodes: seq<Node>, w: Writer, level: nat)
    ensures forall n :: n in Members(nodes, w, level) ==> n < |nodes|
  {
  }

  lemma PublishKeepsInv(s: State, s': State)
    requires Inv(s) && PublishStep(s, s')
    ensures Inv(s')
  {
    hide Members, LevelLinked, ValidWriter, ValidReader;
    forall level: nat | level < MAX_HEIGHT ensures LevelLinked(s'.nodes, Members(s'.nodes, s'.writer, level), level) {
      PublishKeepsLevel(s, s', level);
    }
    forall r | 0 <= r < |s'.readers| ensures ValidReader(s'.nodes, s'.writer, s'.readers[r]) {
      PublishKeepsReader(s, s', s.readers[r]);
    }
    PublishKeepsWriter(s, s');
  }

  lemma StepKeepsInv(s: State, a: Action, s': State)
    requires Inv(s) && Step(s, a, s')
    ensures Inv(s')
  {
    hide Inv, BeginStep, LocateStep, AllocateStep, PrepareStep, PublishStep, ReaderStep;
    match a
    case Begin(key) => BeginKeepsInv(s, key, s');
    case Locate => LocateKeepsInv(s, s');
    case Allocate(height) => AllocateKeepsInv(s, height, s');
    case Prepare => PrepareKeepsInv(s, s');
    case Publish => PublishKeepsInv(s, s');
    case Read(r) => ReaderKeepsInv(s, r, s');
  }

  ghost predicate Run(states: seq<State>, actions: seq<Action>) {
    && |states| == |actions| + 1
    && Init(states[0])
    && forall i :: 0 <= i < |actions| ==> Step(states[i], actions[i], states[i + 1])
  }

  lemma {:induction false} RunsKeepInv(states: seq<State>, actions: seq<Action>, n: nat)
    requires Run(states, actions) && n <= |actions|
    ensures Inv(states[n])
  {
    hide Inv, Step, Init;
    if n == 0 {
      InitInv(states[0]);
    } else {
      RunsKeepInv(states, actions, n - 1);
      StepKeepsInv(states[n - 1], actions[n - 1], states[n]);
    }
  }

  // ---------------------------------------------------------------- what readers get

  /** What a query of the list of `ms` must answer. */
  ghost predicate Answers(nodes: seq<Node>, ms: set<nat>, q: Query, result: Link)
    requires Inside(nodes, ms)
  {
    match q
    case GreaterOrEqual(target) => (
      match result
      case Unset => false
      case Nil => forall n :: n in ms ==> Below(nodes, n, target)
      case To(t) => t in ms && t != 0 && nodes[t].key >= target
                    && forall n :: n in ms && n != 0 && nodes[n].key >= target ==> nodes[t].key <= nodes[n].key)
    case LessThan(target) => result.To? && LastBelow(nodes, ms, result.node, target)
    case Last => result.To? && result.node in ms && forall n :: n in ms ==> !Ahead(nodes, result.node, n)
  }

  /** A search that ends answers for the list as it is at its last load. */
  lemma SearchAnswers(s: State, r: nat, s': State)
    requires Inv(s) && ReaderStep(s, r, s') && s'.readers[r].Found?
    ensures Inside(s.nodes, Members(s.nodes, s.writer, 0))
    ensures Answers(s.nodes, Members(s.nodes, s.writer, 0), s'.readers[r].query, s'.readers[r].result)
  {
    hide Answers, Advances, LeadsToNext, Members, ValidWriter, ValidNodes;
    var Looking(q, x, level) := s.readers[r];
    var ms := Members(s.nodes, s.writer, 0);
    assert LevelLinked(s.nodes, ms, 0);
    assert ValidReader(s.nodes, s.writer, s.readers[r]);
    LastLoadAnswers(s.nodes, ms, q, x, s.nodes[x].links[0]);
  }

  /** A load that goes no further, at the lowest level, has the answer. */
  lemma LastLoadAnswers(nodes: seq<Node>, ms: set<nat>, q: Query, x: nat, next: Link)
    requires Inside(nodes, ms) && x in ms && LeadsToNext(nodes, ms, x, next) && !Advances(nodes, q, next)
    requires 0 in ms && (q.Last? || Below(nodes, x, q.target))
    ensures Answers(nodes, ms, q, if q.GreaterOrEqual? then next else To(x))
  {
  }

  /** In every run no search ever loads a link that was not stored, and every answer is exact. */
  lemma ReadersAreExact(states: seq<State>, actions: seq<Action>, n: nat, r: nat)
    requires Run(states, actions) && n <= |actions| && r < |states[n].readers|
    ensures states[n].readers[r].Looking? ==>
              && Loadable(states[n].nodes, states[n].readers[r].x, states[n].readers[r].level)
              && states[n].nodes[states[n].readers[r].x].links[states[n].readers[r].level] != Unset
    ensures n < |actions| && actions[n] == Read(r) && states[n + 1].readers[r].Found? ==>
              && Inside(states[n].nodes, Members(states[n].nodes, states[n].writer, 0))
              && Answers(states[n].nodes, Members(states[n].nodes, states[n].writer, 0),
                         states[n + 1].readers[r].query, states[n + 1].readers[r].result)
  {
    hide ValidWriter, AllLinked, ValidReader, Init, Answers, Inside, Members;
    RunsKeepInv(states, actions, n);
    var s := states[n];
    if s.readers[r].Looking? {
      LinkingIsLow(s.nodes, s.maxHeight, s.writer);
      LevelIsLow(s.nodes, s.maxHeight, s.writer, s.readers[r]);
      LoadKeeps(s.nodes, s.maxHeight, s.writer, s.readers[r].query, s.readers[r].x, s.readers[r].level);
    }
    if n < |actions| && actions[n] == Read(r) && states[n + 1].readers[r].Found? {
      SearchAnswers(s, r, states[n + 1]);
    }
  }

  // ---------------------------------------------------------------- the lists

  /** Following level links from `m` visits exactly `chain`. */
  predicate Follows(nodes: seq<Node>, level: nat, m: nat, chain: seq<nat>)
    decreases |chain|
  {
    && Loadable(nodes, m, level)
    && if chain == [] then nodes[m].links[level] == Nil
       else nodes[m].links[level] == To(chain[0]) && Follows(nodes, level, chain[0], chain[1..])
  }

  predicate Ascending(nodes: seq<Node>, chain: seq<nat>) {
    && (forall i :: 0 <= i < |chain| ==> 0 < chain[i] < |nodes|)
    && forall i, j :: 0 <= i < j < |chain| ==> nodes[chain[i]].key < nodes[chain[j]].key
  }

  function After(nodes: seq<Node>, ms: set<nat>, m: nat): set<nat> {
    set n | n in ms && n < |nodes| && m < |nodes| && Ahead(nodes, m, n)
  }

  lemma AfterNext(nodes: seq<Node>, ms: set<nat>, m: nat, link: Link)
    requires Inside(nodes, ms) && m in ms && LeadsToNext(nodes, ms, m, link)
    ensures match link
            case To(t) => t in ms && t !in After(nodes, ms, t) && After(nodes, ms, m) == After(nodes, ms, t) + {t}
            case _ => After(nodes, ms, m) == {}
  {
  }

  lemma AscendingCons(nodes: seq<Node>, ms: set<nat>, t: nat, rest: seq<nat>)
    requires 0 < t < |nodes| && Ascending(nodes, rest) && (set n | n in rest) == After(nodes, ms, t)
    ensures Ascending(nodes, [t] + rest)
  {
    forall i | 0 <= i < |rest| ensures nodes[t].key < nodes[rest[i]].key {
      assert rest[i] in (set n | n in rest);
      assert rest[i] in After(nodes, ms, t);
    }
  }

  /** The links reach every member after `m`, once, in key order. */
  lemma {:induction false} ChainFrom(nodes: seq<Node>, ms: set<nat>, level: nat, m: nat) returns (chain: seq<nat>)
    requires LevelLinked(nodes, ms, level) && m in ms
    ensures Follows(nodes, level, m, chain) && Ascending(nodes, chain)
    ensures (set n | n in chain) == After(nodes, ms, m)
    decreases |After(nodes, ms, m)|
  {
    hide After, Ascending;
    var link := nodes[m].links[level];
    AfterNext(nodes, ms, m, link);
    if link.Nil? {
      chain := [];
      NoneAscending(nodes);
    } else {
      var t := link.node;
      var rest := ChainFrom(nodes, ms, level, t);
      chain := [t] + rest;
      assert chain[1..] == rest;
      AscendingCons(nodes, ms, t, rest);
      ChainMembers(t, rest);
    }
  }

  lemma NoneAscending(nodes: seq<Node>)
    ensures Ascending(nodes, [])
  {
  }

  lemma ChainMembers(t: nat, rest: seq<nat>)
    ensures (set n | n in [t] + rest) == (set n | n in rest) + {t}
  {
  }

  /** At every moment each level is a sorted list, and its members are among those of the level below. */
  lemma LevelsAreSortedSublists(s: State, level: nat) returns (upper: seq<nat>, lower: seq<nat>)
    requires Inv(s) && level + 1 < MAX_HEIGHT
    ensures Follows(s.nodes, level + 1, 0, upper) && Ascending(s.nodes, upper)
    ensures Follows(s.nodes, level, 0, lower) && Ascending(s.nodes, lower)
    ensures forall n :: n in upper ==> n in lower
  {
    hide LevelLinked, Follows, Ascending, ValidWriter, ValidReader, ValidNodes;
    var up, low := Members(s.nodes, s.writer, level + 1), Members(s.nodes, s.writer, level);
    assert LevelLinked(s.nodes, up, level + 1) && LevelLinked(s.nodes, low, level);
    HeadIn(s.nodes, up, level + 1);
    HeadIn(s.nodes, low, level);
    upper := ChainFrom(s.nodes, up, level + 1, 0);
    lower := ChainFrom(s.nodes, low, level, 0);
    forall n | n in upper ensures n in lower {
      assert n in (set n | n in upper);
      assert n in After(s.nodes, up, 0);
      assert n in After(s.nodes, low, 0);
      assert n in (set n | n in lower);
    }
  }

  lemma HeadIn(nodes: seq<Node>, ms: set<nat>, level: nat)
    requires LevelLinked(nodes, ms, level)
    ensures 0 in ms
  {
  }

  /** Members are never unlinked, so what a completed Insert added is found ever after. */
  lemma {:induction false} MembersStay(states: seq<State>, actions: seq<Action>, m: nat, n: nat, level: nat)
    requires Run(states, actions) && m <= n <= |actions|
    ensures Members(states[m].nodes, states[m].writer, level) <= Members(states[n].nodes, states[n].writer, level)
    ensures |states[m].nodes| <= |states[n].nodes|
    ensures forall i :: 0 <= i < |states[m].nodes| ==> states[n].nodes[i].key == states[m].nodes[i].key
    decreases n
  {
    hide Members, Inv, Init, Step;
    if m < n {
      RunsKeepInv(states, actions, n - 1);
      MembersStay(states, actions, m, n - 1, level);
      StepKeepsMembers(states[n - 1], actions[n - 1], states[n], level);
    }
  }

  lemma StepKeepsMembers(s: State, a: Action, s': State, level: nat)
    requires Inv(s) && Step(s, a, s')
    ensures Members(s.nodes, s.writer, level) <= Members(s'.nodes, s'.writer, level)
    ensures |s.nodes| <= |s'.nodes| && forall i :: 0 <= i < |s.nodes| ==> s'.nodes[i].key == s.nodes[i].key
  {
    hide AllLinked, ValidReader;
    match a
    case Allocate(height) => AllocateKeepsMembers(s, height, s');
    case Prepare => PrepareKeepsMembers(s, s');
    case Publish => PublishMembers(s, s', level);
    case _ =>
  }

  // ---------------------------------------------------------------- an Insert that is over

  /** The list has the key at its lowest level. */
  ghost predicate HasKey(s: State, key: Key) {
    exists m :: m in Members(s.nodes, s.writer, 0) && 0 < m < |s.nodes| && s.nodes[m].key == key
  }

  /** The key is in the list, or the call of Insert under way will put it there. */
  ghost predicate Inserts(s: State, key: Key) {
    || HasKey(s, key)
    || match s.writer
       case Ready => false
       case Locating(k, _, _, _) => k == key
       case Located(k, _) => k == key
       case Linking(node, _, _, _) => node < |s.nodes| && s.nodes[node].key == key
  }

  lemma KeyStays(s: State, a: Action, s': State, key: Key)
    requires Inv(s) && Step(s, a, s') && HasKey(s, key)
    ensures HasKey(s', key)
  {
    hide Inv, Step, Members;
    var m :| m in Members(s.nodes, s.writer, 0) && 0 < m < |s.nodes| && s.nodes[m].key == key;
    StepKeepsMembers(s, a, s', 0);
    assert m in Members(s'.nodes, s'.writer, 0);
  }

  lemma StepStillInserts(s: State, a: Action, s': State, key: Key)
    requires Inv(s) && Step(s, a, s') && Inserts(s, key)
    ensures Inserts(s', key)
  {
    if HasKey(s, key) {
      KeyStays(s, a, s', key);
    } else if a.Publish? {
      PublishInserts(s, s', key);
    } else {
      hide AllLinked, ValidReader, HasKey, LoadStep;
    }
  }

  lemma PublishInserts(s: State, s': State, key: Key)
    requires Inv(s) && PublishStep(s, s') && s.writer.Linking? && s.nodes[s.writer.node].key == key
    ensures Inserts(s', key)
  {
    hide AllLinked, ValidReader;
    if s'.writer.Ready? {
      assert s.writer.node in Members(s'.nodes, s'.writer, 0);
    }
  }

  lemma {:induction false} BegunInserts(states: seq<State>, actions: seq<Action>, i: nat, n: nat, key: Key)
    requires Run(states, actions) && i < n <= |actions| && actions[i] == Begin(key)
    ensures Inserts(states[n], key)
    decreases n
  {
    hide Inv, Init;
    if i + 1 == n {
      assert Step(states[i], actions[i], states[n]);
    } else {
      hide Step, Inserts;
      BegunInserts(states, actions, i, n - 1, key);
      RunsKeepInv(states, actions, n - 1);
      StepStillInserts(states[n - 1], actions[n - 1], states[n], key);
    }
  }

  /** In every run, once a call of Insert is over, the list has its key. */
  lemma FinishedInsertIsThere(states: seq<State>, actions: seq<Action>, i: nat, n: nat, key: Key)
    requires Run(states, actions) && i < n <= |actions| && actions[i] == Begin(key) && states[n].writer.Ready?
    ensures HasKey(states[n], key)
  {
    hide Step, Init, HasKey;
    BegunInserts(states, actions, i, n, key);
  }

  lemma ExactHit(nodes: seq<Node>, ms: set<nat>, key: Key, result: Link, m: nat)
    requires Inside(nodes, ms) && Answers(nodes, ms, GreaterOrEqual(key), result)
    requires m in ms && m != 0 && nodes[m].key == key
    ensures result.To? && result.node < |nodes| && result.node != 0 && nodes[result.node].key == key
  {
  }

  lemma {:induction false} KeyInLaterStates(states: seq<State>, actions: seq<Action>, n: nat, m: nat, key: Key)
    requires Run(states, actions) && n <= m <= |actions| && HasKey(states[n], key)
    ensures HasKey(states[m], key)
    decreases m
  {
    hide Inv, Init, Step, HasKey;
    if n < m {
      KeyInLaterStates(states, actions, n, m - 1, key);
      RunsKeepInv(states, actions, m - 1);
      KeyStays(states[m - 1], actions[m - 1], states[m], key);
    }
  }

  /** A search for the key that takes its last step after that, and so any that starts then, finds exactly it. */
  lemma FinishedInsertIsFound(states: seq<State>, actions: seq<Action>, i: nat, n: nat, m: nat, key: Key, r: nat)
    requires Run(states, actions) && i < n <= m < |actions| && actions[i] == Begin(key) && states[n].writer.Ready?
    requires r < |states[m].readers| && r < |states[m + 1].readers| && actions[m] == Read(r)
    requires states[m + 1].readers[r].Found? && states[m + 1].readers[r].query == GreaterOrEqual(key)
    ensures var result := states[m + 1].readers[r].result;
      result.To? && 0 < result.node < |states[m].nodes| && states[m].nodes[result.node].key == key
  {
    hide Step, Init, Members, Answers, Inside;
    FinishedInsertIsThere(states, actions, i, n, key);
    KeyInLaterStates(states, actions, n, m, key);
    ReadersAreExact(states, actions, m, r);
    var s := states[m];
    var k :| k in Members(s.nodes, s.writer, 0) && 0 < k < |s.nodes| && s.nodes[k].key == key;
    ExactHit(s.nodes, Members(s.nodes, s.writer, 0), key, states[m + 1].readers[r].result, k);
  }
}
