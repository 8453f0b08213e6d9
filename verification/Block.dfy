/** Prefix-compressed blocks (table/block_builder.cc, table/block.cc). */
module Blocks {
  import opened Bytewise
  import opened Coding
  import opened Fixed
  import opened Options

  datatype Pair = Pair(key: Bytes, value: Bytes)

  // ---------------------------------------------------------------- one entry

  /** A stored entry: three lengths, the part of the key that is not shared, and the value. */
  function Entry(shared: nat, p: Pair): Bytes
    requires shared <= |p.key|
  {
    Header(shared, |p.key| - shared, |p.value|) + (p.key[shared..] + p.value)
  }

  function Header(shared: nat, nonShared: nat, valueLength: nat): Bytes {
    Varint(shared) + (Varint(nonShared) + Varint(valueLength))
  }

  /** The three lengths, and how many bytes they take. */
  datatype Lengths = Lengths(shared: nat, nonShared: nat, valueLength: nat, size: nat)

  /** DecodeEntry on the bytes up to the limit. */
  function DecodeEntry(input: Bytes): Option<Lengths> {
    if |input| < 3 then None
    else
      var l := DecodeLengths(input);
      if l.None? || |input| - l.value.size < (l.value.nonShared + l.value.valueLength) % WORD32 then None else l
  }

  function DecodeLengths(input: Bytes): (r: Option<Lengths>)
    requires |input| >= 3
    ensures r.Some? ==> r.value.size <= |input|
  {
    if input[0] < 128 && input[1] < 128 && input[2] < 128 then Some(Lengths(input[0], input[1], input[2], 3))
    else
      var a := GetVarint32(input);
      if a.None? then None
      else
        var b := GetVarint32(a.value.rest);
        if b.None? then None
        else
          var c := GetVarint32(b.value.rest);
          if c.None? then None
          else Some(Lengths(a.value.value, b.value.value, c.value.value, |input| - |c.value.rest|))
  }

  /** The fast path agrees with the general one. */
  lemma FastPath(input: Bytes)
    requires |input| >= 3 && input[0] < 128 && input[1] < 128 && input[2] < 128
    ensures GetVarint32(input) == Some(Decoded(input[0] as nat, input[1..]))
    ensures GetVarint32(input[1..]) == Some(Decoded(input[1] as nat, input[2..]))
    ensures GetVarint32(input[2..]) == Some(Decoded(input[2] as nat, input[3..]))
  {
    assert input[1..][1..] == input[2..] && input[2..][1..] == input[3..];
  }

  lemma DecodeLengthsBack(shared: nat, nonShared: nat, valueLength: nat, rest: Bytes)
    requires shared < WORD32 && nonShared < WORD32 && valueLength < WORD32
    ensures |Header(shared, nonShared, valueLength)| >= 3
    ensures DecodeLengths(Header(shared, nonShared, valueLength) + rest)
         == Some(Lengths(shared, nonShared, valueLength, |Header(shared, nonShared, valueLength)|))
  {
    hide Varint, GetVarint32;
    var h := Header(shared, nonShared, valueLength);
    var c := Varint(valueLength) + rest;
    var b := Varint(nonShared) + c;
    assert h + rest == Varint(shared) + b;
    GetVarint32Back(shared, b);
    GetVarint32Back(nonShared, c);
    GetVarint32Back(valueLength, rest);
    var input := h + rest;
    if input[0] < 128 && input[1] < 128 && input[2] < 128 {
      FastPath(input);
    }
  }

  predicate Small(p: Pair) {
    |p.key| + |p.value| < WORD32
  }

  /** An entry is read back, whatever follows it. */
  lemma DecodeEntryBack(shared: nat, p: Pair, rest: Bytes)
    requires shared <= |p.key| && Small(p)
    ensures var h := |Header(shared, |p.key| - shared, |p.value|)|;
            && h >= 3 && |Entry(shared, p)| == h + |p.key| - shared + |p.value|
            && DecodeEntry(Entry(shared, p) + rest) == Some(Lengths(shared, |p.key| - shared, |p.value|, h))
            && Entry(shared, p)[h..h + |p.key| - shared] == p.key[shared..]
            && Entry(shared, p)[h + |p.key| - shared..] == p.value
  {
    hide Header, DecodeLengths;
    var body := p.key[shared..] + p.value;
    DecodeLengthsBack(shared, |p.key| - shared, |p.value|, body + rest);
    assert Entry(shared, p) + rest == Header(shared, |p.key| - shared, |p.value|) + (body + rest);
  }

  // ---------------------------------------------------------------- the layout of a block

  /**
   * The entries of a block: how much of its key each shares with the one before, where each
   * begins, and which of them are restart points.
   */
  datatype Layout = Layout(pairs: seq<Pair>, shared: seq<nat>, offsets: seq<nat>, restarts: seq<nat>)

  /** Entry `i` lies in the buffer at its place. */
  ghost predicate EntryAt(buffer: Bytes, l: Layout, i: nat)
    requires i < |l.pairs| == |l.shared| && |l.offsets| == |l.pairs| + 1
  {
    && Small(l.pairs[i])
    && l.shared[i] <= |l.pairs[i].key|
    && l.offsets[i + 1] == l.offsets[i] + |Entry(l.shared[i], l.pairs[i])|
    && l.offsets[i + 1] <= |buffer|
    && buffer[l.offsets[i]..l.offsets[i + 1]] == Entry(l.shared[i], l.pairs[i])
  }

  /** Key `i` begins with the part it shares with the key before it. */
  ghost predicate Shares(l: Layout, i: nat)
    requires i < |l.pairs| == |l.shared|
  {
    if i == 0 then l.shared[i] == 0
    else l.shared[i] <= |l.pairs[i].key| && l.shared[i] <= |l.pairs[i - 1].key|
         && l.pairs[i - 1].key[..l.shared[i]] == l.pairs[i].key[..l.shared[i]]
  }

  ghost predicate Shape(l: Layout) {
    && |l.shared| == |l.pairs| && |l.offsets| == |l.pairs| + 1 && l.offsets[0] == 0
    && l.restarts != [] && l.restarts[0] == 0
    && (forall r :: 0 < r < |l.restarts| ==> 0 < l.restarts[r] < |l.pairs|)
    && (forall r, q :: 0 <= r < q < |l.restarts| ==> l.restarts[r] < l.restarts[q])
  }

  ghost predicate LaidOut(buffer: Bytes, l: Layout) {
    && Shape(l)
    && l.offsets[|l.pairs|] == |buffer|
    && (forall i :: 0 <= i < |l.pairs| ==> EntryAt(buffer, l, i) && Shares(l, i))
    && forall r :: 0 <= r < |l.restarts| && l.restarts[r] < |l.pairs| ==> l.shared[l.restarts[r]] == 0
  }

  /** One more entry at the end. */
  function Extended(buffer: Bytes, l: Layout, shared: nat, p: Pair, restart: bool): Layout
    requires shared <= |p.key|
  {
    Layout(l.pairs + [p], l.shared + [shared], l.offsets + [|buffer| + |Entry(shared, p)|],
           if restart then l.restarts + [|l.pairs|] else l.restarts)
  }

  lemma EntryStays(buffer: Bytes, more: Bytes, l: Layout, l': Layout, i: nat)
    requires i < |l.pairs| == |l.shared| && |l.offsets| == |l.pairs| + 1 && EntryAt(buffer, l, i)
    requires |l'.pairs| == |l'.shared| && |l'.offsets| == |l'.pairs| + 1
    requires l.pairs <= l'.pairs && l.shared <= l'.shared && l.offsets <= l'.offsets
    ensures EntryAt(buffer + more, l', i)
  {
    hide Entry, Small;
    assert (buffer + more)[l.offsets[i]..l.offsets[i + 1]] == buffer[l.offsets[i]..l.offsets[i + 1]];
  }

  lemma LaidOutGrows(buffer: Bytes, l: Layout, shared: nat, p: Pair, restart: bool)
    requires LaidOut(buffer, l) && shared <= |p.key| && Small(p)
    requires if l.pairs == [] then shared == 0
             else shared <= |l.pairs[|l.pairs| - 1].key| && l.pairs[|l.pairs| - 1].key[..shared] == p.key[..shared]
    requires restart ==> shared == 0 && l.pairs != []
    ensures LaidOut(buffer + Entry(shared, p), Extended(buffer, l, shared, p, restart))
  {
    hide Entry, Small;
    var l', e, n := Extended(buffer, l, shared, p, restart), Entry(shared, p), |l.pairs|;
    forall i | 0 <= i < n ensures EntryAt(buffer + e, l', i) && Shares(l', i) {
      assert EntryAt(buffer, l, i) && Shares(l, i);
      EntryStays(buffer, e, l, l', i);
    }
    assert (buffer + e)[|buffer|..|buffer| + |e|] == e;
    assert l'.offsets[n] == |buffer|;
    assert EntryAt(buffer + e, l', n) && Shares(l', n);
  }

  // ---------------------------------------------------------------- building

  function Words(ns: seq<nat>): (b: Bytes)
    ensures |b| == 4 * |ns|
  {
    if ns == [] then [] else Words(ns[..|ns| - 1]) + Encode32(ns[|ns| - 1] % WORD)
  }

  lemma {:induction false} WordAt(ns: seq<nat>, i: nat)
    requires i < |ns| && ns[i] < WORD
    ensures Decode32(Words(ns)[4 * i..4 * i + 4]) == ns[i]
  {
    hide Encode32, Decode32;
    var fewer := ns[..|ns| - 1];
    if i < |fewer| {
      WordAt(fewer, i);
      assert Words(ns)[4 * i..4 * i + 4] == Words(fewer)[4 * i..4 * i + 4];
    } else {
      Decode32Encode32(ns[i]);
      assert Words(ns)[4 * i..4 * i + 4] == Encode32(ns[i] % WORD);
    }
  }

  /** A finished block: the entries, the restart offsets and their number. */
  function Finished(buffer: Bytes, restarts: seq<nat>): Bytes {
    buffer + Words(restarts) + Encode32(|restarts| % WORD)
  }

  ghost predicate RestartsAt(restarts: seq<nat>, l: Layout) {
    && |restarts| == |l.restarts|
    && forall r :: 0 <= r < |restarts| ==> 0 <= l.restarts[r] < |l.offsets| && restarts[r] == l.offsets[l.restarts[r]]
  }

  method SharedPrefix(a: Bytes, b: Bytes) returns (n: nat)
    ensures n <= |a| && n <= |b| && a[..n] == b[..n]
    ensures n < |a| && n < |b| ==> a[n] != b[n]
  {
    var minLength := if |a| < |b| then |a| else |b|;
    n := 0;
    while n < minLength && a[n] == b[n]
      invariant n <= minLength && a[..n] == b[..n]
    {
      n := n + 1;
    }
  }

  class BlockBuilder {
    const restartInterval: nat
    var buffer: Bytes
    var restarts: seq<nat>
    var counter: nat
    var lastKey: Bytes
    ghost var layout: Layout

    ghost predicate Inv()
      reads this
    {
      && restartInterval >= 1
      && LaidOut(buffer, layout)
      && RestartsAt(restarts, layout)
      && lastKey == (if layout.pairs == [] then [] else layout.pairs[|layout.pairs| - 1].key)
      && (layout.pairs == [] ==> counter == 0)
    }

    constructor (interval: nat)
      requires interval >= 1
      ensures Inv() && layout.pairs == []
    {
      restartInterval, buffer, restarts, counter, lastKey := interval, [], [0], 0, [];
      layout := Layout([], [], [0], [0]);
    }

    method Add(key: Bytes, value: Bytes)
      requires Inv() && |key| + |value| < WORD32
      modifies this
      ensures Inv() && layout.pairs == old(layout.pairs) + [Pair(key, value)]
    {
      hide LaidOut, Entry;
      var shared := 0;
      var restart := counter >= restartInterval;
      if !restart {
        shared := SharedPrefix(lastKey, key);
      } else {
        restarts := restarts + [|buffer|];
        counter := 0;
      }
      LaidOutGrows(buffer, layout, shared, Pair(key, value), restart);
      LaidOutShape(buffer, layout);
      layout := Extended(buffer, layout, shared, Pair(key, value), restart);
      var nonShared := |key| - shared;
      buffer := buffer + (Header(shared, nonShared, |value|) + (key[shared..] + value));
      assert buffer == old(buffer) + Entry(shared, Pair(key, value)) by { EntryIs(shared, Pair(key, value)); }
      lastKey := lastKey[..shared] + key[shared..];
      assert lastKey == key;
      counter := counter + 1;
    }

    /** Offsets are stored in 32 bits, so a block must be shorter than that. */
    method Finish() returns (contents: Bytes)
      requires Inv()
      ensures contents == Finished(buffer, restarts)
    {
      contents := buffer;
      for i := 0 to |restarts|
        invariant contents == buffer + Words(restarts[..i])
      {
        contents := contents + Encode32(restarts[i] % WORD);
        assert restarts[..i + 1][..i] == restarts[..i];
      }
      assert restarts[..|restarts|] == restarts;
      contents := contents + Encode32(|restarts| % WORD);
    }
  }

  lemma EntryIs(shared: nat, p: Pair)
    requires shared <= |p.key|
    ensures Entry(shared, p) == Header(shared, |p.key| - shared, |p.value|) + (p.key[shared..] + p.value)
  {
  }

  lemma LaidOutShape(buffer: Bytes, l: Layout)
    requires LaidOut(buffer, l)
    ensures Shape(l) && l.offsets[|l.pairs|] == |buffer|
  {
  }

  // ---------------------------------------------------------------- reading

  /** The parts of a finished block, as Block and Block::Iter find them. */
  lemma FinishedParts(buffer: Bytes, restarts: seq<nat>)
    requires |restarts| < WORD && forall r :: 0 <= r < |restarts| ==> restarts[r] < WORD
    ensures var c := Finished(buffer, restarts);
            && |c| == |buffer| + 4 * |restarts| + 4
            && Decode32(c[|c| - 4..]) == |restarts|
            && c[..|buffer|] == buffer
            && forall r :: 0 <= r < |restarts| ==> Decode32(c[|buffer| + 4 * r..|buffer| + 4 * r + 4]) == restarts[r]
  {
    hide Encode32, Decode32, Words;
    var c := Finished(buffer, restarts);
    Decode32Encode32(|restarts|);
    assert c[|c| - 4..] == Encode32(|restarts|);
    forall r | 0 <= r < |restarts| ensures Decode32(c[|buffer| + 4 * r..|buffer| + 4 * r + 4]) == restarts[r] {
      WordAt(restarts, r);
      assert c[|buffer| + 4 * r..|buffer| + 4 * r + 4] == Words(restarts)[4 * r..4 * r + 4];
    }
  }

  lemma {:induction false} OffsetsOrder(buffer: Bytes, l: Layout, i: nat, j: nat)
    requires LaidOut(buffer, l) && i < j <= |l.pairs|
    ensures l.offsets[i] + 3 <= l.offsets[j] <= |buffer|
    decreases |l.pairs| - i
  {
    hide Entry, Header;
    assert EntryAt(buffer, l, i);
    DecodeEntryBack(l.shared[i], l.pairs[i], []);
    if i + 1 < j {
      OffsetsOrder(buffer, l, i + 1, j);
    } else if j < |l.pairs| {
      OffsetsOrder(buffer, l, j, |l.pairs|);
    }
  }

  /** Decoding at the place of entry `j`, with a key that has the shared part, gives its key and value. */
  lemma DecodeAt(buffer: Bytes, l: Layout, j: nat, key: Bytes)
    requires LaidOut(buffer, l) && j < |l.pairs|
    requires l.shared[j] <= |key| && l.shared[j] <= |l.pairs[j].key|
    requires key[..l.shared[j]] == l.pairs[j].key[..l.shared[j]]
    requires l.offsets[j] <= |buffer|
    ensures var e := DecodeEntry(buffer[l.offsets[j]..]);
            && e.Some? && e.value.shared == l.shared[j] && e.value.nonShared == |l.pairs[j].key| - l.shared[j]
            && var p := l.offsets[j] + e.value.size;
               && p + e.value.nonShared + e.value.valueLength == l.offsets[j + 1] <= |buffer|
               && key[..e.value.shared] + buffer[p..p + e.value.nonShared] == l.pairs[j].key
               && buffer[p + e.value.nonShared..l.offsets[j + 1]] == l.pairs[j].value
  {
    hide Entry, Header, DecodeEntry;
    assert EntryAt(buffer, l, j);
    var start, end, e := l.offsets[j], l.offsets[j + 1], Entry(l.shared[j], l.pairs[j]);
    DecodeEntryBack(l.shared[j], l.pairs[j], buffer[end..]);
    assert buffer[start..] == buffer[start..end] + buffer[end..];
    var h := |Header(l.shared[j], |l.pairs[j].key| - l.shared[j], |l.pairs[j].value|)|;
    var n := |l.pairs[j].key| - l.shared[j];
    SubSlice(buffer, start, end, h, h + n);
    SubSlice(buffer, start, end, h + n, end - start);
  }

  lemma SubSlice(b: Bytes, start: nat, end: nat, i: nat, j: nat)
    requires start <= end <= |b| && i <= j <= end - start
    ensures b[start..end][i..j] == b[start + i..start + j]
  {
    assert forall k :: 0 <= k < j - i ==> b[start..end][i..j][k] == b[start + i + k];
  }

  /** A comparator, by the keys it puts strictly before others. */
  type Order = (Bytes, Bytes) -> bool

  ghost predicate Transitive(less: Order) {
    forall a, b, c :: less(a, b) && less(b, c) ==> less(a, c)
  }

  /** The keys are in the order of the comparator. */
  ghost predicate SortedKeys(l: Layout, less: Order) {
    forall i, j :: 0 <= i < j < |l.pairs| ==> less(l.pairs[i].key, l.pairs[j].key)
  }

  class Iter {
    const data: Bytes
    /** Where the restart array begins, and how many entries it has. */
    const restarts: nat
    const numRestarts: nat
    var current: nat
    var restartIndex: nat
    var key: Bytes
    var valueStart: nat
    var valueEnd: nat
    var corrupt: bool
    ghost const layout: Layout
    /** The index of the current entry; the number of entries when not valid. */
    ghost var at: nat

    /** The block holds the entries of the layout. */
    ghost predicate Structure() {
      && restarts <= |data| && LaidOut(data[..restarts], layout)
      && numRestarts == |layout.restarts|
      && restarts + 4 * numRestarts <= |data|
      && forall r :: 0 <= r < numRestarts ==>
          Decode32(data[restarts + 4 * r..restarts + 4 * r + 4]) == layout.offsets[layout.restarts[r]]
    }

    predicate Valid()
      reads this
    {
      current < restarts
    }

    /** The restart point at or before entry `i`, or the last one before it. */
    ghost predicate Near(i: nat)
      requires Structure()
      reads this
    {
      && restartIndex < numRestarts && layout.restarts[restartIndex] <= i
      && (restartIndex + 1 < numRestarts ==> i <= layout.restarts[restartIndex + 1])
    }

    ghost predicate At(i: nat)
      requires Structure() && i < |layout.pairs|
      reads this
    {
      && current == layout.offsets[i]
      && key == layout.pairs[i].key
      && valueStart <= valueEnd == layout.offsets[i + 1] <= restarts
      && data[valueStart..valueEnd] == layout.pairs[i].value
      && Near(i)
    }

    /** Ready to parse entry `j`: positioned at its offset, with a key that has its shared part. */
    ghost predicate Poised(j: nat)
      requires Structure() && j <= |layout.pairs|
      reads this
    {
      && valueEnd == layout.offsets[j] <= restarts
      && restartIndex < numRestarts && layout.restarts[restartIndex] <= j
      && (j < |layout.pairs| ==> var n := layout.shared[j];
            n <= |key| && n <= |layout.pairs[j].key| && key[..n] == layout.pairs[j].key[..n])
    }

    ghost predicate Inv()
      reads this
    {
      && Structure() && !corrupt
      && at <= |layout.pairs|
      && (Valid() <==> at < |layout.pairs|)
      && (at < |layout.pairs| ==> At(at))
    }

    constructor (contents: Bytes, ghost buffer: Bytes, ghost words: seq<nat>, ghost l: Layout)
      requires contents == Finished(buffer, words) && |buffer| < WORD && |words| < WORD
      requires LaidOut(buffer, l) && RestartsAt(words, l)
      ensures Inv() && !Valid() && layout == l
    {
      hide LaidOut, Decode32, Finished;
      WordsFit(buffer, words, l);
      FinishedParts(buffer, words);
      data := contents;
      numRestarts := Decode32(contents[|contents| - 4..]);
      restarts := |contents| - (1 + Decode32(contents[|contents| - 4..])) * 4;
      current := |contents| - (1 + Decode32(contents[|contents| - 4..])) * 4;
      restartIndex := Decode32(contents[|contents| - 4..]);
      key, valueStart, valueEnd, corrupt := [], 0, 0, false;
      layout := l;
      at := |l.pairs|;
    }

    /** The iterator yields the very pairs that were added. */
    function Current(): (p: Pair)
      requires Inv() && Valid()
      reads this
      ensures p == layout.pairs[at]
    {
      Pair(key, data[valueStart..valueEnd])
    }

    function GetRestartPoint(index: nat): (offset: nat)
      requires Structure() && index < numRestarts
      ensures offset == layout.offsets[layout.restarts[index]]
    {
      Decode32(data[restarts + 4 * index..restarts + 4 * index + 4])
    }

    method SeekToRestartPoint(index: nat)
      requires Structure() && index < numRestarts
      modifies this
      ensures Poised(layout.restarts[index]) && restartIndex == index && corrupt == old(corrupt)
    {
      hide EntryAt, Shares;
      key := [];
      restartIndex := index;
      var offset := GetRestartPoint(index);
      valueStart, valueEnd := offset, offset;
      InBuffer(data[..restarts], layout, layout.restarts[index]);
    }

    method ParseNextKey(ghost j: nat) returns (ok: bool)
      requires Structure() && !corrupt && j <= |layout.pairs| && Poised(j)
      modifies this
      ensures Inv() && at == j && (ok <==> j < |layout.pairs|)
    {
      hide LaidOut, DecodeEntry, Decode32;
      LaidOutShape(data[..restarts], layout);
      current := valueEnd;
      at := j;
      if current >= restarts {
        EndReached(data[..restarts], layout, j);
        current := restarts;
        restartIndex := numRestarts;
        return false;
      }
      NotEnd(data[..restarts], layout, j);
      DecodeCurrent(j);
      AdvanceRestart(j);
      return true;
    }

    /** Decode the entry at the current offset. */
    method DecodeCurrent(ghost j: nat)
      requires Structure() && j < |layout.pairs| && Poised(j) && current == layout.offsets[j]
      modifies this`key, this`valueStart, this`valueEnd
      ensures key == layout.pairs[j].key && valueStart <= valueEnd == layout.offsets[j + 1] <= restarts
      ensures data[valueStart..valueEnd] == layout.pairs[j].value
    {
      hide LaidOut, DecodeEntry, Decode32;
      DecodeAt(data[..restarts], layout, j, key);
      var e := DecodeEntry(data[..restarts][current..]);
      var p := current + e.value.size;
      key := key[..e.value.shared] + data[p..p + e.value.nonShared];
      valueStart := p + e.value.nonShared;
      valueEnd := valueStart + e.value.valueLength;
      SubSlice(data, 0, restarts, p, valueStart);
      SubSlice(data, 0, restarts, valueStart, valueEnd);
    }

    /** Count up to the last restart point before entry `j`, or the one at it. */
    method AdvanceRestart(ghost j: nat)
      requires Structure() && j < |layout.pairs| && current == layout.offsets[j]
      requires restartIndex < numRestarts && layout.restarts[restartIndex] <= j
      modifies this`restartIndex
      ensures Near(j)
    {
      hide LaidOut, EntryAt;
      LaidOutShape(data[..restarts], layout);
      while restartIndex + 1 < numRestarts && GetRestartPoint(restartIndex + 1) < current
        invariant restartIndex < numRestarts && layout.restarts[restartIndex] <= j
      {
        OffsetsReflect(data[..restarts], layout, layout.restarts[restartIndex + 1], j);
        restartIndex := restartIndex + 1;
      }
      if restartIndex + 1 < numRestarts {
        OffsetsReflect(data[..restarts], layout, layout.restarts[restartIndex + 1], j);
      }
    }

    /** After entry `i`, entry `i + 1` can be parsed. */
    lemma NextIsPoised(i: nat)
      requires Structure() && i < |layout.pairs| && At(i)
      ensures Poised(i + 1)
    {
      if i + 1 < |layout.pairs| {
        assert Shares(layout, i + 1);
      }
    }

    method Next()
      requires Inv() && Valid()
      modifies this
      ensures Inv() && at == old(at) + 1
    {
      NextIsPoised(at);
      var ok := ParseNextKey(at + 1);
    }

    /** The key stored whole at a restart point. */
    method KeyAtRestart(index: nat) returns (k: Bytes)
      requires Structure() && index < numRestarts && layout.restarts[index] < |layout.pairs|
      ensures k == layout.pairs[layout.restarts[index]].key
    {
      hide LaidOut, DecodeEntry, Decode32;
      ghost var j := layout.restarts[index];
      var offset := GetRestartPoint(index);
      RestartSharesNothing(data[..restarts], layout, index);
      InBuffer(data[..restarts], layout, j);
      DecodeAt(data[..restarts], layout, j, []);
      var e := DecodeEntry(data[..restarts][offset..]);
      var p := offset + e.value.size;
      k := data[p..p + e.value.nonShared];
      SubSlice(data, 0, restarts, p, p + e.value.nonShared);
      assert k == [] + k;
    }

    /**
     * The first entry at or after the target, in the order of any comparator, by binary
     * search over the restart points and a scan.
     */
    method Seek(target: Bytes, less: Order)
      requires Inv() && Transitive(less) && SortedKeys(layout, less)
      modifies this
      ensures Inv()
      ensures forall i :: 0 <= i < at ==> less(layout.pairs[i].key, target)
      ensures at < |layout.pairs| ==> !less(layout.pairs[at].key, target)
    {
      hide LaidOut, Decode32, SortedKeys, Transitive;
      LaidOutShape(data[..restarts], layout);
      var left, right := 0, numRestarts - 1;
      while left < right
        invariant Inv() && 0 <= left <= right < numRestarts
        invariant left > 0 ==> less(layout.pairs[layout.restarts[left]].key, target)
        invariant right + 1 < numRestarts ==> !less(layout.pairs[layout.restarts[right + 1]].key, target)
      {
        var mid := (left + right + 1) / 2;
        var midKey := KeyAtRestart(mid);
        if less(midKey, target) {
          left := mid;
        } else {
          right := mid - 1;
        }
      }
      if left > 0 {
        BelowTarget(layout, layout.restarts[left], target, less);
      }
      ScanFrom(left, target, less);
    }

    /** Linear search from a restart point before which all keys are below the target. */
    method ScanFrom(index: nat, target: Bytes, less: Order)
      requires Inv() && index < numRestarts && layout.restarts[index] <= |layout.pairs|
      requires forall i :: 0 <= i < layout.restarts[index] ==> less(layout.pairs[i].key, target)
      modifies this
      ensures Inv()
      ensures forall i :: 0 <= i < at ==> less(layout.pairs[i].key, target)
      ensures at < |layout.pairs| ==> !less(layout.pairs[at].key, target)
    {
      hide LaidOut, Decode32;
      SeekToRestartPoint(index);
      var ok := ParseNextKey(layout.restarts[index]);
      while ok && less(key, target)
        invariant Inv() && (ok <==> at < |layout.pairs|)
        invariant forall i :: 0 <= i < at ==> less(layout.pairs[i].key, target)
        decreases |layout.pairs| - at
      {
        NextIsPoised(at);
        ok := ParseNextKey(at + 1);
      }
    }

    method SeekToFirst()
      requires Inv()
      modifies this
      ensures Inv() && at == 0
    {
      LaidOutShape(data[..restarts], layout);
      SeekToRestartPoint(0);
      var ok := ParseNextKey(0);
    }

    /** Parse on from a restart point until the entry that ends at offset `stop`. */
    method ParseUpTo(stop: nat, ghost j: nat, ghost i: nat)
      requires Structure() && !corrupt && j < i <= |layout.pairs| && Poised(j) && stop == layout.offsets[i]
      modifies this
      ensures Inv() && at == i - 1
    {
      hide LaidOut;
      var ok := ParseNextKey(j);
      while ok && valueEnd < stop
        invariant Inv() && j <= at < i && ok
        decreases i - at
      {
        OffsetsReflect(data[..restarts], layout, at + 1, i);
        NextIsPoised(at);
        ok := ParseNextKey(at + 1);
      }
      OffsetsReflect(data[..restarts], layout, at + 1, i);
    }

    method SeekToLast()
      requires Inv()
      modifies this
      ensures Inv() && at == if layout.pairs == [] then 0 else |layout.pairs| - 1
    {
      LaidOutShape(data[..restarts], layout);
      SeekToRestartPoint(numRestarts - 1);
      if restarts > 0 {
        NotEmpty(data[..restarts], layout);
        ParseUpTo(restarts, layout.restarts[numRestarts - 1], |layout.pairs|);
      } else {
        Empty(data[..restarts], layout);
        var ok := ParseNextKey(0);
      }
    }

    method Prev()
      requires Inv() && Valid()
      modifies this
      ensures Inv() && at == if old(at) == 0 then |layout.pairs| else old(at) - 1
    {
      hide LaidOut, Decode32;
      LaidOutShape(data[..restarts], layout);
      ghost var i := at;
      var original := current;
      while GetRestartPoint(restartIndex) >= original
        invariant restartIndex < numRestarts && layout.restarts[restartIndex] <= i && at == i && !corrupt
        decreases restartIndex
      {
        OffsetsReflect(data[..restarts], layout, layout.restarts[restartIndex], i);
        if restartIndex == 0 {
          current := restarts;
          restartIndex := numRestarts;
          at := |layout.pairs|;
          return;
        }
        restartIndex := restartIndex - 1;
      }
      OffsetsReflect(data[..restarts], layout, layout.restarts[restartIndex], i);
      SeekToRestartPoint(restartIndex);
      ParseUpTo(original, layout.restarts[restartIndex], i);
    }
  }

  /** With a key below the target at `i`, all keys before it are below the target. */
  lemma BelowTarget(l: Layout, i: nat, target: Bytes, less: Order)
    requires Transitive(less) && SortedKeys(l, less) && i < |l.pairs| && less(l.pairs[i].key, target)
    ensures forall k :: 0 <= k <= i ==> less(l.pairs[k].key, target)
  {
  }

  /** Offsets order as the entries do. */
  lemma OffsetsReflect(buffer: Bytes, l: Layout, i: nat, j: nat)
    requires LaidOut(buffer, l) && i <= |l.pairs| && j <= |l.pairs|
    ensures l.offsets[i] < l.offsets[j] <==> i < j
  {
    hide EntryAt;
    if i < j {
      OffsetsOrder(buffer, l, i, j);
    } else if j < i {
      OffsetsOrder(buffer, l, j, i);
    }
  }

  lemma RestartSharesNothing(buffer: Bytes, l: Layout, r: nat)
    requires LaidOut(buffer, l) && r < |l.restarts| && l.restarts[r] < |l.pairs|
    ensures l.shared[l.restarts[r]] == 0
  {
  }

  lemma EndReached(buffer: Bytes, l: Layout, j: nat)
    requires LaidOut(buffer, l) && j <= |l.pairs| && l.offsets[j] >= |buffer|
    ensures j == |l.pairs|
  {
    OffsetsReflect(buffer, l, j, |l.pairs|);
  }

  lemma NotEnd(buffer: Bytes, l: Layout, j: nat)
    requires LaidOut(buffer, l) && j <= |l.pairs| && l.offsets[j] < |buffer|
    ensures j < |l.pairs|
  {
  }

  lemma NotEmpty(buffer: Bytes, l: Layout)
    requires LaidOut(buffer, l) && |buffer| > 0
    ensures forall r :: 0 <= r < |l.restarts| ==> l.restarts[r] < |l.pairs|
  {
  }

  lemma Empty(buffer: Bytes, l: Layout)
    requires LaidOut(buffer, l) && |buffer| == 0
    ensures l.pairs == [] && l.restarts[|l.restarts| - 1] == 0
  {
    OffsetsReflect(buffer, l, 0, |l.pairs|);
  }

  lemma WordsFit(buffer: Bytes, words: seq<nat>, l: Layout)
    requires LaidOut(buffer, l) && RestartsAt(words, l) && |buffer| < WORD
    ensures forall r :: 0 <= r < |words| ==> words[r] < WORD
  {
    forall r | 0 <= r < |words| ensures words[r] < WORD {
      InBuffer(buffer, l, l.restarts[r]);
    }
  }

  lemma InBuffer(buffer: Bytes, l: Layout, i: nat)
    requires LaidOut(buffer, l) && i <= |l.pairs|
    ensures l.offsets[i] <= |buffer|
    ensures i < |l.pairs| ==> l.shared[i] <= |l.pairs[i].key|
  {
    hide Entry;
    if i < |l.pairs| {
      assert EntryAt(buffer, l, i);
      OffsetsOrder(buffer, l, i, |l.pairs|);
    }
  }
}
