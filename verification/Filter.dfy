/** The bloom filter policy (util/bloom.cc, util/hash.cc). */
module Bloom {
  import opened Bytewise
  import opened Fixed

  /** BloomHash: a hash in the style of murmur, in 32-bit arithmetic. */
  function Hash(data: Bytes): U32 {
    Tail(data, Blocks(data, |data| / 4 * 4, 0xbc9f1d34 ^ Times(|data|))) as int
  }

  function Times(n: nat): bv32 {
    (n * 0xc6a4a793 % WORD) as bv32
  }

  function Octet(b: Byte): bv32 {
    b as bv32
  }

  function Blocks(data: Bytes, n: nat, h: bv32): bv32
    requires n <= |data| && n % 4 == 0
  {
    if n == 0 then h
    else
      var g := Blocks(data, n - 4, h);
      var w := Octet(data[n - 4]) | (Octet(data[n - 3]) << 8) | (Octet(data[n - 2]) << 16) | (Octet(data[n - 1]) << 24);
      var m := (g + w) * 0xc6a4a793;
      m ^ (m >> 16)
  }

  function Tail(data: Bytes, h: bv32): bv32 {
    var left, base := |data| % 4, |data| / 4 * 4;
    if left == 0 then h
    else
      var h2 := if left > 2 then h + (Octet(data[base + 2]) << 16) else h;
      var h1 := if left > 1 then h2 + (Octet(data[base + 1]) << 8) else h2;
      var m := (h1 + Octet(data[base])) * 0xc6a4a793;
      m ^ (m >> 24)
  }

  // ---------------------------------------------------------------- bits

  predicate BitOf(b: nat, j: nat) {
    if j == 0 then b % 2 == 1 else BitOf(b / 2, j - 1)
  }

  /** `b | (1 << j)`. */
  function WithBit(b: nat, j: nat): nat {
    if j == 0 then b / 2 * 2 + 1 else WithBit(b / 2, j - 1) * 2 + b % 2
  }

  lemma {:induction false} WithBitBits(b: nat, j: nat, i: nat)
    ensures BitOf(WithBit(b, j), i) <==> i == j || BitOf(b, i)
  {
    if i > 0 && j > 0 {
      WithBitBits(b / 2, j - 1, i - 1);
    }
  }

  function Power(n: nat): (p: nat)
    ensures p > 0
  {
    if n == 0 then 1 else 2 * Power(n - 1)
  }

  lemma {:induction false} WithBitBounded(b: nat, j: nat, n: nat)
    requires b < Power(n) && j < n
    ensures WithBit(b, j) < Power(n)
  {
    if j > 0 {
      WithBitBounded(b / 2, j - 1, n - 1);
    }
  }

  lemma EightBits()
    ensures Power(8) == 256
  {
    assert Power(4) == 16;
  }

  lemma {:induction false} ZeroHasNoBits(j: nat)
    ensures !BitOf(0, j)
  {
    if j > 0 {
      ZeroHasNoBits(j - 1);
    }
  }

  /** Bit `pos` of a bit array. */
  predicate IsSet(a: Bytes, pos: nat)
    requires pos < 8 * |a|
  {
    BitOf(a[pos / 8], pos % 8)
  }

  function SetBit(a: Bytes, pos: nat): (r: Bytes)
    requires pos < 8 * |a|
    ensures |r| == |a|
  {
    EightBits();
    WithBitBounded(a[pos / 8], pos % 8, 8);
    a[pos / 8 := WithBit(a[pos / 8], pos % 8)]
  }

  lemma SetBitBits(a: Bytes, pos: nat, q: nat)
    requires pos < 8 * |a| && q < 8 * |a|
    ensures IsSet(SetBit(a, pos), q) <==> q == pos || IsSet(a, q)
  {
    hide BitOf, WithBit;
    WithBitBits(a[pos / 8], pos % 8, q % 8);
  }

  // ---------------------------------------------------------------- the filter

  /** The rotation by 17 bits that spaces the probes. */
  function Delta(h: U32): U32 {
    h / 0x2_0000 + h % 0x2_0000 * 0x8000
  }

  /** The j-th hash of the double hashing. */
  function Probe(h: U32, j: nat): U32 {
    if j == 0 then h else (Probe(h, j - 1) + Delta(h)) % WORD
  }

  /** All the bits that a key probes are set. */
  predicate AllSet(a: Bytes, h: U32, k: nat)
    requires a != []
  {
    forall j :: 0 <= j < k ==> IsSet(a, Probe(h, j) % (8 * |a|))
  }

  /** Some key's probe leads to bit `q`. */
  ghost predicate Probed(keys: seq<Bytes>, k: nat, bits: nat, q: nat)
    requires bits > 0
  {
    exists i, j :: 0 <= i < |keys| && 0 <= j < k && q == Probe(Hash(keys[i]), j) % bits
  }

  /** A filter for the keys: a bit array in which exactly the probed bits are set, then the number of probes. */
  ghost predicate IsFilter(keys: seq<Bytes>, f: Bytes) {
    && |f| >= 2
    && var a, k := f[..|f| - 1], f[|f| - 1];
    && 0 < k <= 30
    && forall q :: 0 <= q < 8 * |a| ==> (IsSet(a, q) <==> Probed(keys, k, 8 * |a|, q))
  }

  /** The number of probes for a number of bits per key. */
  function Probes(bitsPerKey: nat): (k: Byte)
    ensures 0 < k <= 30
  {
    var k := bitsPerKey * 69 / 100;
    if k < 1 then 1 else if k > 30 then 30 else k
  }

  /** Exactly the bits that the keys probe are set. */
  ghost predicate Marks(a: Bytes, keys: seq<Bytes>, k: nat) {
    forall q :: 0 <= q < 8 * |a| ==> (IsSet(a, q) <==> Probed(keys, k, 8 * |a|, q))
  }

  lemma NoneMarked(n: nat, k: nat)
    ensures Marks(seq(n, _ => 0), [], k)
  {
    forall j ensures !BitOf(0, j) {
      ZeroHasNoBits(j);
    }
  }

  /** Appends a filter for the keys to `dst`. */
  method CreateFilter(keys: seq<Bytes>, bitsPerKey: nat, dst: Bytes) returns (r: Bytes, ghost f: Bytes)
    ensures r == dst + f && IsFilter(keys, f)
  {
    hide Marks, Hash;
    var k := Probes(bitsPerKey);
    var bits := |keys| * bitsPerKey;
    if bits < 64 {
      bits := 64;
    }
    var bytes := (bits + 7) / 8;
    var a: Bytes := seq(bytes, _ => 0);
    assert keys[..0] == [];
    NoneMarked(bytes, k);
    for i := 0 to |keys|
      invariant |a| == bytes && Marks(a, keys[..i], k)
    {
      a := AddProbes(a, keys[..i], keys[i], k);
      assert keys[..i + 1] == keys[..i] + [keys[i]];
    }
    assert keys[..|keys|] == keys;
    f := a + [k];
    r := dst + a + [k];
    MarksIsFilter(a, keys, k);
  }

  lemma MarksIsFilter(a: Bytes, keys: seq<Bytes>, k: Byte)
    requires Marks(a, keys, k) && a != [] && 0 < k <= 30
    ensures IsFilter(keys, a + [k])
  {
    assert (a + [k])[..|a|] == a;
  }

  /** Setting the bits of one more key. */
  method AddProbes(a0: Bytes, ghost keys: seq<Bytes>, key: Bytes, k: nat) returns (a: Bytes)
    requires a0 != [] && Marks(a0, keys, k)
    ensures |a| == |a0| && Marks(a, keys + [key], k)
  {
    hide Hash, IsSet;
    a := a0;
    var hash := Hash(key);
    var h, delta, bits := hash, Delta(hash), 8 * |a|;
    for j := 0 to k
      invariant |a| == |a0| && h == Probe(hash, j)
      invariant forall q :: 0 <= q < bits ==> (IsSet(a, q) <==> IsSet(a0, q) || ProbedBy(hash, j, bits, q))
    {
      var pos := h % bits;
      ghost var was := a;
      a := SetBit(a, pos);
      forall q | 0 <= q < bits ensures IsSet(a, q) <==> q == pos || IsSet(was, q) {
        SetBitBits(was, pos, q);
      }
      h := (h + delta) % WORD;
    }
    forall q | 0 <= q < bits
      ensures Probed(keys + [key], k, bits, q) <==> Probed(keys, k, bits, q) || ProbedBy(hash, k, bits, q)
    {
      ProbedSnoc(keys, key, k, bits, q);
    }
  }

  ghost predicate ProbedBy(hash: U32, k: nat, bits: nat, q: nat)
    requires bits > 0
  {
    exists j :: 0 <= j < k && q == Probe(hash, j) % bits
  }

  lemma ProbedSnoc(keys: seq<Bytes>, key: Bytes, k: nat, bits: nat, q: nat)
    requires bits > 0
    ensures Probed(keys + [key], k, bits, q) <==> Probed(keys, k, bits, q) || ProbedBy(Hash(key), k, bits, q)
  {
    hide Hash, Probe;
    var all := keys + [key];
    if Probed(all, k, bits, q) {
      var i, j :| 0 <= i < |all| && 0 <= j < k && q == Probe(Hash(all[i]), j) % bits;
      if i < |keys| {
        assert q == Probe(Hash(keys[i]), j) % bits;
      }
    }
    if Probed(keys, k, bits, q) {
      var i, j :| 0 <= i < |keys| && 0 <= j < k && q == Probe(Hash(keys[i]), j) % bits;
      assert q == Probe(Hash(all[i]), j) % bits;
    }
    if ProbedBy(Hash(key), k, bits, q) {
      var j :| 0 <= j < k && q == Probe(Hash(key), j) % bits;
      assert q == Probe(Hash(all[|keys|]), j) % bits;
    }
  }

  /** What a filter says about a key; more probes than thirty are a reserved encoding. */
  predicate Matches(key: Bytes, f: Bytes) {
    |f| >= 2 && (f[|f| - 1] > 30 || AllSet(f[..|f| - 1], Hash(key), f[|f| - 1]))
  }

  method KeyMayMatch(key: Bytes, f: Bytes) returns (r: bool)
    ensures r <==> Matches(key, f)
  {
    hide Hash, IsSet;
    if |f| < 2 {
      return false;
    }
    var a, k := f[..|f| - 1], f[|f| - 1];
    if k > 30 {
      return true;
    }
    var h := Hash(key);
    var delta := Delta(h);
    ghost var first := h;
    for j := 0 to k
      invariant h == Probe(first, j) && delta == Delta(first)
      invariant AllSet(a, first, j)
    {
      if !IsSet(a, h % (8 * |a|)) {
        return false;
      }
      h := (h + delta) % WORD;
    }
    return true;
  }

  /** No false negatives: a filter matches every key it was made for. */
  lemma FilterMatches(keys: seq<Bytes>, f: Bytes, i: nat)
    requires IsFilter(keys, f) && i < |keys|
    ensures Matches(keys[i], f)
  {
    hide Hash, IsSet, Probe;
    var a, k, h := f[..|f| - 1], f[|f| - 1], Hash(keys[i]);
    forall j | 0 <= j < k ensures IsSet(a, Probe(h, j) % (8 * |a|)) {
      assert Probed(keys, k, 8 * |a|, Probe(h, j) % (8 * |a|));
    }
  }
}

/** The block of filters of a table, one for every 2 KB of data (table/filter_block.cc). */
module FilterBlocks {
  import opened Bloom
  import opened Bytewise
  import opened Fixed

  const BASE_LG := 11
  const BASE := 2048

  /** Keys stored back to back, and where each starts. */
  predicate Flattened(keys: Bytes, start: seq<nat>, list: seq<Bytes>) {
    && |start| == |list|
    && (forall i :: 0 <= i < |start| ==> start[i] <= EndOf(keys, start, i) <= |keys|)
    && forall i :: 0 <= i < |start| ==> keys[start[i]..EndOf(keys, start, i)] == list[i]
  }

  function EndOf(keys: Bytes, start: seq<nat>, i: nat): nat
    requires i < |start|
  {
    if i + 1 < |start| then start[i + 1] else |keys|
  }

  /** Where filter `i` ends in the result. */
  function FilterEnd(result: Bytes, offsets: seq<nat>, i: nat): nat
    requires i < |offsets|
  {
    if i + 1 < |offsets| then offsets[i + 1] else |result|
  }

  /** Filter `i` was made for the keys `filters[i]`; where there are no keys it is empty. */
  ghost predicate FilterAt(result: Bytes, offsets: seq<nat>, filters: seq<seq<Bytes>>, i: nat)
    requires i < |offsets| == |filters|
  {
    && offsets[i] <= FilterEnd(result, offsets, i) <= |result|
    && var f := result[offsets[i]..FilterEnd(result, offsets, i)];
       if filters[i] == [] then f == [] else IsFilter(filters[i], f)
  }

  ghost predicate FiltersAt(result: Bytes, offsets: seq<nat>, filters: seq<seq<Bytes>>) {
    |offsets| == |filters| && forall i :: 0 <= i < |offsets| ==> FilterAt(result, offsets, filters, i)
  }

  lemma FiltersGrow(result: Bytes, offsets: seq<nat>, filters: seq<seq<Bytes>>, keys: seq<Bytes>, f: Bytes)
    requires FiltersAt(result, offsets, filters)
    requires if keys == [] then f == [] else IsFilter(keys, f)
    ensures FiltersAt(result + f, offsets + [|result|], filters + [keys])
  {
    hide IsFilter;
    var offsets', filters' := offsets + [|result|], filters + [keys];
    forall i | 0 <= i < |offsets'| ensures FilterAt(result + f, offsets', filters', i) {
      if i < |offsets| {
        assert FilterAt(result, offsets, filters, i);
        assert FilterEnd(result + f, offsets', i) == FilterEnd(result, offsets, i);
        assert (result + f)[offsets[i]..FilterEnd(result, offsets, i)] ==
          result[offsets[i]..FilterEnd(result, offsets, i)];
      } else {
        assert (result + f)[|result|..|result + f|] == f;
      }
    }
  }

  /** A key and the offset of the data block it was added for. */
  datatype Added = Added(offset: nat, key: Bytes)

  /** A key is in the filter of its block's 2 KB slot, or waits for that filter to be made. */
  ghost predicate Filed(a: Added, filters: seq<seq<Bytes>>, pending: seq<Bytes>) {
    if a.offset / BASE < |filters| then a.key in filters[a.offset / BASE]
    else a.offset / BASE == |filters| && a.key in pending
  }

  ghost predicate AllFiled(history: seq<Added>, filters: seq<seq<Bytes>>, pending: seq<Bytes>) {
    forall i :: 0 <= i < |history| ==> Filed(history[i], filters, pending)
  }

  class FilterBlockBuilder {
    const bitsPerKey: nat
    var keys: Bytes
    var start: seq<nat>
    var result: Bytes
    var filterOffsets: seq<nat>
    /** The keys of the filter being collected, and of those made. */
    ghost var pending: seq<Bytes>
    ghost var filters: seq<seq<Bytes>>
    /** Where the data block being built begins, and all keys added so far. */
    ghost var current: nat
    ghost var history: seq<Added>

    ghost predicate Inv()
      reads this
    {
      && Flattened(keys, start, pending)
      && FiltersAt(result, filterOffsets, filters)
      && AllFiled(history, filters, pending)
    }

    constructor (bits: nat)
      ensures Inv() && history == [] && filters == [] && current == 0
    {
      bitsPerKey, keys, start, result, filterOffsets := bits, [], [], [], [];
      pending, filters, current, history := [], [], 0, [];
    }

    method AddKey(key: Bytes)
      requires Inv() && |filters| == current / BASE
      modifies this
      ensures Inv() && filters == old(filters) && current == old(current)
      ensures history == old(history) + [Added(current, key)]
    {
      start := start + [|keys|];
      keys := keys + key;
      pending := pending + [key];
      history := history + [Added(current, key)];
      FlattenedGrows(old(keys), old(start), old(pending), key);
    }

    method GenerateFilter()
      requires Inv()
      modifies this
      ensures Inv() && |filters| == |old(filters)| + 1 && current == old(current) && history == old(history)
      ensures pending == []
    {
      hide FiltersAt, IsFilter, AllFiled;
      FiledWhenMade(history, filters, pending);
      if |start| == 0 {
        FiltersGrow(result, filterOffsets, filters, [], []);
        assert result + [] == result && pending == [];
        filterOffsets := filterOffsets + [|result|];
        filters := filters + [[]];
        return;
      }
      var list := KeyList();
      var offset := |result|;
      ghost var f: Bytes;
      var r;
      r, f := CreateFilter(list, bitsPerKey, result);
      FiltersGrow(result, filterOffsets, filters, pending, f);
      filterOffsets := filterOffsets + [offset];
      result := r;
      filters := filters + [pending];
      keys, start, pending := [], [], [];
    }

    /** The list of keys out of the flattened form. */
    method KeyList() returns (list: seq<Bytes>)
      requires Flattened(keys, start, pending)
      ensures list == pending
    {
      hide Flattened;
      SameCount(keys, start, pending);
      list := [];
      for i := 0 to |start|
        invariant |list| == i && forall j :: 0 <= j < i ==> list[j] == pending[j]
      {
        KeyAt(keys, start, pending, i);
        var length := EndOf(keys, start, i) - start[i];
        list := list + [keys[start[i]..start[i] + length]];
      }
    }

    /** A data block begins: the filters of all 2 KB slots before its own are made. */
    method StartBlock(blockOffset: nat)
      requires Inv() && |filters| == current / BASE && current <= blockOffset
      modifies this
      ensures Inv() && |filters| == current / BASE && current == blockOffset && history == old(history)
    {
      while blockOffset / BASE > |filterOffsets|
        invariant Inv() && |filters| <= blockOffset / BASE && history == old(history)
        decreases blockOffset / BASE - |filters|
      {
        GenerateFilter();
      }
      current := blockOffset;
    }

    /** Offsets are stored in 32 bits: filters that fit match every key added for their blocks. */
    method Finish() returns (contents: Bytes)
      requires Inv()
      modifies this
      ensures history == old(history)
      ensures |result| < WORD ==> forall i :: 0 <= i < |history| ==>
          BlockMayMatch(contents, history[i].offset, history[i].key)
    {
      hide FiltersAt, AllFiled, BlockMayMatch;
      if |start| > 0 {
        GenerateFilter();
      }
      contents := result;
      for i := 0 to |filterOffsets|
        invariant contents == result + Offsets(filterOffsets[..i])
      {
        contents := contents + Encode32(filterOffsets[i] % WORD);
        assert filterOffsets[..i + 1][..i] == filterOffsets[..i];
      }
      assert filterOffsets[..|filterOffsets|] == filterOffsets;
      contents := contents + Encode32(|result| % WORD) + [BASE_LG];
      if |result| < WORD {
        FinishedMatches(result, filterOffsets, filters, pending, history);
      }
    }
  }

  lemma FiledWhenMade(history: seq<Added>, filters: seq<seq<Bytes>>, pending: seq<Bytes>)
    requires AllFiled(history, filters, pending)
    ensures AllFiled(history, filters + [pending], [])
  {
    forall i | 0 <= i < |history| ensures Filed(history[i], filters + [pending], []) {
      assert Filed(history[i], filters, pending);
    }
  }

  lemma SameCount(keys: Bytes, start: seq<nat>, list: seq<Bytes>)
    requires Flattened(keys, start, list)
    ensures |start| == |list|
  {
  }

  lemma KeyAt(keys: Bytes, start: seq<nat>, list: seq<Bytes>, i: nat)
    requires Flattened(keys, start, list) && i < |start| == |list|
    ensures start[i] <= EndOf(keys, start, i) <= |keys| && keys[start[i]..EndOf(keys, start, i)] == list[i]
  {
  }

  lemma FlattenedGrows(keys: Bytes, start: seq<nat>, list: seq<Bytes>, key: Bytes)
    requires Flattened(keys, start, list)
    ensures Flattened(keys + key, start + [|keys|], list + [key])
  {
    var keys', start', list' := keys + key, start + [|keys|], list + [key];
    forall i | 0 <= i < |start'|
      ensures start'[i] <= EndOf(keys', start', i) <= |keys'| && keys'[start'[i]..EndOf(keys', start', i)] == list'[i]
    {
      if i < |start| {
        EarlierKey(keys, start, list, key, i);
      }
    }
  }

  lemma EarlierKey(keys: Bytes, start: seq<nat>, list: seq<Bytes>, key: Bytes, i: nat)
    requires Flattened(keys, start, list) && i < |start|
    ensures EndOf(keys + key, start + [|keys|], i) == EndOf(keys, start, i)
    ensures start[i] <= EndOf(keys, start, i) <= |keys|
    ensures (keys + key)[start[i]..EndOf(keys, start, i)] == list[i]
  {
    assert EndOf(keys + key, start + [|keys|], i) == EndOf(keys, start, i);
    assert (keys + key)[start[i]..EndOf(keys, start, i)] == keys[start[i]..EndOf(keys, start, i)];
  }

  function Offsets(offsets: seq<nat>): (b: Bytes)
    ensures |b| == 4 * |offsets|
  {
    if offsets == [] then []
    else Offsets(offsets[..|offsets| - 1]) + Encode32(offsets[|offsets| - 1] % WORD)
  }

  lemma {:induction false} OffsetsAt(offsets: seq<nat>, i: nat)
    requires i < |offsets|
    ensures Offsets(offsets)[4 * i..4 * i + 4] == Encode32(offsets[i] % WORD)
  {
    var fewer := offsets[..|offsets| - 1];
    if i < |fewer| {
      OffsetsAt(fewer, i);
      assert Offsets(offsets)[4 * i..4 * i + 4] == Offsets(fewer)[4 * i..4 * i + 4];
    }
  }

  /** DecodeFixed32 at an offset. */
  function Word(contents: Bytes, at: nat): U32
    requires at + 4 <= |contents|
  {
    Decode32(contents[at..at + 4])
  }

  /** The filter block's answer; damage counts as a possible match. */
  predicate BlockMayMatch(contents: Bytes, blockOffset: nat, key: Bytes) {
    var n := |contents|;
    if n < 5 then true
    else
      var baseLg, last := contents[n - 1], Word(contents, n - 5);
      if last > n - 5 then true else SlotMayMatch(contents, last, (n - 5 - last) / 4, blockOffset / Power(baseLg), key)
  }

  /** The offsets are `num` words from `last` on, with the end of the last filter after them. */
  predicate SlotMayMatch(contents: Bytes, last: nat, num: nat, index: nat, key: Bytes)
    requires last + 4 * num + 5 <= |contents|
  {
    if index >= num then true
    else
      var start, limit := Word(contents, last + index * 4), Word(contents, last + index * 4 + 4);
      if start <= limit && limit <= last then Matches(key, contents[start..limit])
      else start != limit
  }

  function Finished(result: Bytes, offsets: seq<nat>): Bytes {
    result + Offsets(offsets) + Encode32(|result| % WORD) + [BASE_LG]
  }

  /** The parts of a finished block. */
  lemma FinishedParts(result: Bytes, offsets: seq<nat>)
    requires |result| < WORD
    ensures var c, n := Finished(result, offsets), |result| + 4 * |offsets| + 5;
            && |c| == n && c[n - 1] == BASE_LG && Decode32(c[n - 5..n - 1]) == |result|
            && c[..|result|] == result && c[|result|..n - 5] == Offsets(offsets)
  {
    hide Encode32, Decode32, Offsets;
    Decode32Encode32(|result|);
    FourParts(result, Offsets(offsets), Encode32(|result|), BASE_LG);
  }

  lemma FourParts(a: Bytes, b: Bytes, c: Bytes, d: Byte)
    ensures var s, n := a + b + c + [d], |a| + |b| + |c| + 1;
            |s| == n && s[n - 1] == d && s[n - 1 - |c|..n - 1] == c && s[..|a|] == a && s[|a|..n - 1 - |c|] == b
  {
  }

  lemma FinishedOffset(result: Bytes, offsets: seq<nat>, i: nat)
    requires |result| < WORD && i <= |offsets| && (i < |offsets| ==> offsets[i] <= |result|)
    ensures var c, at := Finished(result, offsets), |result| + i * 4;
            at + 4 <= |c| && Decode32(c[at..at + 4]) == if i < |offsets| then offsets[i] else |result|
  {
    hide Encode32, Decode32, Offsets;
    FinishedParts(result, offsets);
    var c, at := Finished(result, offsets), |result| + i * 4;
    if i < |offsets| {
      OffsetsAt(offsets, i);
      assert c[at..at + 4] == c[|result|..|result| + 4 * |offsets|][4 * i..4 * i + 4];
      Decode32Encode32(offsets[i]);
    }
  }

  lemma SlicePrefix(c: Bytes, m: nat, a: nat, b: nat)
    requires a <= b <= m <= |c|
    ensures c[..m][a..b] == c[a..b]
  {
    assert forall k :: 0 <= k < b - a ==> c[..m][a..b][k] == c[a + k];
  }

  lemma PowerIsBase()
    ensures Power(BASE_LG) == BASE
  {
    assert Power(4) == 16;
    assert Power(8) == 256;
  }

  /** A finished block asks the filter of the offset's slot; an empty filter matches nothing. */
  lemma AsksSlotsFilter(result: Bytes, offsets: seq<nat>, filters: seq<seq<Bytes>>, offset: nat, key: Bytes)
    requires |result| < WORD && FiltersAt(result, offsets, filters)
    ensures offset / BASE >= |filters| ==> BlockMayMatch(Finished(result, offsets), offset, key)
    ensures var i := offset / BASE;
            i < |filters| ==>
              && FilterAt(result, offsets, filters, i)
              && (BlockMayMatch(Finished(result, offsets), offset, key) <==>
                  Matches(key, result[offsets[i]..FilterEnd(result, offsets, i)]))
  {
    hide IsFilter, Matches, Decode32, Finished;
    var i := offset / BASE;
    PowerIsBase();
    FinishedParts(result, offsets);
    if i < |filters| {
      assert FilterAt(result, offsets, filters, i);
      FinishedOffset(result, offsets, i);
      if i + 1 < |offsets| {
        assert FilterAt(result, offsets, filters, i + 1);
      }
      FinishedOffset(result, offsets, i + 1);
      SlicePrefix(Finished(result, offsets), |result|, offsets[i], FilterEnd(result, offsets, i));
    }
  }

  /** A key in the filter of a slot matches at every offset in that slot. */
  lemma FiledMatches(result: Bytes, offsets: seq<nat>, filters: seq<seq<Bytes>>, offset: nat, key: Bytes)
    requires |result| < WORD && FiltersAt(result, offsets, filters)
    requires offset / BASE < |filters| && key in filters[offset / BASE]
    ensures BlockMayMatch(Finished(result, offsets), offset, key)
  {
    hide IsFilter, Matches, BlockMayMatch, Finished;
    var i := offset / BASE;
    AsksSlotsFilter(result, offsets, filters, offset, key);
    var j :| 0 <= j < |filters[i]| && filters[i][j] == key;
    FilterMatches(filters[i], result[offsets[i]..FilterEnd(result, offsets, i)], j);
  }

  lemma FinishedMatches(result: Bytes, offsets: seq<nat>, filters: seq<seq<Bytes>>, pending: seq<Bytes>,
                        history: seq<Added>)
    requires |result| < WORD && FiltersAt(result, offsets, filters) && AllFiled(history, filters, pending)
    requires pending == []
    ensures forall i :: 0 <= i < |history| ==>
        BlockMayMatch(Finished(result, offsets), history[i].offset, history[i].key)
  {
    hide BlockMayMatch, FiltersAt, Finished;
    forall i | 0 <= i < |history| ensures BlockMayMatch(Finished(result, offsets), history[i].offset, history[i].key) {
      assert Filed(history[i], filters, pending);
      FiledMatches(result, offsets, filters, history[i].offset, history[i].key);
    }
  }
}
