/** Variable-length integers and length-prefixed strings (util/coding.cc). */
module Coding {
  import opened Bytewise
  import opened Options

  const WORD32 := 0x1_0000_0000
  const WORD64 := 0x1_0000_0000_0000_0000

  /** A decoded value and the input left after it. */
  datatype Decoded<+T> = Decoded(value: T, rest: Bytes)

  /** Seven bits a byte, the low ones first; the high bit says that more follow. */
  function Varint(v: nat): (b: Bytes)
    ensures b != []
  {
    if v < 128 then [v] else [v % 128 + 128] + Varint(v / 128)
  }

  /** Reads at most `width` bytes. */
  function ReadVarint(input: Bytes, width: nat): (r: Option<Decoded<nat>>)
    ensures r.Some? ==> |r.value.rest| < |input| && r.value.rest == input[|input| - |r.value.rest|..]
  {
    if width == 0 || input == [] then None
    else if input[0] < 128 then Some(Decoded(input[0], input[1..]))
    else
      var more := ReadVarint(input[1..], width - 1);
      if more.None? then None
      else Some(Decoded(input[0] as int - 128 + 128 * more.value.value, more.value.rest))
  }

  function Power128(n: nat): nat {
    if n == 0 then 1 else 128 * Power128(n - 1)
  }

  lemma {:induction false} ReadVarintBack(v: nat, width: nat, rest: Bytes)
    requires v < Power128(width) && width > 0
    ensures ReadVarint(Varint(v) + rest, width) == Some(Decoded(v, rest))
  {
    assert (Varint(v) + rest)[1..] == Varint(v)[1..] + rest;
    if v < 128 {
      assert (Varint(v) + rest)[1..] == rest;
    } else {
      ReadVarintBack(v / 128, width - 1, rest);
      assert (Varint(v) + rest)[1..] == Varint(v / 128) + rest;
    }
  }

  /** Byte `n` is the first without the bit that says that more follow. */
  predicate EndsAt(input: Bytes, n: nat) {
    n < |input| && input[n] < 128 && forall i :: 0 <= i < n ==> input[i] >= 128
  }

  lemma {:induction false} EndedIsRead(input: Bytes, width: nat, n: nat)
    requires n < width && EndsAt(input, n)
    ensures ReadVarint(input, width).Some? && ReadVarint(input, width).value.rest == input[n + 1..]
  {
    if n > 0 {
      assert input[1..][n - 1] == input[n] && forall i :: 0 <= i < n - 1 ==> input[1..][i] == input[i + 1];
      EndedIsRead(input[1..], width - 1, n - 1);
      assert input[1..][n..] == input[n + 1..];
    }
  }

  lemma {:induction false} ReadIsEnded(input: Bytes, width: nat) returns (n: nat)
    requires ReadVarint(input, width).Some?
    ensures n < width && EndsAt(input, n)
  {
    n := 0;
    if input[0] >= 128 {
      n := ReadIsEnded(input[1..], width - 1);
      assert input[1..][n] == input[n + 1] && forall i :: 0 < i <= n ==> input[i] == input[1..][i - 1];
      n := n + 1;
    }
  }

  /** A number is read exactly when one of the first `width` bytes ends it, and what follows that byte is left. */
  lemma ReadExactlyWhenEnded(input: Bytes, width: nat)
    ensures ReadVarint(input, width).Some? <==> exists n: nat :: EndsAt(input, n) && n < width
    ensures forall n: nat :: EndsAt(input, n) && n < width ==>
      ReadVarint(input, width).Some? && ReadVarint(input, width).value.rest == input[n + 1..]
  {
    hide ReadVarint;
    if ReadVarint(input, width).Some? {
      var n := ReadIsEnded(input, width);
    }
    forall n: nat | EndsAt(input, n) && n < width
      ensures ReadVarint(input, width).Some? && ReadVarint(input, width).value.rest == input[n + 1..]
    {
      EndedIsRead(input, width, n);
    }
  }

  /** No beginning of an encoded number is taken for a number. */
  lemma {:induction false} CutVarintFails(v: nat, width: nat, k: nat)
    requires k < |Varint(v)|
    ensures ReadVarint(Varint(v)[..k], width).None?
  {
    if v >= 128 && k > 0 && width > 0 {
      CutVarintFails(v / 128, width - 1, k - 1);
      assert Varint(v)[..k][1..] == Varint(v / 128)[..k - 1];
    }
  }

  /** GetVarint32 and GetVarint64: bits beyond the word are lost. */
  function GetVarint32(input: Bytes): (r: Option<Decoded<nat>>)
    ensures r.Some? ==> |r.value.rest| < |input| && r.value.value < WORD32
  {
    var r := ReadVarint(input, 5);
    if r.None? then None else Some(Decoded(r.value.value % WORD32, r.value.rest))
  }

  function GetVarint64(input: Bytes): (r: Option<Decoded<nat>>)
    ensures r.Some? ==> |r.value.rest| < |input|
  {
    var r := ReadVarint(input, 10);
    if r.None? then None else Some(Decoded(r.value.value % WORD64, r.value.rest))
  }

  lemma Widths()
    ensures Power128(5) >= WORD32 && Power128(10) >= WORD64
  {
    assert Power128(2) == 0x4000;
    assert Power128(4) == 0x1000_0000;
    assert Power128(5) == 0x8_0000_0000;
    assert Power128(7) == 0x2_0000_0000_0000;
    assert Power128(9) == 0x8000_0000_0000_0000;
  }

  lemma Whole(v: nat, word: nat)
    requires v < word
    ensures v % word == v
  {
  }

  lemma GetVarint32Back(v: nat, rest: Bytes)
    requires v < WORD32
    ensures GetVarint32(Varint(v) + rest) == Some(Decoded(v, rest))
  {
    hide Power128, ReadVarint, Varint;
    Widths();
    ReadVarintBack(v, 5, rest);
    Whole(v, WORD32);
  }

  lemma GetVarint64Back(v: nat, rest: Bytes)
    requires v < WORD64
    ensures GetVarint64(Varint(v) + rest) == Some(Decoded(v, rest))
  {
    hide Power128, ReadVarint, Varint;
    Widths();
    ReadVarintBack(v, 10, rest);
    Whole(v, WORD64);
  }

  /** PutLengthPrefixedSlice. */
  function Prefixed(s: Bytes): Bytes {
    Varint(|s|) + s
  }

  function GetPrefixed(input: Bytes): (r: Option<Decoded<Bytes>>)
    ensures r.Some? ==> |r.value.rest| < |input|
  {
    var n := GetVarint32(input);
    if n.None? || n.value.value > |n.value.rest| then None
    else Some(Decoded(n.value.rest[..n.value.value], n.value.rest[n.value.value..]))
  }

  lemma GetPrefixedBack(s: Bytes, rest: Bytes)
    requires |s| < WORD32
    ensures GetPrefixed(Prefixed(s) + rest) == Some(Decoded(s, rest))
  {
    GetVarint32Back(|s|, s + rest);
    assert Prefixed(s) + rest == Varint(|s|) + (s + rest);
  }

  // ---------------------------------------------------------------- the loops

  lemma MoreDigits(b: Bytes, v: nat)
    requires v >= 128
    ensures b + [v % 128 + 128] + Varint(v / 128) == b + Varint(v)
  {
  }

  /** EncodeVarint64. */
  method EncodeVarint(v0: nat) returns (b: Bytes)
    ensures b == Varint(v0)
  {
    var v := v0;
    b := [];
    while v >= 128
      invariant b + Varint(v) == Varint(v0)
    {
      MoreDigits(b, v);
      b := b + [v % 128 + 128];
      v := v / 128;
    }
    b := b + [v];
  }

  /** A value read with `mult` as the weight of its lowest digit, on top of `result`. */
  function Placed(result: nat, mult: nat, r: Option<Decoded<nat>>): Option<Decoded<nat>> {
    if r.None? then None else Some(Decoded(result + mult * r.value.value, r.value.rest))
  }

  lemma PlacedMore(result: nat, mult: nat, digit: nat, r: Option<Decoded<nat>>)
    ensures Placed(result, mult, Placed(digit, 128, r)) == Placed(result + digit * mult, mult * 128, r)
  {
    if r.Some? {
      var v := r.value.value;
      assert mult * (digit + 128 * v) == mult * digit + mult * 128 * v;
    }
  }

  lemma ReadUnfolds(input: Bytes, p: nat, width: nat)
    requires p < |input| && width > 0
    ensures ReadVarint(input[p..], width)
         == if input[p] < 128 then Some(Decoded(input[p], input[p + 1..]))
            else Placed(input[p] as int - 128, 128, ReadVarint(input[p + 1..], width - 1))
  {
    assert input[p..][1..] == input[p + 1..];
  }

  /** The loop of GetVarint32PtrFallback and GetVarint64Ptr; `mult` is two to the power `shift`. */
  method DecodeVarint(input: Bytes, width: nat) returns (r: Option<Decoded<nat>>)
    ensures r == ReadVarint(input, width)
  {
    hide ReadVarint;
    var result: nat, mult: nat, p := 0, 1, 0;
    assert input[0..] == input;
    PlacedFirst(ReadVarint(input, width));
    while p < width && p < |input|
      invariant p <= width && p <= |input|
      invariant ReadVarint(input, width) == Placed(result, mult, ReadVarint(input[p..], width - p))
    {
      var byte := input[p];
      ReadUnfolds(input, p, width - p);
      p := p + 1;
      if byte < 128 {
        return Some(Decoded(result + mult * byte as int, input[p..]));
      }
      var digit: nat := byte as int - 128;
      PlacedMore(result, mult, digit, ReadVarint(input[p..], width - p));
      result, mult := result + digit * mult, mult * 128;
    }
    NothingRead(input[p..], width - p);
    return None;
  }

  lemma PlacedFirst(r: Option<Decoded<nat>>)
    ensures Placed(0, 1, r) == r
  {
  }

  lemma NothingRead(input: Bytes, width: nat)
    requires input == [] || width == 0
    ensures ReadVarint(input, width).None?
  {
  }
}
