/** CRC-32C, section 12.1 of RFC 3720 (util/crc32c.cc). */
module Crc32c {
  type Word = bv32
  type Octets = seq<bv8>

  const ONES: Word := 0xffffffff

  // ---------------------------------------------------------------- operations on words

  function Xor(x: Word, y: Word): Word { x ^ y }
  function Half(x: Word): Word { x >> 1 }
  function Down(x: Word): Word { x >> 8 }
  function Up(x: Word): Word { x << 8 }
  function Low(x: Word): Word { x & 0xff }
  function High(x: Word): Word { x & 0xffffff00 }
  function Widen(b: bv8): Word { b as Word }
  predicate Odd(x: Word) { x & 1 == 1 }

  lemma Commutes(x: Word, y: Word)
    ensures Xor(x, y) == Xor(y, x)
  {
  }

  lemma Associates(x: Word, y: Word, z: Word)
    ensures Xor(Xor(x, y), z) == Xor(x, Xor(y, z))
  {
  }

  lemma Swaps(a: Word, b: Word, c: Word, d: Word)
    ensures Xor(Xor(a, b), Xor(c, d)) == Xor(Xor(a, c), Xor(b, d))
  {
    hide Xor;
    Associates(a, b, Xor(c, d));
    Associates(b, c, d);
    Commutes(b, c);
    Associates(c, b, d);
    Associates(a, c, Xor(b, d));
  }

  lemma TwiceOnes(x: Word)
    ensures Xor(Xor(x, ONES), ONES) == x
  {
  }

  /** Nothing lies in the low byte, so shifting down loses nothing. */
  predicate Clear(x: Word) { x & 0xff == 0 }

  lemma UpIsClear(x: Word)
    ensures Clear(Up(x))
  {
  }

  predicate Short(x: Word) { x & 0xff000000 == 0 }

  lemma UpDown(x: Word)
    requires Short(x)
    ensures Down(Up(x)) == x
  {
  }

  lemma Parts(x: Word)
    ensures Xor(Low(x), High(x)) == x && Clear(High(x)) && Down(High(x)) == Down(x)
  {
  }

  // ---------------------------------------------------------------- the checksum

  function Feedback(odd: bool): Word {
    if odd then 0x82f63b78 else 0
  }

  /** One step of the bit-reflected polynomial division. */
  function Bit(x: Word): Word {
    Xor(Half(x), Feedback(Odd(x)))
  }

  /** Eight bit steps. */
  function Round(x: Word): Word {
    Bit(Bit(Bit(Bit(Bit(Bit(Bit(Bit(x))))))))
  }

  /** The definition of the checksum: one byte enters the low end, eight bit steps. */
  function Step(l: Word, b: bv8): Word {
    Round(Xor(l, Widen(b)))
  }

  function Fold(l: Word, data: Octets): Word {
    if data == [] then l else Step(Fold(l, data[..|data| - 1]), data[|data| - 1])
  }

  /** Continue a checksum over more data. */
  function Extended(crc: Word, data: Octets): Word {
    Xor(Fold(Xor(crc, ONES), data), ONES)
  }

  lemma {:induction false} FoldConcat(l: Word, a: Octets, b: Octets)
    ensures Fold(l, a + b) == Fold(Fold(l, a), b)
  {
    hide Step;
    if b == [] {
      assert a + b == a;
    } else {
      FoldConcat(l, a, b[..|b| - 1]);
      assert (a + b)[..|a + b| - 1] == a + b[..|b| - 1];
    }
  }

  /** Extending in two pieces is extending by their concatenation. */
  lemma ExtendedConcat(crc: Word, a: Octets, b: Octets)
    ensures Extended(Extended(crc, a), b) == Extended(crc, a + b)
  {
    hide Xor, Fold;
    FoldConcat(Xor(crc, ONES), a, b);
    TwiceOnes(Fold(Xor(crc, ONES), a));
  }

  // ---------------------------------------------------------------- linearity

  lemma HalfLinear(x: Word, y: Word)
    ensures Half(Xor(x, y)) == Xor(Half(x), Half(y))
  {
  }

  lemma OddLinear(x: Word, y: Word)
    ensures Odd(Xor(x, y)) <==> Odd(x) != Odd(y)
  {
  }

  lemma FeedbackLinear(a: bool, b: bool)
    ensures Xor(Feedback(a), Feedback(b)) == Feedback(a != b)
  {
  }

  lemma BitLinear(x: Word, y: Word)
    ensures Bit(Xor(x, y)) == Xor(Bit(x), Bit(y))
  {
    hide Xor, Half, Odd, Feedback;
    HalfLinear(x, y);
    OddLinear(x, y);
    FeedbackLinear(Odd(x), Odd(y));
    Swaps(Half(x), Half(y), Feedback(Odd(x)), Feedback(Odd(y)));
  }

  lemma RoundLinear(x: Word, y: Word)
    ensures Round(Xor(x, y)) == Xor(Round(x), Round(y))
  {
    hide Bit, Xor;
    BitLinear(x, y);
    var x1, y1 := Bit(x), Bit(y);
    BitLinear(x1, y1);
    var x2, y2 := Bit(x1), Bit(y1);
    BitLinear(x2, y2);
    var x3, y3 := Bit(x2), Bit(y2);
    BitLinear(x3, y3);
    var x4, y4 := Bit(x3), Bit(y3);
    BitLinear(x4, y4);
    var x5, y5 := Bit(x4), Bit(y4);
    BitLinear(x5, y5);
    var x6, y6 := Bit(x5), Bit(y5);
    BitLinear(x6, y6);
    BitLinear(Bit(x6), Bit(y6));
  }

  /** A round only shifts what lies above the low byte. */
  lemma RoundClear(x: Word)
    requires Clear(x)
    ensures Round(x) == Down(x)
  {
  }

  /** Entry `c` of the k-th table (`table0_` to `table3_`): k + 1 rounds. */
  function Table(k: nat, c: Word): Word {
    if k == 0 then Round(c) else Round(Table(k - 1, c))
  }

  lemma {:induction false} TableLinear(k: nat, x: Word, y: Word)
    ensures Table(k, Xor(x, y)) == Xor(Table(k, x), Table(k, y))
  {
    hide Round, Xor;
    if k == 0 {
      RoundLinear(x, y);
    } else {
      TableLinear(k - 1, x, y);
      RoundLinear(Table(k - 1, x), Table(k - 1, y));
    }
  }

  /** Shifting down a byte saves one round. */
  lemma {:induction false} TableClear(k: nat, x: Word)
    requires Clear(x) && k > 0
    ensures Table(k, x) == Table(k - 1, Down(x))
  {
    hide Round, Clear, Down;
    RoundClear(x);
    if k > 1 {
      TableClear(k - 1, x);
    }
  }

  lemma {:induction false} RoundFirst(k: nat, x: Word)
    requires k > 0
    ensures Table(k, x) == Table(k - 1, Round(x))
  {
    hide Round;
    if k > 1 {
      RoundFirst(k - 1, x);
    }
  }

  // ---------------------------------------------------------------- the steps of the code

  /** `STEP1`. */
  function Step1(l: Word, b: bv8): Word {
    Xor(Table(0, Xor(Low(l), Widen(b))), Down(l))
  }

  lemma Step1IsStep(l: Word, b: bv8)
    ensures Step1(l, b) == Step(l, b)
  {
    hide Round, Xor, Low, High, Down, Widen, Clear;
    var w := Widen(b);
    Parts(l);
    Associates(Low(l), High(l), w);
    Commutes(High(l), w);
    Associates(Low(l), w, High(l));
    RoundLinear(Xor(Low(l), w), High(l));
    RoundClear(High(l));
  }

  /** LE_LOAD32. */
  function Load(b0: bv8, b1: bv8, b2: bv8, b3: bv8): Word {
    (b0 as Word) | (b1 as Word << 8) | (b2 as Word << 16) | (b3 as Word << 24)
  }

  /** `STEP4`. */
  function Step4(l: Word, b0: bv8, b1: bv8, b2: bv8, b3: bv8): Word {
    var c := Xor(l, Load(b0, b1, b2, b3));
    Xor(Xor(Xor(Table(3, Low(c)), Table(2, Low(Down(c)))), Table(1, Low(Down(Down(c))))), Table(0, Down(Down(Down(c)))))
  }

  lemma TableSplit(k: nat, c: Word)
    requires k > 0
    ensures Table(k, c) == Xor(Table(k, Low(c)), Table(k - 1, Down(c)))
  {
    hide Table, Xor, Low, High, Down, Clear;
    Parts(c);
    TableLinear(k, Low(c), High(c));
    TableClear(k, High(c));
  }

  /** Four lookups, one for each byte, make four rounds. */
  lemma FourLookups(c: Word)
    ensures Table(3, c) ==
            Xor(Xor(Xor(Table(3, Low(c)), Table(2, Low(Down(c)))), Table(1, Low(Down(Down(c))))),
                Table(0, Down(Down(Down(c)))))
  {
    hide Table, Xor, Low, Down;
    TableSplit(3, c);
    TableSplit(2, Down(c));
    TableSplit(1, Down(Down(c)));
    var t3, t2 := Table(3, Low(c)), Table(2, Low(Down(c)));
    var t1, t0 := Table(1, Low(Down(Down(c)))), Table(0, Down(Down(Down(c))));
    Associates(t3, t2, Xor(t1, t0));
    Associates(Xor(t3, t2), t1, t0);
  }

  /** A byte that enters with others above it might as well enter alone, a round before them. */
  lemma EnterFirst(k: nat, l: Word, b: bv8, above: Word)
    requires k > 0 && Short(above)
    ensures Table(k, Xor(l, Xor(Widen(b), Up(above)))) == Table(k - 1, Xor(Step(l, b), above))
  {
    hide Table, Xor, Round, Widen, Up, Down, Short, Clear;
    var x := Xor(l, Widen(b));
    Associates(l, Widen(b), Up(above));
    TableLinear(k, x, Up(above));
    RoundFirst(k, x);
    UpIsClear(above);
    TableClear(k, Up(above));
    UpDown(above);
    TableLinear(k - 1, Round(x), above);
  }

  lemma LoadParts(b0: bv8, b1: bv8, b2: bv8, b3: bv8)
    ensures Load(b0, b1, b2, b3) == Xor(Widen(b0), Up(Load(b1, b2, b3, 0)))
    ensures Short(Load(b1, b2, b3, 0))
  {
    LoadBits(b0, b1, b2, b3);
  }

  lemma LoadBits(b0: bv8, b1: bv8, b2: bv8, b3: bv8)
    ensures (b0 as Word) | (b1 as Word << 8) | (b2 as Word << 16) | (b3 as Word << 24)
         == (b0 as Word) ^ (((b1 as Word) | (b2 as Word << 8) | (b3 as Word << 16)) << 8)
    ensures ((b1 as Word) | (b2 as Word << 8) | (b3 as Word << 16)) & 0xff000000 == 0
  {
  }

  lemma LoadLast(b: bv8)
    ensures Load(b, 0, 0, 0) == Widen(b)
  {
  }

  /** The four-byte step of the code is four steps of the definition. */
  lemma Step4IsFourSteps(l: Word, b0: bv8, b1: bv8, b2: bv8, b3: bv8)
    ensures Step4(l, b0, b1, b2, b3) == Step(Step(Step(Step(l, b0), b1), b2), b3)
  {
    hide Table, Xor, Low, Down, Load, Short, Widen, Up, Round;
    FourLookups(Xor(l, Load(b0, b1, b2, b3)));
    LoadParts(b0, b1, b2, b3);
    EnterFirst(3, l, b0, Load(b1, b2, b3, 0));
    LoadParts(b1, b2, b3, 0);
    EnterFirst(2, Step(l, b0), b1, Load(b2, b3, 0, 0));
    LoadParts(b2, b3, 0, 0);
    EnterFirst(1, Step(Step(l, b0), b1), b2, Load(b3, 0, 0, 0));
    LoadLast(b3);
    FirstTable(Xor(Step(Step(Step(l, b0), b1), b2), Widen(b3)));
  }

  lemma FirstTable(x: Word)
    ensures Table(0, x) == Round(x)
  {
  }

  // ---------------------------------------------------------------- what it notices

  lemma BitInjective(x: Word, y: Word)
    requires Bit(x) == Bit(y)
    ensures x == y
  {
  }

  lemma RoundInjective(x: Word, y: Word)
    requires Round(x) == Round(y)
    ensures x == y
  {
    hide Bit;
    var x2, y2 := Bit(Bit(x)), Bit(Bit(y));
    var x4, y4 := Bit(Bit(x2)), Bit(Bit(y2));
    var x6, y6 := Bit(Bit(x4)), Bit(Bit(y4));
    BitInjective(Bit(x6), Bit(y6));
    BitInjective(x6, y6);
    BitInjective(Bit(x4), Bit(y4));
    BitInjective(x4, y4);
    BitInjective(Bit(x2), Bit(y2));
    BitInjective(x2, y2);
    BitInjective(Bit(x), Bit(y));
    BitInjective(x, y);
  }

  lemma {:induction false} TableInjective(k: nat, x: Word, y: Word)
    requires Table(k, x) == Table(k, y)
    ensures x == y
  {
    hide Round;
    if k == 0 {
      RoundInjective(x, y);
    } else {
      RoundInjective(Table(k - 1, x), Table(k - 1, y));
      TableInjective(k - 1, x, y);
    }
  }

  lemma XorInjective(m: Word, x: Word, y: Word)
    requires Xor(m, x) == Xor(m, y) || Xor(x, m) == Xor(y, m)
    ensures x == y
  {
  }

  lemma LoadInjective(b0: bv8, b1: bv8, b2: bv8, b3: bv8, c0: bv8, c1: bv8, c2: bv8, c3: bv8)
    requires Load(b0, b1, b2, b3) == Load(c0, c1, c2, c3)
    ensures b0 == c0 && b1 == c1 && b2 == c2 && b3 == c3
  {
  }

  /** What follows a difference never cancels it. */
  lemma {:induction false} FoldInjective(x: Word, y: Word, data: Octets)
    requires Fold(x, data) == Fold(y, data)
    ensures x == y
  {
    hide Round, Xor, Widen;
    if data != [] {
      var init, b := data[..|data| - 1], data[|data| - 1];
      RoundInjective(Xor(Fold(x, init), Widen(b)), Xor(Fold(y, init), Widen(b)));
      XorInjective(Widen(b), Fold(x, init), Fold(y, init));
      FoldInjective(x, y, init);
    }
  }

  lemma WordInjective(l: Word, a: Octets, b: Octets)
    requires |a| == |b| == 4 && Fold(l, a) == Fold(l, b)
    ensures a == b
  {
    hide Table, Xor, Low, Down, Load, Step4, Fold;
    FourAtOnce(l, a);
    FourAtOnce(l, b);
    var u, v := Load(a[0], a[1], a[2], a[3]), Load(b[0], b[1], b[2], b[3]);
    TableInjective(3, Xor(l, u), Xor(l, v));
    XorInjective(l, u, v);
    LoadInjective(a[0], a[1], a[2], a[3], b[0], b[1], b[2], b[3]);
  }

  lemma FourAtOnce(l: Word, a: Octets)
    requires |a| == 4
    ensures Fold(l, a) == Table(3, Xor(l, Load(a[0], a[1], a[2], a[3])))
  {
    hide Table, Xor, Low, Down, Load;
    FoldFour(l, a, 0);
    FoldEmpty(l);
    assert a[..4] == a && a[..0] == [];
    FourLookups(Xor(l, Load(a[0], a[1], a[2], a[3])));
  }

  /** Shorter pieces, by what they would be with zeros after them. */
  lemma {:induction false} PieceInjective(l: Word, a: Octets, b: Octets)
    requires |a| == |b| <= 4 && Fold(l, a) == Fold(l, b)
    ensures a == b
    decreases 4 - |a|
  {
    if |a| == 4 {
      WordInjective(l, a, b);
    } else {
      assert (a + [0])[..|a|] == a && (b + [0])[..|b|] == b;
      PieceInjective(l, a + [0], b + [0]);
    }
  }

  /** A change within four consecutive bytes always changes the checksum. */
  lemma BurstIsNoticed(crc: Word, front: Octets, a: Octets, b: Octets, back: Octets)
    requires |a| == |b| <= 4 && a != b
    ensures Extended(crc, front + a + back) != Extended(crc, front + b + back)
  {
    hide Xor, Fold;
    var l := Xor(crc, ONES);
    FoldConcat(l, front + a, back);
    FoldConcat(l, front, a);
    FoldConcat(l, front + b, back);
    FoldConcat(l, front, b);
    if Extended(crc, front + a + back) == Extended(crc, front + b + back) {
      XorInjective(ONES, Fold(l, front + a + back), Fold(l, front + b + back));
      FoldInjective(Fold(l, front + a), Fold(l, front + b), back);
      PieceInjective(Fold(l, front), a, b);
      assert false;
    }
  }

  // ---------------------------------------------------------------- the loops

  /** The first four-byte aligned address from `address` on. */
  function Aligned(address: nat): nat {
    (address + 3) / 4 * 4
  }

  lemma FoldOne(l: Word, data: Octets, p: nat)
    requires p < |data|
    ensures Fold(l, data[..p + 1]) == Step1(Fold(l, data[..p]), data[p])
  {
    hide Step, Step1;
    assert data[..p + 1][..p] == data[..p];
    Step1IsStep(Fold(l, data[..p]), data[p]);
  }

  lemma FoldFour(l: Word, data: Octets, p: nat)
    requires p + 4 <= |data|
    ensures Fold(l, data[..p + 4]) == Step4(Fold(l, data[..p]), data[p], data[p + 1], data[p + 2], data[p + 3])
  {
    hide Step4, Fold;
    FoldStep(l, data, p);
    FoldStep(l, data, p + 1);
    FoldStep(l, data, p + 2);
    FoldStep(l, data, p + 3);
    Step4IsFourSteps(Fold(l, data[..p]), data[p], data[p + 1], data[p + 2], data[p + 3]);
  }

  lemma FoldStep(l: Word, data: Octets, p: nat)
    requires p < |data|
    ensures Fold(l, data[..p + 1]) == Step(Fold(l, data[..p]), data[p])
  {
    hide Step;
    assert data[..p + 1][..p] == data[..p];
  }

  /** Four bytes at a time (STEP4). */
  method Extend4(ghost start: Word, l: Word, data: Octets, p: nat) returns (r: Word)
    requires p + 4 <= |data| && l == Fold(start, data[..p])
    ensures r == Fold(start, data[..p + 4])
  {
    hide Fold, Step4;
    FoldFour(start, data, p);
    r := Step4(l, data[p], data[p + 1], data[p + 2], data[p + 3]);
  }

  /** Whatever the address of the data, and however long it is, the loops compute the definition. */
  method Extend(crc: Word, data: Octets, address: nat) returns (r: Word)
    ensures r == Extended(crc, data)
  {
    hide Fold, Step1, Step4, Xor;
    var l := Xor(crc, ONES);
    ghost var start := l;
    var p, e := 0, |data|;
    assert data[..0] == [] && data[..e] == data;
    FoldEmpty(l);
    var x := Aligned(address) - address;
    if x <= e {
      while p != x
        invariant p <= x <= e && l == Fold(start, data[..p])
      {
        FoldOne(start, data, p);
        l := Step1(l, data[p]);
        p := p + 1;
      }
    }
    while e - p >= 16
      invariant p <= e && l == Fold(start, data[..p])
    {
      l := Extend4(start, l, data, p);
      l := Extend4(start, l, data, p + 4);
      l := Extend4(start, l, data, p + 8);
      l := Extend4(start, l, data, p + 12);
      p := p + 16;
    }
    while e - p >= 4
      invariant p <= e && l == Fold(start, data[..p])
    {
      l := Extend4(start, l, data, p);
      p := p + 4;
    }
    while p != e
      invariant p <= e && l == Fold(start, data[..p])
    {
      FoldOne(start, data, p);
      l := Step1(l, data[p]);
      p := p + 1;
    }
    r := Xor(l, ONES);
  }

  lemma FoldEmpty(l: Word)
    ensures Fold(l, []) == l
  {
  }
}
