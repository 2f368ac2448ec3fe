/** Machine words of 32 bits and the numbers they stand for. */
module WordBits {

  function Bit(x: bv32): nat {
    if x & 1 == 1 then 1 else 0
  }

  function Half(x: bv32): bv32 {
    x >> 1
  }

  function Next(x: bv32): bv32 {
    x + 1
  }

  function Plus(x: bv32, y: bv32): bv32 {
    x + y
  }

  function Minus(x: bv32, y: bv32): bv32 {
    x - y
  }

  function Either(x: bv32, y: bv32): bv32 {
    x ^ y
  }

  /** Some number of ones at the low end. */
  predicate Mask(t: bv32) {
    t & (t + 1) == 0
  }

  /** The words have the same bits under `t`. */
  predicate Alike(u: bv32, v: bv32, t: bv32) {
    u & t == v & t
  }

  // ----- one bit at a time

  lemma HalfMask(t: bv32)
    requires Mask(t)
    ensures Mask(Half(t)) && (t != 0 ==> Bit(t) == 1 && Half(t) < t)
  {
  }

  lemma HalfAlike(u: bv32, v: bv32, t: bv32)
    requires Mask(t) && t != 0 && Alike(u, v, t)
    ensures Bit(u) == Bit(v) && Alike(Half(u), Half(v), Half(t))
  {
  }

  lemma HalvesAlike(u: bv32, v: bv32, t: bv32)
    requires Bit(u) == Bit(v) && Alike(Half(u), Half(v), Half(t))
    ensures Alike(u, v, t)
  {
  }

  lemma NextBits(x: bv32, t: bv32)
    ensures Bit(x) == 0 ==> Bit(Next(x)) == 1 && Half(Next(x)) == Half(x)
    ensures Bit(x) != 0 ==> Bit(x) == 1 && Bit(Next(x)) == 0 && Alike(Half(Next(x)), Next(Half(x)), Half(t))
  {
  }

  /** The number in the bits of `x` under the mask `t`. */
  function Low(x: bv32, t: bv32): nat
    requires Mask(t)
    decreases t
  {
    HalfMask(t);
    if t == 0 then 0 else 2 * Low(Half(x), Half(t)) + Bit(x)
  }

  lemma {:induction false} LowStep(x: bv32, t: bv32)
    requires Mask(t) && t != 0
    ensures Mask(Half(t)) && Low(x, t) == 2 * Low(Half(x), Half(t)) + Bit(x) && Bit(x) < 2
  {
  }

  lemma LowNone(x: bv32)
    ensures Mask(0) && Low(x, 0) == 0
  {
  }

  lemma {:induction false} LowMost(x: bv32, t: bv32)
    requires Mask(t)
    ensures Low(x, t) <= Low(t, t)
    decreases t
  {
    HalfMask(t);
    hide Mask, Bit, Half, Low;
    if t != 0 {
      LowStep(x, t);
      LowStep(t, t);
      LowMost(Half(x), Half(t));
    } else {
      LowNone(x);
    }
  }

  lemma {:induction false} LowAlike(u: bv32, v: bv32, t: bv32)
    requires Mask(t) && Alike(u, v, t)
    ensures Low(u, t) == Low(v, t)
    decreases t
  {
    HalfMask(t);
    hide Mask, Bit, Half, Low, Alike;
    if t != 0 {
      HalfAlike(u, v, t);
      LowStep(u, t);
      LowStep(v, t);
      LowAlike(Half(u), Half(v), Half(t));
    } else {
      LowNone(u);
      LowNone(v);
    }
  }

  lemma {:induction false} LowSame(u: bv32, v: bv32, t: bv32)
    requires Mask(t) && Low(u, t) == Low(v, t)
    ensures Alike(u, v, t)
    decreases t
  {
    if t != 0 {
      HalfMask(t);
      hide Mask, Bit, Half, Low, Alike;
      LowStep(u, t);
      LowStep(v, t);
      LowSame(Half(u), Half(v), Half(t));
      HalvesAlike(u, v, t);
    }
  }

  lemma NextStep(x: bv32, t: bv32)
    requires Mask(t) && t != 0
    ensures Mask(Half(t))
    ensures Low(Next(x), t) == if Bit(x) == 0 then 2 * Low(Half(x), Half(t)) + 1 else 2 * Low(Next(Half(x)), Half(t))
  {
    NextBits(x, t);
    hide Mask, Bit, Half, Low, Next, Alike;
    LowStep(Next(x), t);
    if Bit(x) != 0 {
      LowAlike(Half(Next(x)), Next(Half(x)), Half(t));
    }
  }

  /** One more, or zero after the greatest number. */
  lemma {:induction false} LowNext(x: bv32, t: bv32)
    requires Mask(t)
    ensures Low(Next(x), t) == if Low(x, t) == Low(t, t) then 0 else Low(x, t) + 1
    decreases t
  {
    HalfMask(t);
    hide Mask, Bit, Half, Low, Next;
    if t != 0 {
      LowStep(x, t);
      LowStep(t, t);
      NextStep(x, t);
      LowMost(Half(x), Half(t));
      LowNext(Half(x), Half(t));
    } else {
      LowNone(x);
      LowNone(Next(x));
    }
  }

  // ----- whole words

  const ONES: bv32 := 0xffff_ffff

  /** The number that a word stands for. */
  function Val(x: bv32): nat {
    Low(x, ONES)
  }

  lemma ValApart(x: bv32, y: bv32)
    requires Val(x) == Val(y)
    ensures x == y
  {
    LowSame(x, y, ONES);
  }

  lemma ValZero()
    ensures Val(0) == 0
  {
    LowZero(ONES);
  }

  lemma {:induction false} LowZero(t: bv32)
    requires Mask(t)
    ensures Low(0, t) == 0
    decreases t
  {
    if t != 0 {
      HalfMask(t);
      LowStep(0, t);
      LowZero(Half(t));
    }
  }

  lemma ValNext(x: bv32)
    ensures Val(Next(x)) == if x == ONES then 0 else Val(x) + 1
  {
    hide Low, Next;
    LowNext(x, ONES);
    if x != ONES && Val(x) == Val(ONES) {
      ValApart(x, ONES);
    }
  }

  // ----- how many words there are

  function Nibble(x: bv32): nat {
    Bit(x) + 2 * Bit(x >> 1) + 4 * Bit(x >> 2) + 8 * Bit(x >> 3)
  }

  lemma FourHalves(x: bv32)
    ensures Half(x) == x >> 1 && Half(x >> 1) == x >> 2 && Half(x >> 2) == x >> 3 && Half(x >> 3) == x >> 4
  {
  }

  lemma FourMasks(t: bv32)
    requires Mask(t) && t & 15 == 15
    ensures Mask(t >> 1) && Mask(t >> 2) && Mask(t >> 3) && Mask(t >> 4)
    ensures t != 0 && t >> 1 != 0 && t >> 2 != 0 && t >> 3 != 0
  {
  }

  lemma {:induction false} LowFour(x: bv32, t: bv32)
    requires Mask(t) && t & 15 == 15
    ensures Mask(t >> 4) && Low(x, t) == 16 * Low(x >> 4, t >> 4) + Nibble(x)
  {
    FourHalves(x);
    FourHalves(t);
    FourMasks(t);
    hide Mask, Half, Low, Bit;
    LowStep(x, t);
    LowStep(x >> 1, t >> 1);
    LowStep(x >> 2, t >> 2);
    LowStep(x >> 3, t >> 3);
  }

  function Octet(x: bv32): nat {
    Nibble(x) + 0x10 * Nibble(x >> 4)
  }

  lemma Fours(x: bv32)
    ensures (x >> 4) >> 4 == x >> 8
  {
  }

  lemma OctetMask(t: bv32)
    requires Mask(t) && t & 0xff == 0xff
    ensures Mask(t >> 4) && Mask(t >> 8) && t & 15 == 15 && (t >> 4) & 15 == 15
  {
  }

  lemma {:induction false} LowOctet(x: bv32, t: bv32)
    requires Mask(t) && t & 0xff == 0xff
    ensures Mask(t >> 8) && Low(x, t) == 0x100 * Low(x >> 8, t >> 8) + Octet(x)
  {
    Fours(x);
    Fours(t);
    OctetMask(t);
    hide Mask, Low, Nibble;
    LowFour(x, t);
    LowFour(x >> 4, t >> 4);
  }

  const SIZE: nat := 0x1_0000_0000

  lemma ValOnes()
    ensures Val(ONES) == SIZE - 1
  {
    hide Low;
    LowOctet(ONES, ONES);
    LowOctet(0xff_ffff, 0xff_ffff);
    LowOctet(0xffff, 0xffff);
    LowOctet(0xff, 0xff);
    LowNone(0);
  }

  lemma ValGolden()
    ensures Val(0x9e37_79b9) == 0x9e37_79b9
  {
    hide Low;
    LowOctet(0x9e37_79b9, ONES);
    LowOctet(0x9e_3779, 0xff_ffff);
    LowOctet(0x9e37, 0xffff);
    LowOctet(0x9e, 0xff);
    LowNone(0);
  }

  lemma ValSize(x: bv32)
    ensures Val(x) < SIZE
  {
    hide Low;
    LowMost(x, ONES);
    ValOnes();
  }

  // ----- addition and subtraction

  function Prev(x: bv32): bv32 {
    x - 1
  }

  lemma NextIs(x: bv32)
    ensures Next(x) == x + 1
  {
  }

  lemma NextPrev(x: bv32)
    ensures Next(Prev(x)) == x && (x != 0 ==> Prev(x) != ONES)
  {
  }

  lemma OneMore(x: bv32, y: bv32, u: bv32)
    requires u == y + 1
    ensures Plus(x, u) == Plus(x, y) + 1
  {
  }

  lemma PlusNext(x: bv32, y: bv32)
    ensures Plus(x, Next(y)) == Next(Plus(x, y))
  {
    NextIs(y);
    NextIs(Plus(x, y));
    hide Plus, Next;
    OneMore(x, y, Next(y));
  }

  lemma PlusNone(x: bv32)
    ensures Plus(x, 0) == x
  {
  }

  lemma ValCounts(x: bv32)
    ensures Val(Next(x)) == (Val(x) + 1) % SIZE
  {
    hide Val, Next;
    ValNext(x);
    ValOnes();
    ValNext(x);
    ValSize(x);
    ValSize(Next(x));
  }

  lemma PlusStep(x: bv32, y: bv32)
    requires y != 0
    ensures Val(y) == Val(Prev(y)) + 1 && Val(Plus(x, y)) == (Val(Plus(x, Prev(y))) + 1) % SIZE
  {
    NextPrev(y);
    PlusNext(x, Prev(y));
    hide Val, Next, Prev, Plus;
    ValNext(Prev(y));
    ValCounts(Plus(x, Prev(y)));
  }

  /** Adding counts on from the first word, and starts again after the last one. */
  lemma {:induction false} ValPlus(x: bv32, y: bv32)
    ensures Val(Plus(x, y)) == (Val(x) + Val(y)) % SIZE
    decreases Val(y)
  {
    hide Val, Prev, Plus;
    if y == 0 {
      ValSize(x);
      PlusNone(x);
      ValZero();
    } else {
      PlusStep(x, y);
      ValPlus(x, Prev(y));
      OneLater(Val(x) + Val(Prev(y)));
    }
  }

  lemma OneLater(d: nat)
    ensures (d % SIZE + 1) % SIZE == (d + 1) % SIZE
  {
  }

  lemma PlusMinus(x: bv32, y: bv32)
    ensures Plus(Minus(x, y), y) == x
  {
    Difference(x, y);
    hide Plus;
  }

  lemma Difference(x: bv32, y: bv32)
    ensures Plus(x - y, y) == x
  {
  }

  lemma ValMinus(x: bv32, y: bv32)
    ensures Val(Minus(x, y)) == (Val(x) - Val(y)) % SIZE
  {
    PlusMinus(x, y);
    hide Val, Minus, Plus;
    ValPlus(Minus(x, y), y);
    ValSize(Minus(x, y));
    ValSize(x);
    ValSize(y);
  }

  // ----- shifts

  /** The word has not got the highest bit of the mask. */
  predicate Below(x: bv32, t: bv32) {
    x & t == x & Half(t)
  }

  lemma HalfBelow(x: bv32, t: bv32)
    requires Mask(t) && Below(x, t)
    ensures Below(Half(x), Half(t)) && (t != 0 && Half(t) == 0 ==> Bit(x) == 0)
  {
  }

  /** Without its highest bit a mask hides nothing of a word that has not got it. */
  lemma {:induction false} LowBelow(x: bv32, t: bv32)
    requires Mask(t) && Below(x, t)
    ensures Mask(Half(t)) && Low(x, t) == Low(x, Half(t))
    decreases t
  {
    HalfMask(t);
    HalfMask(Half(t));
    HalfBelow(x, t);
    hide Mask, Bit, Half, Low, Below;
    if t != 0 {
      LowStep(x, t);
      if Half(t) != 0 {
        LowStep(x, Half(t));
        LowBelow(Half(x), Half(t));
      } else {
        LowNone(x);
        LowNone(Half(x));
      }
    }
  }

  lemma TopBelow(x: bv32)
    ensures Mask(ONES) && Below(Half(x), ONES)
  {
  }

  lemma ValHalf(x: bv32)
    ensures Val(Half(x)) == Val(x) / 2
  {
    TopBelow(x);
    hide Low, Half, Bit, Mask, Below;
    LowStep(x, ONES);
    LowBelow(Half(x), ONES);
  }

  lemma ValRight1(x: bv32)
    ensures Val(x >> 1) == Val(x) / 2
  {
    hide Val;
    ValHalf(x);
  }

  lemma RightStep2(x: bv32)
    ensures (x >> 1) >> 1 == x >> 2
  {
  }

  lemma ValRight2(x: bv32)
    ensures Val(x >> 2) == Val(x) / 4
  {
    RightStep2(x);
    hide Val;
    ValRight1(x);
    ValRight1(x >> 1);
  }

  lemma RightStep3(x: bv32)
    ensures (x >> 2) >> 1 == x >> 3
  {
  }

  lemma ValRight3(x: bv32)
    ensures Val(x >> 3) == Val(x) / 8
  {
    RightStep3(x);
    hide Val;
    ValRight2(x);
    ValRight1(x >> 2);
  }

  lemma RightStep5(x: bv32)
    ensures (x >> 3) >> 2 == x >> 5
  {
  }

  lemma ValRight5(x: bv32)
    ensures Val(x >> 5) == Val(x) / 32
  {
    RightStep5(x);
    hide Val;
    ValRight3(x);
    ValRight2(x >> 3);
  }

  lemma RightStep6(x: bv32)
    ensures (x >> 3) >> 3 == x >> 6
  {
  }

  lemma ValRight6(x: bv32)
    ensures Val(x >> 6) == Val(x) / 64
  {
    RightStep6(x);
    hide Val;
    ValRight3(x);
    ValRight3(x >> 3);
  }

  lemma RightStep8(x: bv32)
    ensures (x >> 5) >> 3 == x >> 8
  {
  }

  lemma ValRight8(x: bv32)
    ensures Val(x >> 8) == Val(x) / 256
  {
    RightStep8(x);
    hide Val;
    ValRight5(x);
    ValRight3(x >> 5);
  }

  lemma RightStep12(x: bv32)
    ensures (x >> 6) >> 6 == x >> 12
  {
  }

  lemma ValRight12(x: bv32)
    ensures Val(x >> 12) == Val(x) / 4096
  {
    RightStep12(x);
    hide Val;
    ValRight6(x);
    ValRight6(x >> 6);
  }

  lemma RightStep13(x: bv32)
    ensures (x >> 12) >> 1 == x >> 13
  {
  }

  lemma ValRight13(x: bv32)
    ensures Val(x >> 13) == Val(x) / 8192
  {
    RightStep13(x);
    hide Val;
    ValRight12(x);
    ValRight1(x >> 12);
  }

  lemma RightStep15(x: bv32)
    ensures (x >> 12) >> 3 == x >> 15
  {
  }

  lemma ValRight15(x: bv32)
    ensures Val(x >> 15) == Val(x) / 32768
  {
    RightStep15(x);
    hide Val;
    ValRight12(x);
    ValRight3(x >> 12);
  }

  lemma ValLeft1(x: bv32)
    ensures Val(x << 1) == 2 * Val(x) % SIZE
  {
    PlusSelf(x);
    hide Val, Plus;
    ValPlus(x, x);
  }

  lemma Scaled(v: nat, i: nat, j: nat)
    ensures j * (i * v % SIZE) % SIZE == (i * j) * v % SIZE
  {
    var d, r := i * v / SIZE, i * v % SIZE;
    assert j * (r + SIZE * d) == j * r + SIZE * (j * d);
    assert (i * j) * v == j * (i * v);
    Cycles(j * r, j * d);
  }

  lemma Cycles(a: nat, d: nat)
    ensures (a + SIZE * d) % SIZE == a % SIZE
  {
  }

  lemma PlusSelf(x: bv32)
    ensures Plus(x, x) == x << 1
  {
  }

  lemma LeftStep2(x: bv32)
    ensures (x << 1) << 1 == x << 2
  {
  }

  lemma ValLeft2(x: bv32)
    ensures Val(x << 2) == 4 * Val(x) % SIZE
  {
    LeftStep2(x);
    Scaled(Val(x), 2, 2);
    hide Val;
    ValLeft1(x);
    ValLeft1(x << 1);
  }

  lemma LeftStep4(x: bv32)
    ensures (x << 2) << 2 == x << 4
  {
  }

  lemma ValLeft4(x: bv32)
    ensures Val(x << 4) == 16 * Val(x) % SIZE
  {
    LeftStep4(x);
    Scaled(Val(x), 4, 4);
    hide Val;
    ValLeft2(x);
    ValLeft2(x << 2);
  }

  lemma LeftStep8(x: bv32)
    ensures (x << 4) << 4 == x << 8
  {
  }

  lemma ValLeft8(x: bv32)
    ensures Val(x << 8) == 256 * Val(x) % SIZE
  {
    LeftStep8(x);
    Scaled(Val(x), 16, 16);
    hide Val;
    ValLeft4(x);
    ValLeft4(x << 4);
  }

  lemma LeftStep10(x: bv32)
    ensures (x << 8) << 2 == x << 10
  {
  }

  lemma ValLeft10(x: bv32)
    ensures Val(x << 10) == 1024 * Val(x) % SIZE
  {
    LeftStep10(x);
    Scaled(Val(x), 256, 4);
    hide Val;
    ValLeft8(x);
    ValLeft2(x << 8);
  }

  lemma LeftStep16(x: bv32)
    ensures (x << 8) << 8 == x << 16
  {
  }

  lemma ValLeft16(x: bv32)
    ensures Val(x << 16) == 65536 * Val(x) % SIZE
  {
    LeftStep16(x);
    Scaled(Val(x), 256, 256);
    hide Val;
    ValLeft8(x);
    ValLeft8(x << 8);
  }

  lemma LeftStep24(x: bv32)
    ensures (x << 16) << 8 == x << 24
  {
  }

  lemma ValLeft24(x: bv32)
    ensures Val(x << 24) == 16777216 * Val(x) % SIZE
  {
    LeftStep24(x);
    Scaled(Val(x), 65536, 256);
    hide Val;
    ValLeft16(x);
    ValLeft8(x << 16);
  }
}
