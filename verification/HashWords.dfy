/** The hash of lookup2.c on machine words of 32 bits, with the operators of the
    source, and that it is the hash of JenkinsHash at that width. */
module HashWords {
  import opened JenkinsHash
  import opened Powers
  import opened WordBits

  // ----- the operators

  lemma EitherBits(x: bv32, y: bv32)
    ensures Bit(Either(x, y)) == if Bit(x) == Bit(y) then 0 else 1
    ensures Half(Either(x, y)) == Either(Half(x), Half(y))
  {
  }

  lemma EitherStep(x: bv32, y: bv32, t: bv32)
    requires Mask(t) && t != 0
    ensures Mask(Half(t))
    ensures Low(Either(x, y), t) == 2 * Low(Either(Half(x), Half(y)), Half(t)) + if Bit(x) == Bit(y) then 0 else 1
  {
    EitherBits(x, y);
    hide Mask, Bit, Half, Low, Either;
    LowStep(Either(x, y), t);
  }

  lemma XorStep(x: bv32, y: bv32, t: bv32)
    requires Mask(t) && t != 0 && Mask(Half(t))
    requires Low(Either(Half(x), Half(y)), Half(t)) == Xor(Low(Half(x), Half(t)), Low(Half(y), Half(t)))
    ensures Low(Either(x, y), t) == Xor(Low(x, t), Low(y, t))
  {
    hide Mask, Bit, Half, Low, Xor, Either;
    EitherStep(x, y, t);
    LowStep(x, t);
    LowStep(y, t);
    XorParts(Low(Half(x), Half(t)), Bit(x), Low(Half(y), Half(t)), Bit(y));
  }

  lemma {:induction false} LowXor(x: bv32, y: bv32, t: bv32)
    requires Mask(t)
    ensures Low(Either(x, y), t) == Xor(Low(x, t), Low(y, t))
    decreases t
  {
    HalfMask(t);
    hide Mask, Bit, Half, Low, Xor, Either;
    if t != 0 {
      LowXor(Half(x), Half(y), Half(t));
      XorStep(x, y, t);
    } else {
      LowNone(x);
      LowNone(y);
      LowNone(Either(x, y));
      XorNone();
    }
  }

  lemma XorParts(h: nat, b: nat, h': nat, b': nat)
    requires b < 2 && b' < 2
    ensures Xor(2 * h + b, 2 * h' + b') == 2 * Xor(h, h') + if b == b' then 0 else 1
  {
  }

  lemma XorNone()
    ensures Xor(0, 0) == 0
  {
  }

  lemma {:induction false} ShrBounds(x: nat, k: nat, m: nat)
    requires x < m
    ensures Shr(x, k, m) * Pow2(k) <= x < Shr(x, k, m) * Pow2(k) + Pow2(k)
    decreases k
  {
    if k > 0 {
      ShrBounds(x / 2, k - 1, m);
      Doubles(Shr(x, k, m), Pow2(k - 1));
    }
  }

  lemma Doubles(s: nat, p: nat)
    ensures s * (2 * p) == 2 * (s * p)
  {
  }

  lemma Distances()
    ensures Pow2(3) == 8 && Pow2(5) == 32 && Pow2(8) == 256 && Pow2(10) == 1024
    ensures Pow2(12) == 4096 && Pow2(13) == 8192 && Pow2(15) == 32768 && Pow2(16) == 65536
  {
    assert Pow2(2) == 4 && Pow2(3) == 8 && Pow2(4) == 16;
    assert Pow2(5) == 32 && Pow2(6) == 64 && Pow2(7) == 128;
    Pow2Byte(0);
    Pow2Byte(2);
    Pow2Byte(4);
    Pow2Byte(5);
    Pow2Byte(7);
    Pow2Byte(8);
  }

  function Right3(x: bv32): bv32 {
    x >> 3
  }

  lemma Shr3(x: bv32)
    ensures Val(x) < Pow2(32) && Val(Right3(x)) == Shr(Val(x), 3, Pow2(32))
  {
    Distances();
    Pow2Of32();
    ValSize(x);
    hide Val, Pow2, Shr;
    ValRight3(x);
    ShrBounds(Val(x), 3, Pow2(32));
  }

  function Right5(x: bv32): bv32 {
    x >> 5
  }

  lemma Shr5(x: bv32)
    ensures Val(x) < Pow2(32) && Val(Right5(x)) == Shr(Val(x), 5, Pow2(32))
  {
    Distances();
    Pow2Of32();
    ValSize(x);
    hide Val, Pow2, Shr;
    ValRight5(x);
    ShrBounds(Val(x), 5, Pow2(32));
  }

  function Right12(x: bv32): bv32 {
    x >> 12
  }

  lemma Shr12(x: bv32)
    ensures Val(x) < Pow2(32) && Val(Right12(x)) == Shr(Val(x), 12, Pow2(32))
  {
    Distances();
    Pow2Of32();
    ValSize(x);
    hide Val, Pow2, Shr;
    ValRight12(x);
    ShrBounds(Val(x), 12, Pow2(32));
  }

  function Right13(x: bv32): bv32 {
    x >> 13
  }

  lemma Shr13(x: bv32)
    ensures Val(x) < Pow2(32) && Val(Right13(x)) == Shr(Val(x), 13, Pow2(32))
  {
    Distances();
    Pow2Of32();
    ValSize(x);
    hide Val, Pow2, Shr;
    ValRight13(x);
    ShrBounds(Val(x), 13, Pow2(32));
  }

  function Right15(x: bv32): bv32 {
    x >> 15
  }

  lemma Shr15(x: bv32)
    ensures Val(x) < Pow2(32) && Val(Right15(x)) == Shr(Val(x), 15, Pow2(32))
  {
    Distances();
    Pow2Of32();
    ValSize(x);
    hide Val, Pow2, Shr;
    ValRight15(x);
    ShrBounds(Val(x), 15, Pow2(32));
  }

  function Left8(x: bv32): bv32 {
    x << 8
  }

  lemma Shl8(x: bv32)
    ensures Val(Left8(x)) == Shl(Val(x), 8, Pow2(32))
  {
    Distances();
    Pow2Of32();
    hide Val, Pow2;
    ValLeft8(x);
  }

  function Left10(x: bv32): bv32 {
    x << 10
  }

  lemma Shl10(x: bv32)
    ensures Val(Left10(x)) == Shl(Val(x), 10, Pow2(32))
  {
    Distances();
    Pow2Of32();
    hide Val, Pow2;
    ValLeft10(x);
  }

  function Left16(x: bv32): bv32 {
    x << 16
  }

  lemma Shl16(x: bv32)
    ensures Val(Left16(x)) == Shl(Val(x), 16, Pow2(32))
  {
    Distances();
    Pow2Of32();
    hide Val, Pow2;
    ValLeft16(x);
  }

  // ----- mix

  datatype Words = Words(a: bv32, b: bv32, c: bv32)

  function StateOf(s: Words): State {
    State(Val(s.a), Val(s.b), Val(s.c))
  }

  /** `x -= y; x -= z; x ^= w` */
  function Line(x: bv32, y: bv32, z: bv32, w: bv32): bv32 {
    Either(Minus(Minus(x, y), z), w)
  }

  lemma SubWraps(x: nat, y: nat)
    requires x < SIZE && y < SIZE
    ensures Sub(x, y, SIZE) == (x - y) % SIZE
  {
  }

  lemma ValXor(x: bv32, y: bv32)
    ensures Val(Either(x, y)) == Xor(Val(x), Val(y))
  {
    hide Low, Xor, Either;
    LowXor(x, y, ONES);
  }

  lemma LineTurns(x: bv32, y: bv32, z: bv32, w: bv32)
    ensures Val(x) < Pow2(32) && Val(y) < Pow2(32) && Val(z) < Pow2(32) && Val(w) < Pow2(32)
    ensures Val(Line(x, y, z, w)) == Turn(Val(x), Val(y), Val(z), Val(w), 32)
  {
    Pow2Of32();
    ValSize(x);
    ValSize(y);
    ValSize(z);
    ValSize(w);
    hide Val, Pow2, Minus, Either, Sub, Xor;
    ValSize(Minus(x, y));
    ValMinus(x, y);
    ValMinus(Minus(x, y), z);
    SubWraps(Val(x), Val(y));
    SubWraps(Val(Minus(x, y)), Val(z));
    ValXor(Minus(Minus(x, y), z), w);
  }

  // The nine lines of mix as lookup2.c has them.

  function Lines1(s: Words): Words {
    var a := Line(s.a, s.b, s.c, Right13(s.c));
    var b := Line(s.b, s.c, a, Left8(a));
    var c := Line(s.c, a, b, Right13(b));
    Words(a, b, c)
  }

  function Lines2(s: Words): Words {
    var a := Line(s.a, s.b, s.c, Right12(s.c));
    var b := Line(s.b, s.c, a, Left16(a));
    var c := Line(s.c, a, b, Right5(b));
    Words(a, b, c)
  }

  function Lines3(s: Words): Words {
    var a := Line(s.a, s.b, s.c, Right3(s.c));
    var b := Line(s.b, s.c, a, Left10(a));
    var c := Line(s.c, a, b, Right15(b));
    Words(a, b, c)
  }

  function MixWords(s: Words): Words {
    Lines3(Lines2(Lines1(s)))
  }

  lemma StateFits(s: Words)
    ensures Fits(StateOf(s), Pow2(32))
  {
    Pow2Of32();
    ValSize(s.a);
    ValSize(s.b);
    ValSize(s.c);
  }

  /** Three lines are a round when `u`, `v` and `w` are shifted as the round has it. */
  lemma LinesRound(s: Words, r: Words, u: bv32, v: bv32, w: bv32, i: nat, j: nat, k: nat)
    requires Fits(StateOf(s), Pow2(32)) && Fits(StateOf(r), Pow2(32))
    requires r.a == Line(s.a, s.b, s.c, u) && r.b == Line(s.b, s.c, r.a, v) && r.c == Line(s.c, r.a, r.b, w)
    requires Val(u) == Shr(Val(s.c), i, Pow2(32)) && Val(v) == Shl(Val(r.a), j, Pow2(32))
    requires Val(w) == Shr(Val(r.b), k, Pow2(32))
    ensures StateOf(r) == Round(StateOf(s), i, j, k, 32)
  {
    hide Val, Line, Turn, Shl, Shr, Pow2;
    LineTurns(s.a, s.b, s.c, u);
    LineTurns(s.b, s.c, r.a, v);
    LineTurns(s.c, r.a, r.b, w);
  }

  lemma Round1(s: Words)
    ensures Fits(StateOf(s), Pow2(32)) && StateOf(Lines1(s)) == Round(StateOf(s), 13, 8, 13, 32)
  {
    StateFits(s);
    StateFits(Lines1(s));
    var r := Lines1(s);
    hide Val, Line, Shl, Shr, Pow2, Round, Right13, Left8;
    Shr13(s.c);
    Shl8(r.a);
    Shr13(r.b);
    LinesRound(s, r, Right13(s.c), Left8(r.a), Right13(r.b), 13, 8, 13);
  }

  lemma Round2(s: Words)
    ensures Fits(StateOf(s), Pow2(32)) && StateOf(Lines2(s)) == Round(StateOf(s), 12, 16, 5, 32)
  {
    StateFits(s);
    StateFits(Lines2(s));
    var r := Lines2(s);
    hide Val, Line, Shl, Shr, Pow2, Round, Right12, Left16, Right5;
    Shr12(s.c);
    Shl16(r.a);
    Shr5(r.b);
    LinesRound(s, r, Right12(s.c), Left16(r.a), Right5(r.b), 12, 16, 5);
  }

  lemma Round3(s: Words)
    ensures Fits(StateOf(s), Pow2(32)) && StateOf(Lines3(s)) == Round(StateOf(s), 3, 10, 15, 32)
  {
    StateFits(s);
    StateFits(Lines3(s));
    var r := Lines3(s);
    hide Val, Line, Shl, Shr, Pow2, Round, Right3, Left10, Right15;
    Shr3(s.c);
    Shl10(r.a);
    Shr15(r.b);
    LinesRound(s, r, Right3(s.c), Left10(r.a), Right15(r.b), 3, 10, 15);
  }

  /** mix on machine words is mix at width 32. */
  lemma MixAgrees(s: Words)
    ensures Fits(StateOf(s), Pow2(32)) && StateOf(MixWords(s)) == Mix(StateOf(s), 32)
  {
    hide StateOf, Lines1, Lines2, Lines3, Round, Pow2;
    Round1(s);
    Round2(Lines1(s));
    Round3(Lines2(Lines1(s)));
  }

  // ----- a key of bytes

  predicate Small(x: bv32) {
    x <= 0xff
  }

  lemma SmallVal(x: bv32)
    requires Small(x)
    ensures Val(x) < 256
  {
    SmallShift(x);
    hide Val, Small;
    ValRight8(x);
    ValZero();
  }

  lemma SmallShift(x: bv32)
    requires Small(x)
    ensures x >> 8 == 0
  {
  }

  function Left24(x: bv32): bv32 {
    x << 24
  }

  lemma SmallLeft(x: bv32)
    requires Small(x)
    ensures Val(x) < 256 && Val(Left8(x)) == 256 * Val(x)
    ensures Val(Left16(x)) == 65536 * Val(x) && Val(Left24(x)) == 16777216 * Val(x)
  {
    hide Val, Small;
    SmallVal(x);
    ValLeft8(x);
    ValLeft16(x);
    ValLeft24(x);
  }

  /** Four bytes as one word, `p + (q << 8) + (r << 16) + (s << 24)`. */
  function Packed(p: bv32, q: bv32, r: bv32, s: bv32): bv32 {
    Plus(Plus(Plus(p, Left8(q)), Left16(r)), Left24(s))
  }

  lemma ValSum(x: bv32, y: bv32)
    requires Val(x) + Val(y) < SIZE
    ensures Val(Plus(x, y)) == Val(x) + Val(y)
  {
    hide Val, Plus;
    ValPlus(x, y);
  }

  lemma ValPair(p: bv32, q: bv32)
    requires Small(p) && Small(q)
    ensures Val(p) < 256 && Val(q) < 256 && Val(Plus(p, Left8(q))) == Val(p) + 256 * Val(q)
  {
    hide Val, Small, Plus, Left8, Left16, Left24;
    SmallVal(p);
    SmallLeft(q);
    ValSum(p, Left8(q));
  }

  lemma ValTriple(p: bv32, q: bv32, r: bv32)
    requires Small(p) && Small(q) && Small(r)
    ensures Val(p) < 256 && Val(q) < 256 && Val(r) < 256
    ensures Val(Plus(Plus(p, Left8(q)), Left16(r))) == Val(p) + 256 * Val(q) + 65536 * Val(r)
  {
    hide Val, Small, Plus, Left8, Left16, Left24;
    ValPair(p, q);
    SmallLeft(r);
    ValSum(Plus(p, Left8(q)), Left16(r));
  }

  lemma ValPacked(p: bv32, q: bv32, r: bv32, s: bv32)
    requires Small(p) && Small(q) && Small(r) && Small(s)
    ensures Val(p) < 256 && Val(q) < 256 && Val(r) < 256 && Val(s) < 256
    ensures Val(Packed(p, q, r, s)) == Word(Val(p), Val(q), Val(r), Val(s))
  {
    hide Val, Small, Plus, Left8, Left16, Left24;
    ValTriple(p, q, r);
    SmallLeft(s);
    ValSum(Plus(Plus(p, Left8(q)), Left16(r)), Left24(s));
  }

  lemma AddWraps(x: nat, y: nat)
    requires x < SIZE && y < SIZE
    ensures Add(x, y, SIZE) == (x + y) % SIZE
  {
  }

  lemma ValAdd(x: bv32, y: bv32)
    ensures Val(x) < Pow2(32) && Val(y) < Pow2(32) && Val(Plus(x, y)) == Add(Val(x), Val(y), Pow2(32))
  {
    Pow2Of32();
    hide Val, Plus, Add, Pow2;
    ValSize(x);
    ValSize(y);
    AddWraps(Val(x), Val(y));
    ValPlus(x, y);
  }

  ghost predicate Bytes(k: seq<bv32>) {
    forall i :: 0 <= i < |k| ==> Small(k[i])
  }

  function Number(x: bv32): Byte
    requires Small(x)
  {
    SmallVal(x);
    Val(x)
  }

  /** The key as numbers. */
  function Numbers(k: seq<bv32>): (r: seq<Byte>)
    requires Bytes(k)
    ensures |r| == |k|
  {
    if k == [] then [] else [Number(k[0])] + Numbers(k[1..])
  }

  lemma {:induction false} NumbersAt(k: seq<bv32>, i: nat)
    requires Bytes(k) && i < |k|
    ensures Numbers(k)[i] == Number(k[i])
  {
    hide Number, Small;
    if i > 0 {
      NumbersAt(k[1..], i - 1);
    }
  }

  lemma {:induction false} NumbersDrop(k: seq<bv32>, i: nat)
    requires Bytes(k) && i <= |k|
    ensures Numbers(k[i..]) == Numbers(k)[i..]
  {
    hide Number, Small;
    if i > 0 {
      NumbersDrop(k[1..], i - 1);
      assert k[1..][i - 1..] == k[i..];
    } else {
      assert k[i..] == k;
    }
  }

  function AddBlockWords(s: Words, k: seq<bv32>): Words
    requires |k| >= 12
  {
    Words(Plus(s.a, Packed(k[0], k[1], k[2], k[3])),
          Plus(s.b, Packed(k[4], k[5], k[6], k[7])),
          Plus(s.c, Packed(k[8], k[9], k[10], k[11])))
  }

  lemma PackedAdds(x: bv32, p: bv32, q: bv32, r: bv32, s: bv32)
    requires Small(p) && Small(q) && Small(r) && Small(s)
    ensures Val(x) < Pow2(32) && WORD <= Pow2(32)
    ensures Val(Plus(x, Packed(p, q, r, s))) == Add(Val(x), Word(Number(p), Number(q), Number(r), Number(s)), Pow2(32))
  {
    Pow2Of32();
    hide Val, Packed, Plus, Add, Pow2, Word, Small;
    ValPacked(p, q, r, s);
    ValAdd(x, Packed(p, q, r, s));
  }

  lemma BlockAgrees(s: Words, k: seq<bv32>)
    requires |k| >= 12 && Bytes(k)
    ensures Fits(StateOf(s), Pow2(32)) && StateOf(AddBlockWords(s, k)) == AddBlock(StateOf(s), Numbers(k), 32)
  {
    StateFits(s);
    hide Val, Packed, Plus, Add, Pow2, Word, Small, Number, Numbers;
    forall i: nat | i < 12
      ensures Numbers(k)[i] == Number(k[i])
    {
      NumbersAt(k, i);
    }
    PackedAdds(s.a, k[0], k[1], k[2], k[3]);
    PackedAdds(s.b, k[4], k[5], k[6], k[7]);
    PackedAdds(s.c, k[8], k[9], k[10], k[11]);
  }

  // ----- the last bytes

  /** The byte at `i`, or nothing to add when the key has ended. */
  function At(k: seq<bv32>, i: nat): bv32 {
    if i < |k| then k[i] else 0
  }

  lemma AtSmall(k: seq<bv32>, i: nat)
    requires Bytes(k)
    ensures Small(At(k, i)) && Number(At(k, i)) == Byte0(Numbers(k), i)
  {
    hide Val, Numbers;
    ValZero();
    if i < |k| {
      NumbersAt(k, i);
    }
  }

  /** The bytes of one word added one after another, the highest one first. */
  function AddDown(x: bv32, p: bv32, q: bv32, r: bv32, s: bv32): bv32 {
    Plus(Plus(Plus(Plus(x, Left24(s)), Left16(r)), Left8(q)), p)
  }

  lemma AddsMore(x: nat, d: nat, y: bv32, z: bv32)
    requires x < Pow2(32) && d + Val(z) < Pow2(32) && Val(y) == Add(x, d, Pow2(32))
    ensures Val(Plus(y, z)) == Add(x, d + Val(z), Pow2(32))
  {
    hide Val, Plus, Add, Pow2;
    ValAdd(y, z);
    AddSum(x, d, Val(z), Pow2(32));
  }

  lemma HighAdds(x: bv32, r: bv32, s: bv32)
    requires Small(r) && Small(s)
    ensures Val(x) < Pow2(32) && WORD <= Pow2(32) && Val(r) < 256 && Val(s) < 256
    ensures
      Val(Plus(Plus(x, Left24(s)), Left16(r))) == Add(Val(x), 16777216 * Val(s) + 65536 * Val(r), Pow2(32))
  {
    Pow2Of32();
    hide Val, Small, Plus, Left8, Left16, Left24, Add, Pow2;
    SmallLeft(r);
    SmallLeft(s);
    ValAdd(x, Left24(s));
    AddsMore(Val(x), Val(Left24(s)), Plus(x, Left24(s)), Left16(r));
  }

  lemma LowAdds(x: nat, d: nat, y: bv32, p: bv32, q: bv32)
    requires Small(p) && Small(q)
    requires x < Pow2(32) && d + 65535 < Pow2(32) && Val(y) == Add(x, d, Pow2(32))
    ensures Val(p) < 256 && Val(q) < 256
    ensures Val(Plus(Plus(y, Left8(q)), p)) == Add(x, d + 256 * Val(q) + Val(p), Pow2(32))
  {
    hide Val, Small, Plus, Left8, Left16, Left24, Add, Pow2;
    SmallVal(p);
    SmallLeft(q);
    AddsMore(x, d, y, Left8(q));
    AddsMore(x, d + 256 * Val(q), Plus(y, Left8(q)), p);
  }

  lemma DownAdds(x: bv32, p: bv32, q: bv32, r: bv32, s: bv32)
    requires Small(p) && Small(q) && Small(r) && Small(s)
    ensures Val(x) < Pow2(32) && WORD <= Pow2(32)
    ensures Val(AddDown(x, p, q, r, s)) == Add(Val(x), Word(Number(p), Number(q), Number(r), Number(s)), Pow2(32))
  {
    Pow2Of32();
    hide Val, Small, Plus, Left8, Left16, Left24, Add, Pow2;
    HighAdds(x, r, s);
    LowAdds(Val(x), 16777216 * Val(s) + 65536 * Val(r), Plus(Plus(x, Left24(s)), Left16(r)), p, q);
  }

  function AddTailWords(s: Words, k: seq<bv32>, length: bv32): Words {
    Words(AddDown(s.a, At(k, 0), At(k, 1), At(k, 2), At(k, 3)),
          AddDown(s.b, At(k, 4), At(k, 5), At(k, 6), At(k, 7)),
          AddDown(Plus(s.c, length), 0, At(k, 8), At(k, 9), At(k, 10)))
  }

  lemma AtAdds(x: bv32, k: seq<bv32>, i: nat)
    requires Bytes(k)
    ensures Val(x) < Pow2(32) && WORD <= Pow2(32)
    ensures
      var n := Numbers(k);
      Val(AddDown(x, At(k, i), At(k, i + 1), At(k, i + 2), At(k, i + 3))) ==
      Add(Val(x), Word(Byte0(n, i), Byte0(n, i + 1), Byte0(n, i + 2), Byte0(n, i + 3)), Pow2(32))
  {
    hide Val, Small, At, AddDown, Add, Pow2, Word, Number, Numbers, Byte0;
    AtSmall(k, i);
    AtSmall(k, i + 1);
    AtSmall(k, i + 2);
    AtSmall(k, i + 3);
    DownAdds(x, At(k, i), At(k, i + 1), At(k, i + 2), At(k, i + 3));
  }

  lemma LastAdds(x: bv32, k: seq<bv32>)
    requires Bytes(k)
    ensures Val(x) < Pow2(32) && WORD <= Pow2(32)
    ensures
      var n := Numbers(k);
      Val(AddDown(x, 0, At(k, 8), At(k, 9), At(k, 10))) ==
      Add(Val(x), Word(0, Byte0(n, 8), Byte0(n, 9), Byte0(n, 10)), Pow2(32))
  {
    ZeroSmall();
    hide Val, Small, At, AddDown, Add, Pow2, Word, Number, Numbers, Byte0;
    AtSmall(k, 8);
    AtSmall(k, 9);
    AtSmall(k, 10);
    DownAdds(x, 0, At(k, 8), At(k, 9), At(k, 10));
  }

  lemma ZeroSmall()
    ensures Small(0) && Number(0) == 0
  {
    hide Val;
    ValZero();
  }

  lemma TailAgrees(s: Words, k: seq<bv32>, length: bv32)
    requires |k| < 12 && Bytes(k)
    ensures Fits(StateOf(s), Pow2(32)) && Val(length) < Pow2(32)
    ensures StateOf(AddTailWords(s, k, length)) == AddTail(StateOf(s), Numbers(k), Val(length), 32)
  {
    StateFits(s);
    hide Val, Plus, At, AddDown, Add, Pow2, Word, Number, Numbers, Byte0, Bytes;
    ValAdd(s.c, length);
    AtAdds(s.a, k, 0);
    AtAdds(s.b, k, 4);
    LastAdds(Plus(s.c, length), k);
  }

  // ----- the whole hash

  function AbsorbWords(s: Words, k: seq<bv32>, length: bv32): Words
    decreases |k|
  {
    if |k| >= 12 then AbsorbWords(MixWords(AddBlockWords(s, k)), k[12..], length)
    else MixWords(AddTailWords(s, k, length))
  }

  lemma {:induction false} AbsorbAgrees(s: Words, k: seq<bv32>, length: bv32)
    requires Bytes(k)
    ensures Fits(StateOf(s), Pow2(32)) && Val(length) < Pow2(32)
    ensures StateOf(AbsorbWords(s, k, length)) == Absorb(StateOf(s), Numbers(k), Val(length), 32)
    decreases |k|
  {
    StateFits(s);
    hide StateOf, Val, AddBlockWords, AddTailWords, MixWords, Mix, AddBlock, AddTail, Pow2, Numbers;
    if |k| >= 12 {
      BlockAgrees(s, k);
      MixAgrees(AddBlockWords(s, k));
      AbsorbAgrees(MixWords(AddBlockWords(s, k)), k[12..], length);
      NumbersDrop(k, 12);
    } else {
      TailAgrees(s, k, length);
      MixAgrees(AddTailWords(s, k, length));
    }
  }

  /** whash on machine words: from the golden ratio twice and the given value on. */
  function WhashWords(k: seq<bv32>, length: bv32, initval: bv32): Words {
    AbsorbWords(Words(0x9e37_79b9, 0x9e37_79b9, initval), k, length)
  }

  /** On machine words whash ends in the state of JenkinsHash at width 32. */
  lemma HashAgrees(k: seq<bv32>, length: bv32, initval: bv32)
    requires Bytes(k) && Val(length) == |k|
    ensures Val(initval) < Pow2(32) && |k| < Pow2(32)
    ensures StateOf(WhashWords(k, length, initval)) == HashState(Numbers(k), Val(initval), 32)
  {
    StartAgrees(initval);
    hide StateOf, Val, AbsorbWords, Absorb, Pow2, Numbers, Start;
    AbsorbAgrees(Words(0x9e37_79b9, 0x9e37_79b9, initval), k, length);
  }

  lemma StartAgrees(initval: bv32)
    ensures Val(initval) < Pow2(32) && StateOf(Words(0x9e37_79b9, 0x9e37_79b9, initval)) == Start(Val(initval))
  {
    Pow2Of32();
    hide Val;
    ValSize(initval);
    ValGolden();
  }
}
