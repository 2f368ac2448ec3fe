/** The hash of lookup2.c. Its word type is `unsigned long`, 32 bits wide on
    some platforms and 64 on others; words are numbers below a power of two, and
    everything holds for every width from 32 on. */
module JenkinsHash {
  import opened Powers

  type Byte = x: int | 0 <= x < 256

  // ----- words of a given width

  /** Three words as mix works on them. */
  datatype State = State(a: nat, b: nat, c: nat)

  ghost predicate Fits(s: State, m: nat) {
    s.a < m && s.b < m && s.c < m
  }

  function Add(x: nat, y: nat, m: nat): (r: nat)
    requires x < m && y < m
    ensures r < m
  {
    if x + y < m then x + y else x + y - m
  }

  function Sub(x: nat, y: nat, m: nat): (r: nat)
    requires x < m && y < m
    ensures r < m
  {
    if x >= y then x - y else x - y + m
  }

  lemma AddSub(x: nat, y: nat, m: nat)
    requires x < m && y < m
    ensures Sub(Add(x, y, m), y, m) == x && Add(Sub(x, y, m), y, m) == x
  {
  }

  /** Bitwise exclusive or. */
  function Xor(x: nat, y: nat): nat
    decreases x + y
  {
    if x == 0 && y == 0 then 0 else 2 * Xor(x / 2, y / 2) + (if x % 2 == y % 2 then 0 else 1)
  }

  lemma {:induction false} XorCancels(x: nat, y: nat)
    ensures Xor(Xor(x, y), y) == x
    decreases x + y
  {
    if x != 0 || y != 0 {
      XorCancels(x / 2, y / 2);
      var z := Xor(x, y);
      assert z / 2 == Xor(x / 2, y / 2) && z % 2 == if x % 2 == y % 2 then 0 else 1;
    }
  }

  lemma {:induction false} XorFits(x: nat, y: nat, n: nat)
    requires x < Pow2(n) && y < Pow2(n)
    ensures Xor(x, y) < Pow2(n)
    decreases n
  {
    if n > 0 && (x != 0 || y != 0) {
      XorFits(x / 2, y / 2, n - 1);
    }
  }

  function Shl(x: nat, k: nat, m: nat): (r: nat)
    requires m > 0
    ensures r < m
  {
    x * Pow2(k) % m
  }

  function Shr(x: nat, k: nat, m: nat): (r: nat)
    requires x < m
    ensures r < m
  {
    if k == 0 then x else Shr(x / 2, k - 1, m)
  }

  // ----- mix

  /** One line of mix: `x -= y; x -= z; x ^= s`. */
  function Turn(x: nat, y: nat, z: nat, s: nat, n: nat): (r: nat)
    requires x < Pow2(n) && y < Pow2(n) && z < Pow2(n) && s < Pow2(n)
    ensures r < Pow2(n)
  {
    var m := Pow2(n);
    XorFits(Sub(Sub(x, y, m), z, m), s, n);
    Xor(Sub(Sub(x, y, m), z, m), s)
  }

  function Unturn(x: nat, y: nat, z: nat, s: nat, n: nat): (r: nat)
    requires x < Pow2(n) && y < Pow2(n) && z < Pow2(n) && s < Pow2(n)
    ensures r < Pow2(n)
  {
    var m := Pow2(n);
    XorFits(x, s, n);
    Add(Add(Xor(x, s), z, m), y, m)
  }

  lemma TurnBack(x: nat, y: nat, z: nat, s: nat, n: nat)
    requires x < Pow2(n) && y < Pow2(n) && z < Pow2(n) && s < Pow2(n)
    ensures Unturn(Turn(x, y, z, s, n), y, z, s, n) == x
    ensures Turn(Unturn(x, y, z, s, n), y, z, s, n) == x
  {
    var m := Pow2(n);
    XorCancels(Sub(Sub(x, y, m), z, m), s);
    AddSub(Sub(x, y, m), z, m);
    AddSub(x, y, m);
    XorCancels(x, s);
    XorFits(x, s, n);
    AddSub(Add(Xor(x, s), z, m), y, m);
    AddSub(Xor(x, s), z, m);
  }

  /** Three lines of mix with shift distances `i`, `j` and `k`. */
  function Round(s: State, i: nat, j: nat, k: nat, n: nat): (r: State)
    requires Fits(s, Pow2(n))
    ensures Fits(r, Pow2(n))
  {
    var m := Pow2(n);
    var a := Turn(s.a, s.b, s.c, Shr(s.c, i, m), n);
    var b := Turn(s.b, s.c, a, Shl(a, j, m), n);
    var c := Turn(s.c, a, b, Shr(b, k, m), n);
    State(a, b, c)
  }

  function Unround(s: State, i: nat, j: nat, k: nat, n: nat): (r: State)
    requires Fits(s, Pow2(n))
    ensures Fits(r, Pow2(n))
  {
    var m := Pow2(n);
    var c := Unturn(s.c, s.a, s.b, Shr(s.b, k, m), n);
    var b := Unturn(s.b, c, s.a, Shl(s.a, j, m), n);
    var a := Unturn(s.a, b, c, Shr(c, i, m), n);
    State(a, b, c)
  }

  lemma RoundBack(s: State, i: nat, j: nat, k: nat, n: nat)
    requires Fits(s, Pow2(n))
    ensures Unround(Round(s, i, j, k, n), i, j, k, n) == s
    ensures Round(Unround(s, i, j, k, n), i, j, k, n) == s
  {
    hide Turn, Unturn, Shl, Shr, Pow2;
    var m := Pow2(n);
    var r := Round(s, i, j, k, n);
    TurnBack(s.a, s.b, s.c, Shr(s.c, i, m), n);
    TurnBack(s.b, s.c, r.a, Shl(r.a, j, m), n);
    TurnBack(s.c, r.a, r.b, Shr(r.b, k, m), n);
    var u := Unround(s, i, j, k, n);
    TurnBack(s.c, s.a, s.b, Shr(s.b, k, m), n);
    TurnBack(s.b, u.c, s.a, Shl(s.a, j, m), n);
    TurnBack(s.a, u.b, u.c, Shr(u.c, i, m), n);
  }

  function Mix(s: State, n: nat): (r: State)
    requires Fits(s, Pow2(n))
    ensures Fits(r, Pow2(n))
  {
    Round(Round(Round(s, 13, 8, 13, n), 12, 16, 5, n), 3, 10, 15, n)
  }

  function Unmix(s: State, n: nat): (r: State)
    requires Fits(s, Pow2(n))
    ensures Fits(r, Pow2(n))
  {
    Unround(Unround(Unround(s, 3, 10, 15, n), 12, 16, 5, n), 13, 8, 13, n)
  }

  /** mix is reversible: a permutation of all states. */
  lemma MixReversible(s: State, n: nat)
    requires Fits(s, Pow2(n))
    ensures Unmix(Mix(s, n), n) == s && Mix(Unmix(s, n), n) == s
  {
    hide Round, Unround, Pow2;
    RoundBack(s, 13, 8, 13, n);
    var s1 := Round(s, 13, 8, 13, n);
    RoundBack(s1, 12, 16, 5, n);
    RoundBack(Round(s1, 12, 16, 5, n), 3, 10, 15, n);
    RoundBack(s, 3, 10, 15, n);
    var u1 := Unround(s, 3, 10, 15, n);
    RoundBack(u1, 12, 16, 5, n);
    RoundBack(Unround(u1, 12, 16, 5, n), 13, 8, 13, n);
  }

  // ----- absorbing a key

  const GOLDEN := 0x9e3779b9
  const WORD := 0x1_0000_0000

  /** Four bytes as one word, the first one lowest. */
  function Word(p: Byte, q: Byte, r: Byte, s: Byte): (w: nat)
    ensures w < WORD
  {
    p + 256 * q + 65536 * r + 16777216 * s
  }

  lemma {:induction false} WordFits(n: nat)
    requires n >= 32
    ensures WORD <= Pow2(n)
    decreases n
  {
    if n == 32 {
      Pow2Of32();
    } else {
      WordFits(n - 1);
    }
  }

  function Byte0(k: seq<Byte>, i: nat): Byte {
    if i < |k| then k[i] else 0
  }

  function AddBlock(s: State, k: seq<Byte>, n: nat): (r: State)
    requires n >= 32 && Fits(s, Pow2(n)) && |k| >= 12
    ensures Fits(r, Pow2(n))
  {
    WordFits(n);
    var m := Pow2(n);
    State(Add(s.a, Word(k[0], k[1], k[2], k[3]), m),
          Add(s.b, Word(k[4], k[5], k[6], k[7]), m),
          Add(s.c, Word(k[8], k[9], k[10], k[11]), m))
  }

  /** The last bytes; the lowest byte of `c` is kept for the length. */
  function AddTail(s: State, k: seq<Byte>, length: nat, n: nat): (r: State)
    requires n >= 32 && Fits(s, Pow2(n)) && |k| < 12 && length < Pow2(n)
    ensures Fits(r, Pow2(n))
  {
    WordFits(n);
    var m := Pow2(n);
    State(Add(s.a, Word(Byte0(k, 0), Byte0(k, 1), Byte0(k, 2), Byte0(k, 3)), m),
          Add(s.b, Word(Byte0(k, 4), Byte0(k, 5), Byte0(k, 6), Byte0(k, 7)), m),
          Add(Add(s.c, length, m), Word(0, Byte0(k, 8), Byte0(k, 9), Byte0(k, 10)), m))
  }

  function Absorb(s: State, k: seq<Byte>, length: nat, n: nat): (r: State)
    requires n >= 32 && Fits(s, Pow2(n)) && length < Pow2(n)
    ensures Fits(r, Pow2(n))
    decreases |k|
  {
    if |k| >= 12 then Absorb(Mix(AddBlock(s, k, n), n), k[12..], length, n)
    else Mix(AddTail(s, k, length, n), n)
  }

  function Start(initval: nat): State {
    State(GOLDEN, GOLDEN, initval)
  }

  /** The three words in the end; the hash is the last of them. */
  function HashState(k: seq<Byte>, initval: nat, n: nat): (r: State)
    requires n >= 32 && initval < Pow2(n) && |k| < Pow2(n)
    ensures Fits(r, Pow2(n))
  {
    WordFits(n);
    Absorb(Start(initval), k, |k|, n)
  }

  // ----- nothing is lost

  lemma WordApart(p: Byte, q: Byte, r: Byte, s: Byte, p': Byte, q': Byte, r': Byte, s': Byte)
    requires Word(p, q, r, s) == Word(p', q', r', s')
    ensures p == p' && q == q' && r == r' && s == s'
  {
    Digit(p, q + 256 * r + 65536 * s, p', q' + 256 * r' + 65536 * s');
    Digit(q, r + 256 * s, q', r' + 256 * s');
    Digit(r, s, r', s');
  }

  lemma Digit(x: Byte, u: nat, x': Byte, u': nat)
    requires x + 256 * u == x' + 256 * u'
    ensures x == x' && u == u'
  {
  }

  lemma MixApart(s: State, t: State, n: nat)
    requires Fits(s, Pow2(n)) && Fits(t, Pow2(n)) && s != t
    ensures Mix(s, n) != Mix(t, n)
  {
    hide Mix, Unmix;
    MixReversible(s, n);
    MixReversible(t, n);
  }

  lemma BlockStates(s: State, t: State, k: seq<Byte>, n: nat)
    requires n >= 32 && Fits(s, Pow2(n)) && Fits(t, Pow2(n)) && |k| >= 12 && s != t
    ensures AddBlock(s, k, n) != AddBlock(t, k, n)
  {
  }

  lemma TailStates(s: State, t: State, k: seq<Byte>, length: nat, n: nat)
    requires n >= 32 && Fits(s, Pow2(n)) && Fits(t, Pow2(n)) && |k| < 12 && length < Pow2(n) && s != t
    ensures AddTail(s, k, length, n) != AddTail(t, k, length, n)
  {
    WordFits(n);
    var w := Word(0, Byte0(k, 8), Byte0(k, 9), Byte0(k, 10));
    hide Word, Pow2, Byte0;
    if s.c != t.c {
      AddKeeps(s.c, t.c, length, Pow2(n));
      AddKeeps(Add(s.c, length, Pow2(n)), Add(t.c, length, Pow2(n)), w, Pow2(n));
    }
  }

  lemma AddKeeps(x: nat, x': nat, y: nat, m: nat)
    requires x < m && x' < m && y < m && x != x'
    ensures Add(x, y, m) != Add(x', y, m)
  {
  }

  /** Different states stay different under the same rest of a key. */
  lemma {:induction false} StatesApart(s: State, t: State, k: seq<Byte>, length: nat, n: nat)
    requires n >= 32 && Fits(s, Pow2(n)) && Fits(t, Pow2(n)) && length < Pow2(n) && s != t
    ensures Absorb(s, k, length, n) != Absorb(t, k, length, n)
    decreases |k|
  {
    hide Mix, AddBlock, AddTail, Pow2;
    if |k| >= 12 {
      BlockStates(s, t, k, n);
      MixApart(AddBlock(s, k, n), AddBlock(t, k, n), n);
      StatesApart(Mix(AddBlock(s, k, n), n), Mix(AddBlock(t, k, n), n), k[12..], length, n);
    } else {
      TailStates(s, t, k, length, n);
      MixApart(AddTail(s, k, length, n), AddTail(t, k, length, n), n);
    }
  }

  lemma BlockApart(s: State, k: seq<Byte>, k': seq<Byte>, i: nat, n: nat)
    requires n >= 32 && Fits(s, Pow2(n)) && |k| >= 12 && |k'| >= 12 && i < 12 && k[i] != k'[i]
    ensures AddBlock(s, k, n) != AddBlock(s, k', n)
  {
    hide AddBlock, Pow2;
    if AddBlock(s, k, n) == AddBlock(s, k', n) {
      BlockBytes(s, k, k', n);
    }
  }

  lemma BlockBytes(s: State, k: seq<Byte>, k': seq<Byte>, n: nat)
    requires n >= 32 && Fits(s, Pow2(n)) && |k| >= 12 && |k'| >= 12 && AddBlock(s, k, n) == AddBlock(s, k', n)
    ensures k[0] == k'[0] && k[1] == k'[1] && k[2] == k'[2] && k[3] == k'[3]
    ensures k[4] == k'[4] && k[5] == k'[5] && k[6] == k'[6] && k[7] == k'[7]
    ensures k[8] == k'[8] && k[9] == k'[9] && k[10] == k'[10] && k[11] == k'[11]
  {
    WordFits(n);
    hide Word, Pow2, Add;
    BytesApart(s.a, k[0], k[1], k[2], k[3], k'[0], k'[1], k'[2], k'[3], Pow2(n));
    BytesApart(s.b, k[4], k[5], k[6], k[7], k'[4], k'[5], k'[6], k'[7], Pow2(n));
    BytesApart(s.c, k[8], k[9], k[10], k[11], k'[8], k'[9], k'[10], k'[11], Pow2(n));
  }

  /** Different bytes added to the same word give different words. */
  lemma BytesApart(x: nat, p: Byte, q: Byte, r: Byte, s: Byte, p': Byte, q': Byte, r': Byte, s': Byte, m: nat)
    requires x < m && WORD <= m
    ensures Add(x, Word(p, q, r, s), m) == Add(x, Word(p', q', r', s'), m) ==> p == p' && q == q' && r == r' && s == s'
  {
    hide Word;
    if Word(p, q, r, s) == Word(p', q', r', s') {
      WordApart(p, q, r, s, p', q', r', s');
    }
  }

  lemma TailApart(s: State, k: seq<Byte>, k': seq<Byte>, i: nat, length: nat, n: nat)
    requires n >= 32 && Fits(s, Pow2(n)) && |k| == |k'| < 12 && i < |k| && k[i] != k'[i] && length < Pow2(n)
    ensures AddTail(s, k, length, n) != AddTail(s, k', length, n)
  {
    hide AddTail, Pow2, Byte0;
    ByteApart(k, k', i);
    if AddTail(s, k, length, n) == AddTail(s, k', length, n) {
      SameTail(s, k, k', length, n);
    }
  }

  lemma ByteApart(k: seq<Byte>, k': seq<Byte>, i: nat)
    requires i < |k| && i < |k'| && k[i] != k'[i]
    ensures Byte0(k, i) != Byte0(k', i)
  {
  }

  lemma SameTail(s: State, k: seq<Byte>, k': seq<Byte>, length: nat, n: nat)
    requires n >= 32 && Fits(s, Pow2(n)) && |k| == |k'| < 12 && length < Pow2(n)
    requires AddTail(s, k, length, n) == AddTail(s, k', length, n)
    ensures Byte0(k, 0) == Byte0(k', 0) && Byte0(k, 1) == Byte0(k', 1) && Byte0(k, 2) == Byte0(k', 2)
    ensures Byte0(k, 3) == Byte0(k', 3) && Byte0(k, 4) == Byte0(k', 4) && Byte0(k, 5) == Byte0(k', 5)
    ensures Byte0(k, 6) == Byte0(k', 6) && Byte0(k, 7) == Byte0(k', 7) && Byte0(k, 8) == Byte0(k', 8)
    ensures Byte0(k, 9) == Byte0(k', 9) && Byte0(k, 10) == Byte0(k', 10)
  {
    WordFits(n);
    hide Word, Pow2, Add, Byte0;
    var c := Add(s.c, length, Pow2(n));
    BytesApart(s.a, Byte0(k, 0), Byte0(k, 1), Byte0(k, 2), Byte0(k, 3),
               Byte0(k', 0), Byte0(k', 1), Byte0(k', 2), Byte0(k', 3), Pow2(n));
    BytesApart(s.b, Byte0(k, 4), Byte0(k, 5), Byte0(k, 6), Byte0(k, 7),
               Byte0(k', 4), Byte0(k', 5), Byte0(k', 6), Byte0(k', 7), Pow2(n));
    BytesApart(c, 0, Byte0(k, 8), Byte0(k, 9), Byte0(k, 10), 0, Byte0(k', 8), Byte0(k', 9), Byte0(k', 10), Pow2(n));
  }

  /** The keys agree outside the 12 bytes from `12 * b` on; the last of these
      stretches is the tail and may be shorter. */
  ghost predicate AgreeOutside(k: seq<Byte>, k': seq<Byte>, b: nat) {
    |k| == |k'| && forall j :: 0 <= j < |k| && !(12 * b <= j < 12 * b + 12) ==> k[j] == k'[j]
  }

  lemma {:induction false} AbsorbApart(s: State, k: seq<Byte>, k': seq<Byte>, b: nat, i: nat, length: nat, n: nat)
    requires n >= 32 && Fits(s, Pow2(n)) && length < Pow2(n)
    requires AgreeOutside(k, k', b) && i < |k| && k[i] != k'[i]
    ensures Absorb(s, k, length, n) != Absorb(s, k', length, n)
    decreases |k|
  {
    hide Mix, AddBlock, AddTail, Pow2;
    if |k| < 12 {
      TailApart(s, k, k', i, length, n);
      MixApart(AddTail(s, k, length, n), AddTail(s, k', length, n), n);
    } else if b == 0 {
      BlockApart(s, k, k', i, n);
      MixApart(AddBlock(s, k, n), AddBlock(s, k', n), n);
      assert k[12..] == k'[12..];
      StatesApart(Mix(AddBlock(s, k, n), n), Mix(AddBlock(s, k', n), n), k[12..], length, n);
    } else {
      assert forall j :: 0 <= j < 12 ==> k[j] == k'[j];
      SameBlock(s, k, k', n);
      assert AgreeOutside(k[12..], k'[12..], b - 1);
      AbsorbApart(Mix(AddBlock(s, k, n), n), k[12..], k'[12..], b - 1, i - 12, length, n);
    }
  }

  lemma SameBlock(s: State, k: seq<Byte>, k': seq<Byte>, n: nat)
    requires n >= 32 && Fits(s, Pow2(n)) && |k| == |k'| >= 12 && forall j :: 0 <= j < 12 ==> k[j] == k'[j]
    ensures AddBlock(s, k, n) == AddBlock(s, k', n)
  {
  }

  /** Keys of the same length that differ in exactly one block, or only in the
      tail, end in different states. */
  lemma OneBlockApart(k: seq<Byte>, k': seq<Byte>, b: nat, initval: nat, n: nat)
    requires n >= 32 && initval < Pow2(n) && |k| < Pow2(n)
    requires AgreeOutside(k, k', b) && k != k'
    ensures HashState(k, initval, n) != HashState(k', initval, n)
  {
    hide Absorb, Pow2;
    WordFits(n);
    var i :| 0 <= i < |k| && k[i] != k'[i];
    AbsorbApart(Start(initval), k, k', b, i, |k|, n);
  }

  /** The keys are alike but for zeros at the end of one of them. */
  ghost predicate SamePadded(k: seq<Byte>, k': seq<Byte>) {
    forall i: nat :: Byte0(k, i) == Byte0(k', i)
  }

  lemma TailLengths(s: State, k: seq<Byte>, k': seq<Byte>, length: nat, length': nat, n: nat)
    requires n >= 32 && Fits(s, Pow2(n)) && |k| < 12 && |k'| < 12 && length < Pow2(n) && length' < Pow2(n)
    requires SamePadded(k, k') && length != length'
    ensures AddTail(s, k, length, n) != AddTail(s, k', length', n)
  {
    WordFits(n);
    var m, w := Pow2(n), Word(0, Byte0(k, 8), Byte0(k, 9), Byte0(k, 10));
    hide Word, Pow2, Byte0;
    AddOther(s.c, length, length', m);
    AddKeeps(Add(s.c, length, m), Add(s.c, length', m), w, m);
  }

  lemma AddOther(x: nat, y: nat, y': nat, m: nat)
    requires x < m && y < m && y' < m && y != y'
    ensures Add(x, y, m) != Add(x, y', m)
  {
  }

  lemma {:induction false} AbsorbLengths(
    s: State, k: seq<Byte>, k': seq<Byte>, length: nat, length': nat, n: nat)
    requires n >= 32 && Fits(s, Pow2(n)) && length < Pow2(n) && length' < Pow2(n) && length != length'
    requires SamePadded(k, k') && |k| / 12 == |k'| / 12
    ensures Absorb(s, k, length, n) != Absorb(s, k', length', n)
    decreases |k|
  {
    hide Mix, AddBlock, AddTail, Pow2;
    if |k| < 12 {
      TailLengths(s, k, k', length, length', n);
      MixApart(AddTail(s, k, length, n), AddTail(s, k', length', n), n);
    } else {
      PaddedBlock(s, k, k', n);
      AbsorbLengths(Mix(AddBlock(s, k, n), n), k[12..], k'[12..], length, length', n);
    }
  }

  lemma PaddedBlock(s: State, k: seq<Byte>, k': seq<Byte>, n: nat)
    requires n >= 32 && Fits(s, Pow2(n)) && |k| >= 12 && |k'| >= 12 && SamePadded(k, k')
    ensures AddBlock(s, k, n) == AddBlock(s, k', n) && SamePadded(k[12..], k'[12..])
  {
    assert forall j: nat :: j < 12 ==> k[j] == Byte0(k, j) && k'[j] == Byte0(k', j);
    forall i: nat
      ensures Byte0(k[12..], i) == Byte0(k'[12..], i)
    {
      assert Byte0(k[12..], i) == Byte0(k, i + 12) && Byte0(k'[12..], i) == Byte0(k', i + 12);
    }
    WordFits(n);
    hide Word, Pow2, Add, Byte0;
  }

  /** The length counts: keys of different length with the same number of whole
      blocks that differ only by zeros at the end end in different states. */
  lemma LengthsApart(k: seq<Byte>, k': seq<Byte>, initval: nat, n: nat)
    requires n >= 32 && initval < Pow2(n) && |k| < Pow2(n) && |k'| < Pow2(n)
    requires |k| != |k'| && |k| / 12 == |k'| / 12 && SamePadded(k, k')
    ensures HashState(k, initval, n) != HashState(k', initval, n)
  {
    hide Absorb, Pow2, SamePadded;
    WordFits(n);
    AbsorbLengths(Start(initval), k, k', |k|, |k'|, n);
  }

  // ----- the loop

  lemma AddSum(x: nat, y: nat, z: nat, m: nat)
    requires x < m && y + z < m
    ensures Add(Add(x, y, m), z, m) == Add(x, y + z, m)
  {
  }

  /** The falling-through cases for one word: bytes `i` to `i + 3`, the highest first. */
  method AddBytes(x: nat, p: Byte, q: Byte, r: Byte, s: Byte, n: nat) returns (w: nat)
    requires n >= 32 && x < Pow2(n)
    ensures WORD <= Pow2(n) && w == Add(x, Word(p, q, r, s), Pow2(n))
  {
    WordFits(n);
    ghost var m := Pow2(n);
    hide Pow2;
    AddSum(x, 16777216 * s, 65536 * r, m);
    AddSum(x, 16777216 * s + 65536 * r, 256 * q, m);
    AddSum(x, 16777216 * s + 65536 * r + 256 * q, p, m);
    w := Add(x, 16777216 * s, Pow2(n));
    w := Add(w, 65536 * r, Pow2(n));
    w := Add(w, 256 * q, Pow2(n));
    w := Add(w, p, Pow2(n));
  }

  /** whash: blocks of twelve bytes while they last, then the length and the rest. */
  method Whash(k: seq<Byte>, initval: nat, n: nat) returns (hash: nat)
    requires n >= 32 && initval < Pow2(n) && |k| < Pow2(n)
    ensures hash == HashState(k, initval, n).c
  {
    hide Mix, AddBlock, Pow2, Word;
    WordFits(n);
    var s, i := Start(initval), 0;
    assert k[0..] == k;
    while |k| - i >= 12
      invariant 0 <= i <= |k| && Fits(s, Pow2(n))
      invariant Absorb(s, k[i..], |k|, n) == HashState(k, initval, n)
    {
      s := Mix(AddBlock(s, k[i..], n), n);
      assert k[i..][12..] == k[i + 12..];
      i := i + 12;
    }
    var rest := k[i..];
    var a := AddBytes(s.a, Byte0(rest, 0), Byte0(rest, 1), Byte0(rest, 2), Byte0(rest, 3), n);
    var b := AddBytes(s.b, Byte0(rest, 4), Byte0(rest, 5), Byte0(rest, 6), Byte0(rest, 7), n);
    var c := AddBytes(Add(s.c, |k|, Pow2(n)), 0, Byte0(rest, 8), Byte0(rest, 9), Byte0(rest, 10), n);
    hash := Mix(State(a, b, c), n).c;
  }
}
