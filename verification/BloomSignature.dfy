/**
  Signatures of the bloom index: the Park-Miller generator seeded from the column
  number and the hash of the value, and the bits it sets.
 */
module BloomSignature {
  import opened CInts

  const INT32_MIN: int := -0x8000_0000
  const INT32_MAX: int := 0x7fff_ffff
  const MODULUS: int := 0x7fff_ffff
  const SIGNWORDBITS: nat := 16

  newtype uint32 = x: int | 0 <= x < 0x1_0000_0000

  predicate Int32(x: int) {
    INT32_MIN <= x <= INT32_MAX
  }

  /** C division and remainder: toward zero. */
  function Quot(a: int, b: int): int
    requires b > 0
  {
    if a < 0 then -((-a) / b) else a / b
  }

  function Rem(a: int, b: int): int
    requires b > 0
  {
    if a < 0 then -((-a) % b) else a % b
  }

  // ---------- The generator ----------

  /** The state mySrand leaves. */
  function Seeded(seed: uint32): int {
    Rem(ToInt32(seed as int), 0x7fff_fffe) + 1
  }

  /** The state one call of myRand leaves; the call returns it minus one. */
  function Step(state: int): int {
    var x := 16807 * Rem(state, 127773) - 2836 * Quot(state, 127773);
    if x < 0 then x + 0x7fff_ffff else x
  }

  predicate Seedable(state: int) {
    -MODULUS < state < MODULUS
  }

  lemma SeededRange(seed: uint32)
    ensures Seedable(Seeded(seed))
    ensures Seeded(seed) == 0 <==> seed in {0xFFFF_FFFF, 0x8000_0001}
  {
    var s := ToInt32(seed as int);
    if s < 0 {
      assert (-s) % 0x7fff_fffe == if -s < 0x7fff_fffe then -s else -s - 0x7fff_fffe;
    }
  }

  /** The state every seed leaves: small ones the next number, large ones a wrapped one. */
  lemma SeededIs(seed: uint32)
    ensures var s, top := seed as int, 0x7fff_fffe;
            Seeded(seed) == if s < top then s + 1
                            else if s < 0x8000_0000 then s + 1 - top
                            else if 0x1_0000_0000 - s < top then s + 1 - 0x1_0000_0000
                            else s + 1 + top - 0x1_0000_0000
  {
    var s := ToInt32(seed as int);
    if s < 0 {
      assert (-s) % 0x7fff_fffe == if -s < 0x7fff_fffe then -s else -s - 0x7fff_fffe;
    } else {
      assert s % 0x7fff_fffe == if s < 0x7fff_fffe then s else s - 0x7fff_fffe;
    }
  }

  /** No intermediate value of myRand leaves 32 bits. */
  predicate StaysInt32(state: int) {
    var hi, lo := Quot(state, 127773), Rem(state, 127773);
    && Int32(16807 * lo) && Int32(2836 * hi) && Int32(16807 * lo - 2836 * hi)
    && Int32(Step(state))
  }

  /**
    One step multiplies by 7^5 modulo 2^31 - 1 without leaving 32 bits, also from the
    negative states that large seeds leave behind.  Only state 0 is stuck.
   */
  lemma StepIsParkMiller(state: int)
    requires Seedable(state)
    ensures StaysInt32(state)
    ensures Step(state) == (16807 * state) % MODULUS
    ensures 0 <= Step(state) < MODULUS
    ensures state == 0 <==> Step(state) == 0
  {
    var hi, lo := Quot(state, 127773), Rem(state, 127773);
    assert state == 127773 * hi + lo;
    var x := 16807 * lo - 2836 * hi;
    assert 16807 * state == MODULUS * hi + x;
    Remainder(16807 * state, if x < 0 then hi - 1 else hi, Step(state));
    if x == 0 {
      Coprime(hi, lo);
    }
  }

  lemma Remainder(a: int, q: int, r: int)
    requires a == MODULUS * q + r && 0 <= r < MODULUS
    ensures a % MODULUS == r
  {
  }

  /** 16807 and 2836 are coprime, so the two parts of a nonzero state never cancel. */
  lemma Coprime(hi: int, lo: int)
    requires 16807 * lo == 2836 * hi && -16807 < hi < 16807
    ensures hi == 0 && lo == 0
  {
    assert hi == 16807 * (-977 * hi + 5790 * lo);
  }

  /** The static variable next with the two functions over it. */
  class Generator {
    var next: int

    constructor ()
      ensures next == 0
    {
      next := 0;
    }

    method Srand(seed: uint32)
      modifies this
      ensures next == Seeded(seed)
    {
      next := ToInt32(seed as int);
      next := Rem(next, 0x7fff_fffe) + 1;
    }

    method Rand() returns (r: int)
      modifies this
      ensures next == Step(old(next)) && r == next - 1
    {
      var hi := Quot(next, 127773);
      var lo := Rem(next, 127773);
      var x := 16807 * lo - 2836 * hi;
      if x < 0 {
        x := x + 0x7fff_ffff;
      }
      next := x;
      r := x - 1;
    }
  }

  // ---------- Bits of a value ----------

  function Pow2(n: nat): (r: nat)
    ensures r > 0
  {
    if n == 0 then 1 else 2 * Pow2(n - 1)
  }

  /** Exclusive or of the low n bits. */
  function XorBits(n: nat, a: nat, b: nat): (r: nat)
    ensures r < Pow2(n)
  {
    if n == 0 then 0
    else (if a % 2 == b % 2 then 0 else 1) + 2 * XorBits(n - 1, a / 2, b / 2)
  }

  lemma {:induction false} XorBitsCancel(n: nat, a: nat, b: nat)
    requires a < Pow2(n)
    ensures XorBits(n, XorBits(n, a, b), b) == a
  {
    if n > 0 {
      XorHalves(n, a, b);
      XorBitsCancel(n - 1, a / 2, b / 2);
    }
  }

  lemma DivideTwice(x: nat, m: nat)
    requires m > 0
    ensures x / (2 * m) == x / 2 / m
  {
    var q, r := x / 2 / m, x / 2 % m;
    assert x / 2 == m * q + r;
    assert x == q * (2 * m) + (2 * r + x % 2);
    DivideUnique(x, 2 * m, q, 2 * r + x % 2);
  }

  predicate BitAt(x: nat, k: nat) {
    x / Pow2(k) % 2 == 1
  }

  /** A bit of the result is set where the arguments differ. */
  lemma {:induction false} XorBitAt(n: nat, a: nat, b: nat, k: nat)
    requires k < n
    ensures BitAt(XorBits(n, a, b), k) <==> BitAt(a, k) != BitAt(b, k)
  {
    hide BitAt, XorBits;
    var r := XorBits(n, a, b);
    XorHalves(n, a, b);
    if k == 0 {
      LowBit(r);
      LowBit(a);
      LowBit(b);
    } else {
      XorBitAt(n - 1, a / 2, b / 2, k - 1);
      HigherBit(r, k);
      HigherBit(a, k);
      HigherBit(b, k);
    }
  }

  lemma XorHalves(n: nat, a: nat, b: nat)
    requires n > 0
    ensures var r := XorBits(n, a, b); r / 2 == XorBits(n - 1, a / 2, b / 2) && (r % 2 == 0 <==> a % 2 == b % 2)
  {
  }

  lemma LowBit(x: nat)
    ensures BitAt(x, 0) <==> x % 2 == 1
  {
  }

  lemma HigherBit(x: nat, k: nat)
    requires k > 0
    ensures BitAt(x, k) == BitAt(x / 2, k - 1)
  {
    DivideTwice(x, Pow2(k - 1));
  }

  lemma Pow2Of32()
    ensures Pow2(32) == 0x1_0000_0000
  {
    assert Pow2(8) == 256;
    assert Pow2(16) == 0x1_0000;
    assert Pow2(24) == 0x100_0000;
  }

  function Xor(a: uint32, b: uint32): uint32 {
    Pow2Of32();
    XorBits(32, a as nat, b as nat) as uint32
  }

  /** What myRand returns right after mySrand(attno). */
  function ColumnSalt(attno: nat): uint32
    requires attno < 32
  {
    SaltRange(attno);
    (Step(Seeded(attno as uint32)) - 1) as uint32
  }

  lemma SaltRange(attno: nat)
    requires attno < 32
    ensures 0 <= Step(Seeded(attno as uint32)) - 1 < MODULUS
  {
    SeededRange(attno as uint32);
    StepIsParkMiller(Seeded(attno as uint32));
  }

  /** Every column has its own salt. */
  lemma SaltIs(attno: nat)
    requires attno < 32
    ensures ColumnSalt(attno) as int == 16807 * (attno + 1) - 1
    ensures forall other: nat | other < 32 && other != attno :: ColumnSalt(other) != ColumnSalt(attno)
  {
    hide Step, Seeded;
    forall a: nat | a < 32 ensures ColumnSalt(a) as int == 16807 * (a + 1) - 1 {
      SeededIs(a as uint32);
      StepIsParkMiller(a + 1);
    }
  }

  /** The generator state from which the bits of a value are drawn. */
  function ValueState(attno: nat, hash: uint32): int
    requires attno < 32
  {
    Seeded(Xor(hash, ColumnSalt(attno)))
  }

  /** The positions the next count draws set in a signature of nbits bits. */
  function Draws(state: int, count: nat, nbits: nat): set<int>
    requires nbits > 0
    decreases count
  {
    if count == 0 then {}
    else {Rem(Step(state) - 1, nbits)} + Draws(Step(state), count - 1, nbits)
  }

  function Power(b: nat, j: nat): nat {
    if j == 0 then 1 else b * Power(b, j - 1)
  }

  /** The j-th position that the Park-Miller generator yields from a state. */
  function Position(state: int, j: nat, nbits: nat): int
    requires nbits > 0
  {
    ((Power(16807, j) * state) % MODULUS - 1) % nbits
  }

  lemma TimesRemainder(a: int, x: int)
    ensures (a * (x % MODULUS)) % MODULUS == (a * x) % MODULUS
  {
    var q, r := x / MODULUS, x % MODULUS;
    assert a * x == MODULUS * (a * q) + a * r by {
      assert x == MODULUS * q + r;
    }
    Shifted(a * r, a * q);
  }

  lemma Shifted(u: int, v: int)
    ensures (MODULUS * v + u) % MODULUS == u % MODULUS
  {
    Remainder(MODULUS * v + u, v + u / MODULUS, u % MODULUS);
  }

  lemma PositionNext(state: int, j: nat, nbits: nat)
    requires Seedable(state) && nbits > 0
    ensures Position(Step(state), j, nbits) == Position(state, j + 1, nbits)
  {
    hide Step, Power;
    StepIsParkMiller(state);
    TimesRemainder(Power(16807, j), 16807 * state);
    PowerNext(j);
    Regroup(Power(16807, j), state);
  }

  lemma PowerNext(j: nat)
    ensures Power(16807, j + 1) == 16807 * Power(16807, j)
  {
  }

  lemma Regroup(p: int, x: int)
    ensures p * (16807 * x) == 16807 * p * x
  {
  }

  /** The draws from a state that is not stuck are the first positions of the generator. */
  lemma {:induction false} DrawsAre(state: int, count: nat, nbits: nat)
    requires Seedable(state) && state != 0 && nbits > 0
    ensures Draws(state, count, nbits) == set j | 1 <= j <= count :: Position(state, j, nbits)
    decreases count
  {
    hide Step, Position, Power;
    if count > 0 {
      StepIsParkMiller(state);
      DrawsAre(Step(state), count - 1, nbits);
      FirstPosition(state, nbits);
      forall j: nat ensures Position(Step(state), j, nbits) == Position(state, j + 1, nbits) {
        PositionNext(state, j, nbits);
      }
      PositionsNext(state, count, nbits);
    }
  }

  lemma FirstPosition(state: int, nbits: nat)
    requires Seedable(state) && state != 0 && nbits > 0
    ensures Rem(Step(state) - 1, nbits) == Position(state, 1, nbits)
  {
    hide Step;
    StepIsParkMiller(state);
    assert Power(16807, 1) == 16807 * Power(16807, 0) == 16807;
  }

  lemma PositionsNext(state: int, count: nat, nbits: nat)
    requires count > 0 && nbits > 0
    requires forall j: nat :: Position(Step(state), j, nbits) == Position(state, j + 1, nbits)
    ensures (set j | 1 <= j <= count :: Position(state, j, nbits))
         == {Position(state, 1, nbits)} + set j | 1 <= j <= count - 1 :: Position(Step(state), j, nbits)
  {
    hide Step, Position;
    var all := set j | 1 <= j <= count :: Position(state, j, nbits);
    var rest := set j | 1 <= j <= count - 1 :: Position(Step(state), j, nbits);
    forall x | x in all ensures x == Position(state, 1, nbits) || x in rest {
      var j :| 1 <= j <= count && x == Position(state, j, nbits);
      if j > 1 {
        assert x == Position(Step(state), j - 1, nbits);
      }
    }
    forall x | x in rest ensures x in all {
      var j :| 1 <= j <= count - 1 && x == Position(Step(state), j, nbits);
      assert x == Position(state, j + 1, nbits);
    }
  }

  lemma RemInside(a: int, n: nat)
    requires n > 1 && a >= -1
    ensures Rem(a, n) < n && (0 <= Rem(a, n) <==> a >= 0)
  {
  }

  predicate Inside(ps: set<int>, nbits: nat) {
    forall p | p in ps :: 0 <= p < nbits
  }

  /** Draws stay inside the signature exactly when the generator is not stuck at 0. */
  lemma {:induction false} DrawsInside(state: int, count: nat, nbits: nat)
    requires Seedable(state) && nbits > 1 && count > 0
    ensures Inside(Draws(state, count, nbits), nbits) <==> state != 0
    decreases count
  {
    StepIsParkMiller(state);
    RemInside(Step(state) - 1, nbits);
    hide Step, Rem;
    var p, rest := Rem(Step(state) - 1, nbits), Draws(Step(state), count - 1, nbits);
    assert Draws(state, count, nbits) == {p} + rest;
    assert p in Draws(state, count, nbits);
    if count > 1 {
      DrawsInside(Step(state), count - 1, nbits);
    }
  }

  /** The two hash values per column that leave the generator stuck. */
  lemma StuckHashes(attno: nat, hash: uint32)
    requires attno < 32
    ensures ValueState(attno, hash) == 0
       <==> hash in {Xor(0xFFFF_FFFF, ColumnSalt(attno)), Xor(0x8000_0001, ColumnSalt(attno))}
  {
    SeededRange(Xor(hash, ColumnSalt(attno)));
    XorCancels(hash, ColumnSalt(attno), 0xFFFF_FFFF);
    XorCancels(hash, ColumnSalt(attno), 0x8000_0001);
  }

  lemma XorCancels(a: uint32, b: uint32, c: uint32)
    ensures Xor(a, b) == c <==> a == Xor(c, b)
  {
    hide XorBits;
    Pow2Of32();
    XorBitsCancel(32, a as nat, b as nat);
    XorBitsCancel(32, c as nat, b as nat);
  }

  // ---------- Signature words ----------

  /** A uint16 signature word, as the set of its one bits. */
  type Word = w: set<nat> | forall b | b in w :: b < SIGNWORDBITS

  /** The bit positions set in a signature. */
  function BitsOf(sign: seq<Word>): set<int> {
    set p | 0 <= p < SIGNWORDBITS * |sign| && p % SIGNWORDBITS in sign[p / SIGNWORDBITS]
  }

  /** The word by word test of blgetbitmap is inclusion of the bits. */
  lemma WordsCover(sign: seq<Word>, query: seq<Word>)
    requires |sign| == |query|
    ensures (forall i | 0 <= i < |sign| :: sign[i] * query[i] == query[i])
       <==> BitsOf(query) <= BitsOf(sign)
  {
    if BitsOf(query) <= BitsOf(sign) {
      forall i, b | 0 <= i < |sign| && b in query[i] ensures b in sign[i] {
        var p := SIGNWORDBITS * i + b;
        assert p / SIGNWORDBITS == i && p % SIGNWORDBITS == b;
        assert p in BitsOf(query);
      }
    } else {
      var p :| p in BitsOf(query) && p !in BitsOf(sign);
      var i := p / SIGNWORDBITS;
      assert p % SIGNWORDBITS !in sign[i] * query[i];
    }
  }

  lemma BitAdded(sign: seq<Word>, p: nat)
    requires p < SIGNWORDBITS * |sign|
    ensures var i, b := p / SIGNWORDBITS, p % SIGNWORDBITS;
            BitsOf(sign[i := sign[i] + {b}]) == BitsOf(sign) + {p}
  {
  }

  // ---------- Signing ----------

  /** Legal index options: bloomLength in words, bitSize per column. */
  datatype Options = Options(bloomLength: nat, bitSize: seq<nat>)

  predicate Legal(o: Options) {
    && 1 <= o.bloomLength <= 256
    && |o.bitSize| <= 32
    && forall i | 0 <= i < |o.bitSize| :: 1 <= o.bitSize[i] <= 4095
  }

  /** The bits of one value: a function of its column and its hash only. */
  function ValueBits(o: Options, attno: nat, hash: uint32): set<int>
    requires Legal(o) && attno < |o.bitSize|
  {
    Draws(ValueState(attno, hash), o.bitSize[attno], o.bloomLength * SIGNWORDBITS)
  }

  /** The bits of a value, spelled out: bitSize positions from a state salted by the column. */
  lemma ValueBitsAre(o: Options, attno: nat, hash: uint32)
    requires Legal(o) && attno < |o.bitSize| && Drawable(attno, hash)
    ensures var salt := (16807 * (attno + 1) - 1) as uint32;
            var nbits := o.bloomLength * SIGNWORDBITS;
            ValueBits(o, attno, hash)
            == set j | 1 <= j <= o.bitSize[attno] :: Position(Seeded(Xor(hash, salt)), j, nbits)
  {
    hide Seeded, Position, Xor, ColumnSalt;
    SaltIs(attno);
    SeededRange(Xor(hash, ColumnSalt(attno)));
    DrawsAre(ValueState(attno, hash), o.bitSize[attno], o.bloomLength * SIGNWORDBITS);
  }

  predicate Drawable(attno: nat, hash: uint32)
    requires attno < 32
  {
    ValueState(attno, hash) != 0
  }

  /**
    signValue.  When the generator is stuck the shift count of SETBIT is negative, and what
    is then or-ed into the first word is unspecified.
   */
  method SignValue(g: Generator, o: Options, sign: array<Word>, attno: nat, hash: uint32)
    requires Legal(o) && attno < |o.bitSize| && sign.Length == o.bloomLength
    modifies g, sign
    ensures Drawable(attno, hash) ==>
              BitsOf(sign[..]) == old(BitsOf(sign[..])) + ValueBits(o, attno, hash)
    ensures !Drawable(attno, hash) ==> FirstGrows(old(sign[..]), sign[..])
  {
    hide Step, Seeded, Rem, XorBits, BitsOf;
    g.Srand(attno as uint32);
    var salt := g.Rand();
    SaltRange(attno);
    g.Srand(Xor(hash, salt as uint32));
    SeededRange(Xor(hash, salt as uint32));
    var nbits := o.bloomLength * SIGNWORDBITS;
    for j := 0 to o.bitSize[attno]
      invariant Seedable(g.next)
      invariant Drawable(attno, hash) ==> g.next != 0
      invariant Drawable(attno, hash) ==>
          BitsOf(sign[..]) + Draws(g.next, o.bitSize[attno] - j, nbits)
          == old(BitsOf(sign[..])) + ValueBits(o, attno, hash)
      invariant !Drawable(attno, hash) ==> g.next == 0 && FirstGrows(old(sign[..]), sign[..])
    {
      SetNextBit(g, sign, o.bitSize[attno] - j);
    }
  }

  /** Only the first word changes, and it loses no bit. */
  predicate FirstGrows(before: seq<Word>, after: seq<Word>) {
    |before| == |after| > 0 && before[0] <= after[0] && before[1..] == after[1..]
  }

  /** One round of signValue. */
  method SetNextBit(g: Generator, sign: array<Word>, ghost left: nat)
    requires Seedable(g.next) && left > 0 && sign.Length > 0
    modifies g, sign
    ensures Seedable(g.next) && (old(g.next) != 0 <==> g.next != 0)
    ensures old(g.next) != 0 ==>
              BitsOf(sign[..]) + Draws(g.next, left - 1, sign.Length * SIGNWORDBITS)
              == old(BitsOf(sign[..])) + Draws(old(g.next), left, sign.Length * SIGNWORDBITS)
    ensures old(g.next) == 0 ==> FirstGrows(old(sign[..]), sign[..])
  {
    hide Step, BitsOf, FirstGrows, Rem;
    StepIsParkMiller(g.next);
    RemInside(Step(g.next) - 1, sign.Length * SIGNWORDBITS);
    var r := g.Rand();
    var nBit := Rem(r, sign.Length * SIGNWORDBITS);
    if nBit >= 0 {
      SetBit(sign, nBit);
    } else {
      SetOutside(sign);
    }
  }

  /** SETBIT inside the signature. */
  method SetBit(sign: array<Word>, nBit: nat)
    requires nBit < sign.Length * SIGNWORDBITS
    modifies sign
    ensures BitsOf(sign[..]) == old(BitsOf(sign[..])) + {nBit as int}
  {
    hide BitsOf;
    ghost var before := sign[..];
    BitAdded(before, nBit);
    var i := nBit / SIGNWORDBITS;
    sign[i] := sign[i] + {nBit % SIGNWORDBITS};
    assert sign[..] == before[i := before[i] + {nBit % SIGNWORDBITS}];
  }

  function Joined(v: Word, w: Word): Word {
    v + w
  }

  /** SETBIT with a negative shift count. */
  method SetOutside(sign: array<Word>)
    requires sign.Length > 0
    modifies sign
    ensures FirstGrows(old(sign[..]), sign[..])
  {
    var junk: Word := *;
    var first: Word := sign[0];
    sign[0] := Joined(first, junk);
    assert sign[1..] == old(sign[1..]);
  }
}
