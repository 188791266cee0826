/** Bloom signatures: the random generator that maps a column's hash to bits,
    the signature of a row, and the signature test of a scan. */
module BloomSign {
  import opened Prelude
  import opened Bitwise

  // ----- the generator -----

  /** The modulus 2^31 - 1. */
  const P := 0x7fff_ffff

  /** C's division and remainder, which round toward zero. */
  function TDiv(a: int, b: int): int
    requires b > 0
  {
    if a >= 0 then a / b else -(-a / b)
  }

  function TMod(a: int, b: int): int
    requires b > 0
  {
    a - b * TDiv(a, b)
  }

  predicate Int32(x: int) {
    -0x8000_0000 <= x < 0x8000_0000
  }

  /** One step of the Park-Miller generator. */
  function NextState(x: int): (r: int)
    ensures 0 <= r < P
  {
    (16807 * x) % P
  }

  function StateAfter(x: int, n: nat): int {
    if n == 0 then x else NextState(StateAfter(x, n - 1))
  }

  /** Only zero leads to zero. */
  lemma {:induction false} ZeroOnlyFromZero(x: int)
    requires -P < x < P
    ensures NextState(x) == 0 <==> x == 0
  {
    if NextState(x) == 0 {
      var k := (16807 * x) / P;
      assert 16807 * x == P * k;
      MultipleOfFactor(x, k);
    }
  }

  /** 2836 has the inverse 5790 modulo 16807, so `k` is a multiple of 16807. */
  lemma {:induction false} MultipleOfFactor(x: int, k: int)
    requires 16807 * x == P * k && -P < x < P
    ensures x == 0
  {
    var d := x - 127773 * k;
    assert 16807 * d == 2836 * k;
    var t := 5790 * d - 977 * k;
    assert k == 16807 * t;
    assert x == P * t;
  }

  /** From a state in [1, 2^31 - 2] the generator never leaves that range. */
  lemma {:induction false} NeverZero(x: int, n: nat)
    requires -P < x < P
    ensures -P < StateAfter(x, n) < P && (StateAfter(x, n) == 0 <==> x == 0)
    ensures n > 0 || 0 <= x ==> 0 <= StateAfter(x, n)
  {
    if n > 0 {
      NeverZero(x, n - 1);
      ZeroOnlyFromZero(StateAfter(x, n - 1));
    }
  }

  function ToInt32(seed: int): int
    requires 0 <= seed < 0x1_0000_0000
  {
    if seed < 0x8000_0000 then seed else seed - 0x1_0000_0000
  }

  /** The state mySrand sets. */
  function SeedState(seed: int): (x: int)
    requires 0 <= seed < 0x1_0000_0000
    ensures -P < x < P
  {
    TMod(ToInt32(seed), 0x7fff_fffe) + 1
  }

  /** Seeds below 2^31 give a state in [1, 2^31 - 2]; of the others exactly two
      give the state zero, where the generator stays. */
  lemma {:induction false} SeedStates(seed: int)
    requires 0 <= seed < 0x1_0000_0000
    ensures seed < 0x8000_0000 ==> 1 <= SeedState(seed) < P
    ensures SeedState(seed) == 0 <==> seed == 0xffff_ffff || seed == 0x8000_0001
  {
  }

  /** The state for a seed, by the sign of its 32-bit pattern. */
  lemma {:induction false} SeedStateIs(seed: int)
    requires 0 <= seed < 0x1_0000_0000
    ensures SeedState(seed) ==
            if seed < 0x8000_0000 then seed % 0x7fff_fffe + 1 else 1 - (0x1_0000_0000 - seed) % 0x7fff_fffe
  {
  }

  function Power(n: nat): nat {
    if n == 0 then 1 else 16807 * Power(n - 1)
  }

  /** The states in closed form. */
  lemma {:induction false} StateIs(x: int, n: nat)
    requires n > 0
    ensures StateAfter(x, n) == (Power(n) * x) % P
  {
    if n == 1 {
      assert StateAfter(x, 1) == NextState(StateAfter(x, 0));
      assert Power(1) == 16807 * Power(0);
    } else {
      StateIs(x, n - 1);
      var y := Power(n - 1) * x;
      TimesMod(y);
      assert Power(n) * x == 16807 * y by {
        Regroup(16807, Power(n - 1), x);
      }
    }
  }

  lemma {:induction false} Regroup(a: int, b: int, c: int)
    ensures (a * b) * c == a * (b * c)
  {
  }

  lemma {:induction false} TimesMod(y: int)
    ensures (16807 * (y % P)) % P == (16807 * y) % P
  {
    var q, r := y / P, y % P;
    assert 16807 * y == P * (16807 * q) + 16807 * r;
    ModShift(16807 * r, 16807 * q);
  }

  lemma {:induction false} ModShift(a: int, k: int)
    ensures (P * k + a) % P == a % P
  {
    var b := P * k + a;
    assert P * (b / P - k - a / P) == a % P - b % P;
  }

  class Generator {
    var next: int

    constructor ()
      ensures next == 0
    {
      next := 0;
    }

    /** myRand: Schrage's method, every intermediate value within 32 bits. */
    method MyRand() returns (r: int)
      requires -P < next < P
      modifies this
      ensures next == NextState(old(next)) && r == next - 1
    {
      var hi := TDiv(next, 127773);
      var lo := TMod(next, 127773);
      Schrage(next, hi, lo);
      assert Int32(16807 * lo) && Int32(2836 * hi);
      var x := 16807 * lo - 2836 * hi;
      assert Int32(x);
      if x < 0 {
        x := x + 0x7fff_ffff;
      }
      next := x;
      return x - 1;
    }

    /** mySrand */
    method MySrand(seed: int)
      requires 0 <= seed < 0x1_0000_0000
      modifies this
      ensures next == SeedState(seed)
    {
      next := ToInt32(seed);
      next := TMod(next, 0x7fff_fffe) + 1;
    }
  }

  lemma {:induction false} Schrage(x: int, hi: int, lo: int)
    requires -P < x < P && hi == TDiv(x, 127773) && lo == TMod(x, 127773)
    ensures -127773 < lo < 127773 && -16807 <= hi <= 16807
    ensures var y := 16807 * lo - 2836 * hi;
            -P < y < P && NextState(x) == if y < 0 then y + P else y
  {
    assert x == 127773 * hi + lo;
    assert if x >= 0 then hi >= 0 && lo >= 0 else hi <= 0 && lo <= 0;
    var y := 16807 * lo - 2836 * hi;
    assert 16807 * x == P * hi + y;
    ModUnique(16807 * x, hi, y);
  }

  lemma {:induction false} ModUnique(a: int, q: int, y: int)
    requires a == P * q + y && -P < y < P
    ensures a % P == if y < 0 then y + P else y
  {
    var r := if y < 0 then y + P else y;
    var q' := if y < 0 then q - 1 else q;
    assert a == P * q' + r;
    assert P * (a / P - q') == r - a % P;
  }

  // ----- signatures -----

  const SIGNWORDBITS := 16
  const INDEX_MAX_KEYS := 32

  type Sign = seq<bv16>

  /** The index options: signature length in words, bits per column. */
  datatype Opts = Opts(bloomLength: nat, bitSize: seq<nat>)

  predicate GoodOpts(o: Opts) {
    o.bloomLength > 0 && |o.bitSize| == INDEX_MAX_KEYS
  }

  /** The bit chosen in a state. */
  function BitAt(o: Opts, x: int): (b: int)
    requires GoodOpts(o) && 0 <= x < P
    ensures -1 <= b < o.bloomLength * SIGNWORDBITS && (b == -1 <==> x == 0)
  {
    TModRange(x - 1, o.bloomLength * SIGNWORDBITS);
    TMod(x - 1, o.bloomLength * SIGNWORDBITS)
  }

  lemma {:induction false} TModRange(a: int, n: int)
    requires a >= -1 && n > 1
    ensures TMod(a, n) == if a == -1 then -1 else a % n
  {
    if a == -1 {
      assert 1 / n == 0;
    }
  }

  /** The bit of turn `n`, counted from 1, when the loop starts in state `x`. */
  function BitNo(o: Opts, x: int, n: nat): (b: int)
    requires GoodOpts(o) && -P < x < P && n > 0
    ensures -1 <= b < o.bloomLength * SIGNWORDBITS
  {
    NeverZero(x, n);
    BitAt(o, StateAfter(x, n))
  }

  /** The bits in closed form: turn `n` takes the n-th power of 16807. */
  lemma {:induction false} BitNoIs(o: Opts, x: int, n: nat)
    requires GoodOpts(o) && -P < x < P && x != 0 && n > 0
    ensures BitNo(o, x, n) == ((Power(n) * x) % P - 1) % (o.bloomLength * SIGNWORDBITS)
  {
    StateIs(x, n);
    NeverZero(x, n);
    hide StateAfter, Power;
    TModRange(StateAfter(x, n) - 1, o.bloomLength * SIGNWORDBITS);
  }

  /** The bits of a word that SETBIT sets. A shift by -1 has no meaning in C;
      `odd` stands for what the platform makes of it. */
  function WordMask(b: int, odd: bv16): bv16
    requires b >= -1
  {
    if b == -1 then odd else BitMask(b % SIGNWORDBITS)
  }

  function BitMask(k: nat): bv16
    requires k < SIGNWORDBITS
  {
    (1 as bv16) << k
  }

  /** Bitwise or, and its order: every bit of `b` is in `a`. */
  function WordOr(a: bv16, b: bv16): bv16 {
    a | b
  }

  predicate WordCovers(a: bv16, b: bv16) {
    a & b == b
  }

  function SetBit(s: Sign, b: int, odd: bv16): (r: Sign)
    requires s != [] && -1 <= b < |s| * SIGNWORDBITS
    ensures |r| == |s|
  {
    var w := TDiv(b, SIGNWORDBITS);
    s[w := WordOr(s[w], WordMask(b, odd))]
  }

  /** Whether a bit of the signature is set. */
  predicate GetBit(s: Sign, b: nat)
    requires b < |s| * SIGNWORDBITS
  {
    WordCovers(s[b / SIGNWORDBITS], WordMask(b, 0))
  }

  /** Setting a bit sets that bit and leaves the others as they are. */
  lemma {:induction false} SetBitSets(s: Sign, b: nat, odd: bv16, j: nat)
    requires b < |s| * SIGNWORDBITS && j < |s| * SIGNWORDBITS
    ensures GetBit(SetBit(s, b, odd), j) <==> j == b || GetBit(s, j)
  {
    var w, x := b / SIGNWORDBITS, s[b / SIGNWORDBITS];
    hide WordOr, WordCovers, BitMask;
    if j / SIGNWORDBITS == w {
      MaskBits(x, b % SIGNWORDBITS, j % SIGNWORDBITS);
    }
  }

  lemma {:induction false} MaskBits(x: bv16, b: nat, j: nat)
    requires b < SIGNWORDBITS && j < SIGNWORDBITS
    ensures WordCovers(WordOr(x, BitMask(b)), BitMask(j)) <==> j == b || WordCovers(x, BitMask(j))
  {
    OneBit(b);
    OneBit(j);
  }

  /** The sixteen masks. */
  lemma {:induction false} OneBit(b: nat)
    requires b < SIGNWORDBITS
    ensures BitMask(b) == [0x1, 0x2, 0x4, 0x8, 0x10, 0x20, 0x40, 0x80, 0x100, 0x200, 0x400, 0x800, 0x1000,
                                 0x2000, 0x4000, 0x8000][b]
  {
  }

  function Zeros(n: nat): (s: Sign)
    ensures |s| == n && forall i :: 0 <= i < n ==> s[i] == 0
  {
    seq(n, _ => 0)
  }

  /** The signature after `n` more bits from state `x`. */
  function SignFrom(o: Opts, s: Sign, x: int, n: nat, odd: bv16): (r: Sign)
    requires GoodOpts(o) && |s| == o.bloomLength && -P < x < P
    ensures |r| == |s|
  {
    if n == 0 then s
    else SetBit(SignFrom(o, s, x, n - 1, odd), BitNo(o, x, n), odd)
  }

  /** A 32-bit hash value. */
  type Hash = h: int | 0 <= h < 0x1_0000_0000

  function Mix(hash: Hash, r: int): (seed: int)
    requires 0 <= r < 0x8000_0000
    ensures 0 <= seed < 0x1_0000_0000
  {
    Power32();
    XorBelow(hash, r, 32);
    Xor(hash, r)
  }

  /** The seed made from the column number and the value's hash. */
  function Seed(attno: nat, hash: Hash): (seed: int)
    requires attno < INDEX_MAX_KEYS
    ensures 0 <= seed < 0x1_0000_0000
  {
    SeedStates(attno);
    ZeroOnlyFromZero(SeedState(attno));
    Mix(hash, NextState(SeedState(attno)) - 1)
  }

  /** The first random number of column `attno`. */
  lemma {:induction false} FirstRandom(attno: nat)
    requires attno < INDEX_MAX_KEYS
    ensures NextState(SeedState(attno)) == 16807 * (attno + 1)
  {
    assert SeedState(attno) == attno + 1;
  }

  /** The seed spelled out. */
  lemma {:induction false} SeedIs(attno: nat, hash: Hash)
    requires attno < INDEX_MAX_KEYS
    ensures Seed(attno, hash) == Xor(hash, 16807 * (attno + 1) - 1)
  {
    FirstRandom(attno);
    hide NextState, SeedState, Xor;
  }

  /** One hash gives different columns different seeds ... */
  lemma {:induction false} ColumnsDiffer(i: nat, j: nat, hash: Hash)
    requires i < j < INDEX_MAX_KEYS
    ensures Seed(i, hash) != Seed(j, hash)
  {
    hide *;
    var x, y := 16807 * (i + 1) - 1, 16807 * (j + 1) - 1;
    SeedIs(i, hash);
    SeedIs(j, hash);
    XorFlip(hash, x);
    XorFlip(hash, y);
    XorCancels(x, hash);
    XorCancels(y, hash);
  }

  /** ... and in one column every seed comes from exactly one hash. */
  lemma {:induction false} HashesDiffer(attno: nat, g: Hash, h: Hash)
    requires attno < INDEX_MAX_KEYS && g != h
    ensures Seed(attno, g) != Seed(attno, h)
  {
    hide *;
    SeedIs(attno, g);
    SeedIs(attno, h);
    XorCancels(g, 16807 * (attno + 1) - 1);
    XorCancels(h, 16807 * (attno + 1) - 1);
  }

  lemma {:induction false} HashFor(attno: nat, seed: Hash) returns (hash: Hash)
    requires attno < INDEX_MAX_KEYS
    ensures Seed(attno, hash) == seed
  {
    var x := 16807 * (attno + 1) - 1;
    assert x < 0x8000_0000;
    hide *;
    hash := Mix(seed, x);
    MixIs(seed, x);
    SeedIs(attno, hash);
    XorCancels(seed, x);
  }

  lemma {:induction false} MixIs(hash: Hash, r: int)
    requires 0 <= r < 0x8000_0000
    ensures Mix(hash, r) == Xor(hash, r)
  {
  }

  /** What signing a column adds to a signature. */
  function ColumnSign(o: Opts, s: Sign, attno: nat, hash: Hash, odd: bv16): (r: Sign)
    requires GoodOpts(o) && |s| == o.bloomLength && attno < INDEX_MAX_KEYS
    ensures |r| == |s|
  {
    SignFrom(o, s, SeedState(Seed(attno, hash)), o.bitSize[attno], odd)
  }

  /** signValue */
  method SignValue(g: Generator, o: Opts, sign: array<bv16>, attno: nat, hash: Hash, odd: bv16)
    requires GoodOpts(o) && sign.Length == o.bloomLength && attno < INDEX_MAX_KEYS
    modifies g, sign
    ensures sign[..] == ColumnSign(o, old(sign[..]), attno, hash, odd)
  {
    SeedStates(attno);
    ZeroOnlyFromZero(SeedState(attno));
    g.MySrand(attno);
    var r := g.MyRand();
    var seed := Mix(hash, r);
    assert seed == Seed(attno, hash);
    hide *;
    g.MySrand(seed);
    AddBits(g, o, sign, o.bitSize[attno], odd, SeedState(seed));
    ColumnIs(o, old(sign[..]), attno, hash, odd);
  }

  lemma {:induction false} ColumnIs(o: Opts, s: Sign, attno: nat, hash: Hash, odd: bv16)
    requires GoodOpts(o) && |s| == o.bloomLength && attno < INDEX_MAX_KEYS
    ensures ColumnSign(o, s, attno, hash, odd) == SignFrom(o, s, SeedState(Seed(attno, hash)), o.bitSize[attno], odd)
  {
  }

  /** The loop of signValue. */
  method AddBits(g: Generator, o: Opts, sign: array<bv16>, bits: nat, odd: bv16, ghost x: int)
    requires GoodOpts(o) && sign.Length == o.bloomLength && -P < g.next < P && x == g.next
    modifies g, sign
    ensures sign[..] == SignFrom(o, old(sign[..]), x, bits, odd)
  {
    ghost var s := sign[..];
    StateZero(x);
    hide NextState, StateAfter, BitNo, SetBit, TMod;
    for j := 0 to bits
      invariant -P < g.next < P && g.next == StateAfter(x, j)
      invariant sign[..] == SignFrom(o, s, x, j, odd)
    {
      StateNext(x, j);
      var rnd := g.MyRand();
      var nBit := TMod(rnd, o.bloomLength * SIGNWORDBITS);
      BitIs(o, x, j + 1, nBit);
      PutBit(sign, nBit, odd);
    }
  }

  lemma {:induction false} StateZero(x: int)
    ensures StateAfter(x, 0) == x
  {
  }

  lemma {:induction false} StateNext(x: int, j: nat)
    ensures StateAfter(x, j + 1) == NextState(StateAfter(x, j))
  {
  }

  lemma {:induction false} BitIs(o: Opts, x: int, n: nat, b: int)
    requires GoodOpts(o) && -P < x < P && n > 0 && b == TMod(StateAfter(x, n) - 1, o.bloomLength * SIGNWORDBITS)
    ensures b == BitNo(o, x, n)
  {
  }

  /** SETBIT */
  method PutBit(sign: array<bv16>, b: int, odd: bv16)
    requires sign.Length > 0 && -1 <= b < sign.Length * SIGNWORDBITS
    modifies sign
    ensures sign[..] == SetBit(old(sign[..]), b, odd)
  {
    var w := TDiv(b, SIGNWORDBITS);
    sign[w] := WordOr(sign[w], WordMask(b, odd));
  }

  /** Every bit lies within the signature, for all of the loop, exactly when the
      seed is not one of two values. */
  lemma {:induction false} BitsInRange(o: Opts, attno: nat, hash: Hash, n: nat)
    requires GoodOpts(o) && attno < INDEX_MAX_KEYS && n > 0
    ensures BitNo(o, SeedState(Seed(attno, hash)), n) >= 0
            <==> Seed(attno, hash) != 0xffff_ffff && Seed(attno, hash) != 0x8000_0001
  {
    SeedStates(Seed(attno, hash));
    NeverZero(SeedState(Seed(attno, hash)), n);
    hide Seed, SeedState, StateAfter;
  }

  /** In every column some hash leads to a bad seed, and then no bit lies within
      the signature. */
  lemma {:induction false} BadHash(o: Opts, attno: nat) returns (hash: Hash)
    requires GoodOpts(o) && attno < INDEX_MAX_KEYS
    ensures Seed(attno, hash) == 0xffff_ffff
    ensures forall n: nat :: n > 0 ==> BitNo(o, SeedState(Seed(attno, hash)), n) == -1
  {
    hash := HashFor(attno, 0xffff_ffff);
    hide Seed;
    forall n: nat | n > 0
      ensures BitNo(o, SeedState(Seed(attno, hash)), n) == -1
    {
      BitsInRange(o, attno, hash, n);
    }
  }

  // ----- signatures as sets of bits -----

  /** The loop of signValue sets the bits its turns choose, and no other. */
  lemma {:induction false} SignBits(o: Opts, s: Sign, x: int, n: nat, odd: bv16, j: nat)
    requires GoodOpts(o) && |s| == o.bloomLength && -P < x < P && j < |s| * SIGNWORDBITS
    requires forall k: nat :: 1 <= k <= n ==> BitNo(o, x, k) >= 0
    ensures GetBit(SignFrom(o, s, x, n, odd), j) <==>
            GetBit(s, j) || exists k: nat :: 1 <= k <= n && BitNo(o, x, k) == j
  {
    hide GetBit, SetBit, BitNo;
    if n > 0 {
      SignBits(o, s, x, n - 1, odd, j);
      SetBitSets(SignFrom(o, s, x, n - 1, odd), BitNo(o, x, n), odd, j);
    }
  }

  /** A column sets exactly its own bits, whatever a bad shift would do, when its
      seed is neither of the two bad ones. */
  lemma {:induction false} ColumnBits(o: Opts, s: Sign, attno: nat, hash: Hash, odd: bv16, j: nat)
    requires GoodOpts(o) && |s| == o.bloomLength && attno < INDEX_MAX_KEYS && j < |s| * SIGNWORDBITS
    requires Seed(attno, hash) != 0xffff_ffff && Seed(attno, hash) != 0x8000_0001
    ensures GetBit(ColumnSign(o, s, attno, hash, odd), j) <==>
            GetBit(s, j) ||
            exists k: nat :: 1 <= k <= o.bitSize[attno] && BitNo(o, SeedState(Seed(attno, hash)), k) == j
  {
    var x := SeedState(Seed(attno, hash));
    SeedStates(Seed(attno, hash));
    hide GetBit, BitNo, Seed, SeedState, SignFrom;
    forall k: nat | 1 <= k <= o.bitSize[attno]
      ensures BitNo(o, x, k) >= 0
    {
      BitsInRange(o, attno, hash, k);
    }
    SignBits(o, s, x, o.bitSize[attno], odd, j);
  }

  function Or(a: Sign, b: Sign): (r: Sign)
    requires |a| == |b|
    ensures |r| == |a| && forall i :: 0 <= i < |a| ==> r[i] == WordOr(a[i], b[i])
  {
    seq(|a|, i requires 0 <= i < |a| => WordOr(a[i], b[i]))
  }

  /** The bits of a column: they depend on its number and hash alone. */
  function ColumnMask(o: Opts, attno: nat, hash: Hash, odd: bv16): (r: Sign)
    requires GoodOpts(o) && attno < INDEX_MAX_KEYS
    ensures |r| == o.bloomLength
  {
    ColumnSign(o, Zeros(o.bloomLength), attno, hash, odd)
  }

  lemma {:induction false} SignIsOr(o: Opts, s: Sign, x: int, n: nat, odd: bv16)
    requires GoodOpts(o) && |s| == o.bloomLength && -P < x < P
    ensures SignFrom(o, s, x, n, odd) == Or(s, SignFrom(o, Zeros(|s|), x, n, odd))
  {
    if n == 0 {
      OrZeros(s);
    } else {
      SignIsOr(o, s, x, n - 1, odd);
      var a, b := SignFrom(o, Zeros(|s|), x, n - 1, odd), BitNo(o, x, n);
      hide SignFrom, BitNo;
      SetBitOr(s, a, b, odd);
    }
  }

  lemma {:induction false} SetBitOr(s: Sign, a: Sign, b: int, odd: bv16)
    requires |s| == |a| > 0 && -1 <= b < |s| * SIGNWORDBITS
    ensures SetBit(Or(s, a), b, odd) == Or(s, SetBit(a, b, odd))
  {
    var w, m := TDiv(b, SIGNWORDBITS), WordMask(b, odd);
    hide WordOr, WordMask, TDiv;
    OrAssoc(s[w], a[w], m);
  }

  lemma {:induction false} OrAssoc(x: bv16, y: bv16, z: bv16)
    ensures WordOr(WordOr(x, y), z) == WordOr(x, WordOr(y, z))
  {
  }

  lemma {:induction false} OrZero(x: bv16)
    ensures WordOr(x, 0) == x && WordCovers(x, 0)
  {
  }

  lemma {:induction false} OrZeros(s: Sign)
    ensures Or(s, Zeros(|s|)) == s
  {
    hide WordOr;
    forall i | 0 <= i < |s|
      ensures WordOr(s[i], 0) == s[i]
    {
      OrZero(s[i]);
    }
  }

  lemma {:induction false} ColumnAdds(o: Opts, s: Sign, attno: nat, hash: Hash, odd: bv16)
    requires GoodOpts(o) && |s| == o.bloomLength && attno < INDEX_MAX_KEYS
    ensures ColumnSign(o, s, attno, hash, odd) == Or(s, ColumnMask(o, attno, hash, odd))
  {
    SignIsOr(o, s, SeedState(Seed(attno, hash)), o.bitSize[attno], odd);
  }

  // ----- rows and scans -----

  /** The signature test of a scan. */
  predicate Covers(t: Sign, s: Sign) {
    |t| == |s| && forall i :: 0 <= i < |s| ==> WordCovers(t[i], s[i])
  }

  /** The hashes of a row's columns; a null column has none. */
  type Row = seq<Option<Hash>>

  function RowSign(o: Opts, row: Row, odd: bv16): (r: Sign)
    requires GoodOpts(o) && |row| <= INDEX_MAX_KEYS
    ensures |r| == o.bloomLength
  {
    if row == [] then Zeros(o.bloomLength)
    else
      var n := |row| - 1;
      var s := RowSign(o, row[..n], odd);
      if row[n].None? then s else ColumnSign(o, s, n, row[n].value, odd)
  }

  lemma {:induction false} RowTake(o: Opts, row: Row, i: nat, odd: bv16)
    requires GoodOpts(o) && i < |row| <= INDEX_MAX_KEYS
    ensures RowSign(o, row[..i + 1], odd) ==
            if row[i].None? then RowSign(o, row[..i], odd)
            else ColumnSign(o, RowSign(o, row[..i], odd), i, row[i].value, odd)
  {
    assert row[..i + 1][..i] == row[..i];
  }

  /** BloomFormTuple */
  method FormSign(g: Generator, o: Opts, row: Row, odd: bv16) returns (sign: array<bv16>)
    requires GoodOpts(o) && |row| <= INDEX_MAX_KEYS
    modifies g
    ensures fresh(sign) && sign[..] == RowSign(o, row, odd)
  {
    sign := new bv16[o.bloomLength](_ => 0);
    assert sign[..] == Zeros(o.bloomLength) && row[..0] == [];
    assert RowSign(o, [], odd) == Zeros(o.bloomLength);
    hide *;
    for i := 0 to |row|
      invariant sign[..] == RowSign(o, row[..i], odd)
    {
      RowTake(o, row, i, odd);
      if row[i].Some? {
        SignValue(g, o, sign, i, row[i].value, odd);
      }
    }
    assert row[..|row|] == row;
  }

  /** A scan key: a column and the hash of the value it must equal; the value
      may be null. */
  datatype ScanKey = ScanKey(attno: nat, hash: Option<Hash>)

  ghost predicate GoodKeys(keys: seq<ScanKey>) {
    forall i :: 0 <= i < |keys| ==> keys[i].attno < INDEX_MAX_KEYS && keys[i].hash.Some?
  }

  function KeysSign(o: Opts, keys: seq<ScanKey>, odd: bv16): (r: Sign)
    requires GoodOpts(o) && forall i :: 0 <= i < |keys| ==> keys[i].attno < INDEX_MAX_KEYS && keys[i].hash.Some?
    ensures |r| == o.bloomLength
  {
    if keys == [] then Zeros(o.bloomLength)
    else
      var n := |keys| - 1;
      ColumnSign(o, KeysSign(o, keys[..n], odd), keys[n].attno, keys[n].hash.value, odd)
  }

  lemma {:induction false} KeysTake(o: Opts, keys: seq<ScanKey>, i: nat, odd: bv16)
    requires GoodOpts(o) && i < |keys| && GoodKeys(keys[..i])
    requires keys[i].attno < INDEX_MAX_KEYS && keys[i].hash.Some?
    ensures GoodKeys(keys[..i + 1])
    ensures KeysSign(o, keys[..i + 1], odd) ==
            ColumnSign(o, KeysSign(o, keys[..i], odd), keys[i].attno, keys[i].hash.value, odd)
  {
    var t := keys[..i + 1];
    assert t[..i] == keys[..i];
    assert forall j :: 0 <= j < i ==> t[j] == keys[..i][j];
  }

  /** The signature of a scan, or nothing when a key is null: no row can match. */
  method ScanSign(g: Generator, o: Opts, keys: seq<ScanKey>, odd: bv16) returns (r: Option<Sign>)
    requires GoodOpts(o) && forall i :: 0 <= i < |keys| ==> keys[i].attno < INDEX_MAX_KEYS
    modifies g
    ensures r.Some? <==> GoodKeys(keys)
    ensures r.Some? ==> r.value == KeysSign(o, keys, odd)
  {
    var sign := new bv16[o.bloomLength](_ => 0);
    assert sign[..] == Zeros(o.bloomLength) && keys[..0] == [];
    assert GoodKeys([]) && KeysSign(o, [], odd) == Zeros(o.bloomLength);
    hide ColumnSign, KeysSign, Zeros;
    for i := 0 to |keys|
      invariant GoodKeys(keys[..i]) && sign[..] == KeysSign(o, keys[..i], odd)
    {
      if keys[i].hash.None? {
        return None;
      }
      KeysTake(o, keys, i, odd);
      SignValue(g, o, sign, keys[i].attno, keys[i].hash.value, odd);
    }
    assert keys[..|keys|] == keys;
    return Some(sign[..]);
  }

  /** The row has the hash of every key in the key's column. */
  ghost predicate Agrees(row: Row, keys: seq<ScanKey>) {
    forall i :: 0 <= i < |keys| ==> keys[i].attno < |row| && keys[i].hash.Some? && row[keys[i].attno] == keys[i].hash
  }

  lemma {:induction false} CoversOr(t: Sign, a: Sign, b: Sign)
    requires |a| == |b| && Covers(t, a) && Covers(t, b)
    ensures Covers(t, Or(a, b))
  {
    hide WordOr, WordCovers;
    forall i | 0 <= i < |a|
      ensures WordCovers(t[i], WordOr(a[i], b[i]))
    {
      AndOr(t[i], a[i], b[i]);
    }
  }

  lemma {:induction false} AndOr(t: bv16, a: bv16, b: bv16)
    requires WordCovers(t, a) && WordCovers(t, b)
    ensures WordCovers(t, WordOr(a, b))
  {
  }

  lemma {:induction false} OrCovers(a: Sign, b: Sign)
    requires |a| == |b|
    ensures Covers(Or(a, b), a) && Covers(Or(a, b), b)
  {
    hide WordOr, WordCovers;
    forall i | 0 <= i < |a|
      ensures WordCovers(WordOr(a[i], b[i]), a[i]) && WordCovers(WordOr(a[i], b[i]), b[i])
    {
      OrAnd(a[i], b[i]);
    }
  }

  lemma {:induction false} OrAnd(a: bv16, b: bv16)
    ensures WordCovers(WordOr(a, b), a) && WordCovers(WordOr(a, b), b)
  {
  }

  lemma {:induction false} CoversTrans(a: Sign, b: Sign, c: Sign)
    requires Covers(a, b) && Covers(b, c)
    ensures Covers(a, c)
  {
    hide WordCovers;
    forall i | 0 <= i < |c|
      ensures WordCovers(a[i], c[i])
    {
      AndTrans(a[i], b[i], c[i]);
    }
  }

  lemma {:induction false} AndTrans(a: bv16, b: bv16, c: bv16)
    requires WordCovers(a, b) && WordCovers(b, c)
    ensures WordCovers(a, c)
  {
  }

  lemma {:induction false} RowGrows(o: Opts, row: Row, odd: bv16)
    requires GoodOpts(o) && 0 < |row| <= INDEX_MAX_KEYS
    ensures var n := |row| - 1;
            && Covers(RowSign(o, row, odd), RowSign(o, row[..n], odd))
            && (row[n].Some? ==> Covers(RowSign(o, row, odd), ColumnMask(o, n, row[n].value, odd)))
  {
    var n := |row| - 1;
    var s := RowSign(o, row[..n], odd);
    RowTake(o, row, n, odd);
    assert row[..n + 1] == row;
    hide *;
    if row[n].Some? {
      ColumnAdds(o, s, n, row[n].value, odd);
      OrCovers(s, ColumnMask(o, n, row[n].value, odd));
    } else {
      CoversSelf(s);
    }
  }

  lemma {:induction false} CoversSelf(s: Sign)
    ensures Covers(s, s)
  {
    OrZeros(s);
    OrCovers(s, Zeros(|s|));
  }

  /** A row's signature has the bits of each of its columns. */
  lemma {:induction false} RowCovers(o: Opts, row: Row, i: nat, odd: bv16)
    requires GoodOpts(o) && |row| <= INDEX_MAX_KEYS && i < |row| && row[i].Some?
    ensures Covers(RowSign(o, row, odd), ColumnMask(o, i, row[i].value, odd))
  {
    hide *;
    var n := |row| - 1;
    RowGrows(o, row, odd);
    if i < n {
      RowCovers(o, row[..n], i, odd);
      CoversTrans(RowSign(o, row, odd), RowSign(o, row[..n], odd), ColumnMask(o, i, row[i].value, odd));
    }
  }

  /** No false negatives: a row that agrees with the keys passes the test,
      whatever the hashes are. */
  lemma {:induction false} AgreeingRowPasses(o: Opts, row: Row, keys: seq<ScanKey>, odd: bv16)
    requires GoodOpts(o) && |row| <= INDEX_MAX_KEYS && Agrees(row, keys)
    ensures Covers(RowSign(o, row, odd), KeysSign(o, keys, odd))
  {
    if keys == [] {
      ZerosCovered(RowSign(o, row, odd));
    } else {
      var n := |keys| - 1;
      var k, s := keys[n], KeysSign(o, keys[..n], odd);
      AgreeingRowPasses(o, row, keys[..n], odd);
      RowCovers(o, row, k.attno, odd);
      ColumnAdds(o, s, k.attno, k.hash.value, odd);
      hide Covers, ColumnMask, ColumnSign, Or, RowSign;
      CoversOr(RowSign(o, row, odd), s, ColumnMask(o, k.attno, k.hash.value, odd));
    }
  }

  lemma {:induction false} ZerosCovered(t: Sign)
    ensures Covers(t, Zeros(|t|))
  {
    hide WordCovers;
    forall i | 0 <= i < |t|
      ensures WordCovers(t[i], 0)
    {
      OrZero(t[i]);
    }
  }

  /** The word loop of the scan. */
  method Test(t: Sign, s: Sign) returns (res: bool)
    requires |t| == |s|
    ensures res <==> Covers(t, s)
  {
    hide WordCovers;
    for i := 0 to |s|
      invariant forall j :: 0 <= j < i ==> WordCovers(t[j], s[j])
    {
      if !WordCovers(t[i], s[i]) {
        return false;
      }
    }
    return true;
  }

  // ----- exactly which bits are set -----

  predicate WordMisses(a: bv16, b: bv16) {
    a & b == 0
  }

  lemma {:induction false} OrMask(x: bv16, y: bv16, k: nat)
    requires k < SIGNWORDBITS
    ensures WordCovers(WordOr(x, y), BitMask(k)) <==> WordCovers(x, BitMask(k)) || WordCovers(y, BitMask(k))
    ensures !WordCovers(0, BitMask(k))
  {
    hide *;
    var m := BitMask(k);
    LoneBit(x, k);
    LoneBit(y, k);
    OrAnd(x, y);
    MissNot(0, m);
    if WordCovers(x, m) {
      AndTrans(WordOr(x, y), x, m);
    } else if WordCovers(y, m) {
      AndTrans(WordOr(x, y), y, m);
    } else {
      MissBoth(x, y, m);
      MissNot(WordOr(x, y), m);
    }
  }

  lemma {:induction false} LoneBit(x: bv16, k: nat)
    requires k < SIGNWORDBITS
    ensures BitMask(k) != 0 && (WordCovers(x, BitMask(k)) || WordMisses(x, BitMask(k)))
  {
    OneBit(k);
    hide BitMask;
  }

  lemma {:induction false} MissBoth(x: bv16, y: bv16, m: bv16)
    requires WordMisses(x, m) && WordMisses(y, m)
    ensures WordMisses(WordOr(x, y), m)
  {
  }

  lemma {:induction false} MissNot(x: bv16, m: bv16)
    requires m != 0
    ensures WordMisses(0, m) && (WordMisses(x, m) ==> !WordCovers(x, m))
  {
  }

  lemma {:induction false} OrBit(a: Sign, b: Sign, j: nat)
    requires |a| == |b| && j < |a| * SIGNWORDBITS
    ensures GetBit(Or(a, b), j) <==> GetBit(a, j) || GetBit(b, j)
  {
    hide WordOr, WordCovers, BitMask;
    OrMask(a[j / SIGNWORDBITS], b[j / SIGNWORDBITS], j % SIGNWORDBITS);
  }

  lemma {:induction false} NoBit(n: nat, j: nat)
    requires j < n * SIGNWORDBITS
    ensures !GetBit(Zeros(n), j)
  {
    hide WordCovers, BitMask;
    OrMask(0, 0, j % SIGNWORDBITS);
  }

  /** A row's signature has exactly the bits of its columns that are not null. */
  lemma {:induction false} RowBits(o: Opts, row: Row, odd: bv16, j: nat)
    requires GoodOpts(o) && |row| <= INDEX_MAX_KEYS && j < o.bloomLength * SIGNWORDBITS
    ensures GetBit(RowSign(o, row, odd), j) <==>
            exists i :: 0 <= i < |row| && row[i].Some? && GetBit(ColumnMask(o, i, row[i].value, odd), j)
  {
    hide ColumnSign, ColumnMask, GetBit, Zeros;
    if row == [] {
      NoBit(o.bloomLength, j);
    } else {
      var n := |row| - 1;
      RowBits(o, row[..n], odd, j);
      if row[n].Some? {
        var s := RowSign(o, row[..n], odd);
        ColumnAdds(o, s, n, row[n].value, odd);
        OrBit(s, ColumnMask(o, n, row[n].value, odd), j);
      }
      assert forall i :: 0 <= i < n ==> row[..n][i] == row[i];
    }
  }

  /** A scan's signature has exactly the bits of its keys. */
  lemma {:induction false} KeysBits(o: Opts, keys: seq<ScanKey>, odd: bv16, j: nat)
    requires GoodOpts(o) && forall i :: 0 <= i < |keys| ==> keys[i].attno < INDEX_MAX_KEYS && keys[i].hash.Some?
    requires j < o.bloomLength * SIGNWORDBITS
    ensures GetBit(KeysSign(o, keys, odd), j) <==>
            exists i :: 0 <= i < |keys| && GetBit(ColumnMask(o, keys[i].attno, keys[i].hash.value, odd), j)
  {
    hide ColumnSign, ColumnMask, GetBit, Zeros;
    if keys == [] {
      NoBit(o.bloomLength, j);
    } else {
      var n := |keys| - 1;
      var k, s := keys[n], KeysSign(o, keys[..n], odd);
      KeysBits(o, keys[..n], odd, j);
      ColumnAdds(o, s, k.attno, k.hash.value, odd);
      OrBit(s, ColumnMask(o, k.attno, k.hash.value, odd), j);
      assert forall i :: 0 <= i < n ==> keys[..n][i] == keys[i];
    }
  }

  /** The test decides whether every bit is there. */
  lemma {:induction false} CoversBits(t: Sign, s: Sign)
    requires |t| == |s|
    ensures Covers(t, s) <==> forall j: nat :: j < |s| * SIGNWORDBITS && GetBit(s, j) ==> GetBit(t, j)
  {
    hide WordCovers, BitMask;
    if Covers(t, s) {
      forall j: nat | j < |s| * SIGNWORDBITS && GetBit(s, j)
        ensures GetBit(t, j)
      {
        AndTrans(t[j / SIGNWORDBITS], s[j / SIGNWORDBITS], BitMask(j % SIGNWORDBITS));
      }
    }
    if forall j: nat :: j < |s| * SIGNWORDBITS && GetBit(s, j) ==> GetBit(t, j) {
      forall i | 0 <= i < |s|
        ensures WordCovers(t[i], s[i])
      {
        forall k: nat | k < SIGNWORDBITS && WordCovers(s[i], BitMask(k))
          ensures WordCovers(t[i], BitMask(k))
        {
          var j := SIGNWORDBITS * i + k;
          assert j / SIGNWORDBITS == i && j % SIGNWORDBITS == k;
          assert GetBit(s, j);
        }
        AllMasks(t[i], s[i]);
      }
    }
  }

  lemma {:induction false} AllMasks(x: bv16, y: bv16)
    requires forall k: nat :: k < SIGNWORDBITS && WordCovers(y, BitMask(k)) ==> WordCovers(x, BitMask(k))
    ensures WordCovers(x, y)
  {
    forall k: nat | k < SIGNWORDBITS
      ensures y & BitMask(k) == BitMask(k) ==> x & BitMask(k) == BitMask(k)
    {
      assert WordCovers(y, BitMask(k)) ==> WordCovers(x, BitMask(k));
    }
    Masks(0);
    Masks(4);
    Masks(8);
    Masks(12);
    hide BitMask;
    var m := [BitMask(0), BitMask(1), BitMask(2), BitMask(3), BitMask(4), BitMask(5), BitMask(6), BitMask(7),
              BitMask(8), BitMask(9), BitMask(10), BitMask(11), BitMask(12), BitMask(13), BitMask(14), BitMask(15)];
  }

  lemma {:induction false} Masks(k: nat)
    requires k == 0 || k == 4 || k == 8 || k == 12
    ensures k == 0 ==> BitMask(0) == 0x1 && BitMask(1) == 0x2 && BitMask(2) == 0x4 && BitMask(3) == 0x8
    ensures k == 4 ==> BitMask(4) == 0x10 && BitMask(5) == 0x20 && BitMask(6) == 0x40 && BitMask(7) == 0x80
    ensures k == 8 ==> BitMask(8) == 0x100 && BitMask(9) == 0x200 && BitMask(10) == 0x400 && BitMask(11) == 0x800
    ensures k == 12 ==>
              BitMask(12) == 0x1000 && BitMask(13) == 0x2000 && BitMask(14) == 0x4000 && BitMask(15) == 0x8000
  {
  }
}
