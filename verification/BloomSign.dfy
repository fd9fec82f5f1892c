/** Signatures of the Bloom access method: which bits a column value sets, and the words they are kept
    in (contrib/bloom/blutils.c, contrib/bloom/bloom.h). */
module BloomSign {
  import opened BloomRand

  const WORD_BITS: nat := 16
  const INDEX_MAX_KEYS: nat := 32

  /** Options frozen in the meta page: signature length in words, and bits drawn per column. */
  datatype Options = Options(bloomLength: nat, bitSize: seq<nat>)
  {
    predicate Ok() {
      1 <= bloomLength <= 256 && |bitSize| == INDEX_MAX_KEYS
    }

    function Length(): nat { bloomLength * WORD_BITS }
  }

  /** The hash functions of the columns are arbitrary. */
  datatype BloomState = BloomState(opts: Options, nColumns: nat, hash: (nat, int) -> nat)
  {
    predicate Ok() { opts.Ok() && nColumns <= INDEX_MAX_KEYS }
  }

  // ---------------------------------------------------------------- words

  /** A uint16, lowest bit first. */
  type Word = w: seq<bool> | |w| == 16 witness seq(16, i => false)

  const ZERO_WORD: Word := seq(16, i => false)

  function And(a: Word, b: Word): (r: Word)
    ensures forall i | 0 <= i < 16 :: r[i] == (a[i] && b[i])
  {
    seq(16, i requires 0 <= i < 16 => a[i] && b[i])
  }

  /** The bits set in a signature, numbered across its words. */
  ghost function Bits(sign: seq<Word>): set<nat> {
    set b: nat | b < WORD_BITS * |sign| && sign[b / WORD_BITS][b % WORD_BITS]
  }

  /** The word test of the scan, over a whole signature, is inclusion of bits. */
  lemma WordsInclude(t: seq<Word>, q: seq<Word>)
    requires |t| == |q|
    ensures (forall k | 0 <= k < |q| :: And(t[k], q[k]) == q[k]) <==> Bits(q) <= Bits(t)
  {
    if Bits(q) <= Bits(t) {
      forall k | 0 <= k < |q| ensures And(t[k], q[k]) == q[k] {
        forall i | 0 <= i < 16 ensures q[k][i] ==> t[k][i] {
          var b := k * WORD_BITS + i;
          assert b / WORD_BITS == k && b % WORD_BITS == i;
          if q[k][i] { assert b in Bits(q); }
        }
      }
    } else {
      var b :| b in Bits(q) && b !in Bits(t);
      assert And(t[b / WORD_BITS], q[b / WORD_BITS])[b % WORD_BITS] != q[b / WORD_BITS][b % WORD_BITS];
    }
  }

  lemma SetBitAdds(sign: seq<Word>, b: nat)
    requires b < WORD_BITS * |sign|
    ensures var k := b / WORD_BITS;
            Bits(sign[k := sign[k][b % WORD_BITS := true]]) == Bits(sign) + {b}
  {
    var k := b / WORD_BITS;
    var after := sign[k := sign[k][b % WORD_BITS := true]];
    forall c: nat | c < WORD_BITS * |sign| && c != b
      ensures after[c / WORD_BITS][c % WORD_BITS] == sign[c / WORD_BITS][c % WORD_BITS]
    {
      assert c == c / WORD_BITS * WORD_BITS + c % WORD_BITS;
      assert b == k * WORD_BITS + b % WORD_BITS;
    }
  }

  // ---------------------------------------------------------------- bits drawn for a value

  function Pow2(n: nat): nat { if n == 0 then 1 else 2 * Pow2(n - 1) }

  /** Exclusive or of the lowest n bits. */
  function Xor(a: nat, b: nat, n: nat): (r: nat)
    ensures r < Pow2(n)
    decreases n
  {
    if n == 0 then 0 else 2 * Xor(a / 2, b / 2, n - 1) + (a % 2 + b % 2) % 2
  }

  /** hashVal ^ myRand() on uint32 */
  function XorSeed(hash: nat, first: nat): (seed: nat)
    ensures seed < 0x1_0000_0000
  {
    FourBytes();
    Xor(hash, first, 32)
  }

  /** The seed of a value's bit sequence, drawn from the column number and the hash. */
  function ValueSeed(col: nat, hash: nat): (seed: nat)
    requires col < INDEX_MAX_KEYS
    ensures seed < 0x1_0000_0000
  {
    StepInRange(Seeded(col));
    XorSeed(hash, Successor(Seeded(col)) - 1)
  }

  /** The next n bit numbers from generator state x. */
  function Draws(x: int, n: nat, length: nat): seq<int>
    requires length > 0
    decreases n
  {
    if n == 0 then [] else [CMod(Successor(x) - 1, length)] + Draws(Successor(x), n - 1, length)
  }

  function ValueDraws(state: BloomState, col: nat, value: int): seq<int>
    requires state.Ok() && col < INDEX_MAX_KEYS
  {
    Draws(Seeded(ValueSeed(col, state.hash(col, value))), state.opts.bitSize[col], state.opts.Length())
  }

  function Power(x: nat, n: nat): nat { if n == 0 then 1 else x * Power(x, n - 1) }

  /** The j-th bit number of a value: a power of the multiplier times the state seeded from the hash and from the first
      number the column number leads to. */
  function Draw(state: BloomState, col: nat, value: int, j: nat): int
    requires state.Ok() && col < INDEX_MAX_KEYS
  {
    var seed := XorSeed(state.hash(col, value), 16807 * (col + 1) - 1);
    CMod((Power(16807, j + 1) * Seeded(seed)) % 0x7fff_ffff - 1, 16 * state.opts.bloomLength)
  }

  lemma ModTwice(a: nat, x: int)
    ensures (a * (x % MODULUS)) % MODULUS == (a * x) % MODULUS
  {
    var q, r := x / MODULUS, x % MODULUS;
    assert x == q * MODULUS + r;
    var p, s := (a * r) / MODULUS, (a * r) % MODULUS;
    assert a * x == a * (q * MODULUS) + a * r;
    assert a * (q * MODULUS) == (a * q) * MODULUS;
    SameResidue(a * x, a * q + p, s);
  }

  lemma {:induction false} DrawsAre(x: int, n: nat, length: nat, j: nat)
    requires length > 0 && j < n
    ensures |Draws(x, n, length)| == n
    ensures Draws(x, n, length)[j] == CMod((Power(MULTIPLIER, j + 1) * x) % MODULUS - 1, length)
    decreases n
  {
    hide CMod;
    if j > 0 {
      DrawsAre(Successor(x), n - 1, length, j - 1);
      var y, a := MULTIPLIER * x, Power(MULTIPLIER, j);
      ModTwice(a, y);
      assert a * y == (MULTIPLIER * a) * x;
    } else {
      DrawsLength(x, n, length);
      assert Power(MULTIPLIER, 1) == MULTIPLIER;
    }
  }

  lemma {:induction false} DrawsLength(x: int, n: nat, length: nat)
    requires length > 0
    ensures |Draws(x, n, length)| == n
    decreases n
  {
    if n > 0 { DrawsLength(Successor(x), n - 1, length); }
  }

  /** A value has as many draws as its column has bits, and each is that power of the multiplier. */
  lemma ValueDrawsAre(state: BloomState, col: nat, value: int, j: nat)
    requires state.Ok() && col < INDEX_MAX_KEYS && j < state.opts.bitSize[col]
    ensures |ValueDraws(state, col, value)| == state.opts.bitSize[col]
    ensures ValueDraws(state, col, value)[j] == Draw(state, col, value, j)
  {
    hide CMod, XorSeed;
    FirstDraw(col);
    var seed := ValueSeed(col, state.hash(col, value));
    DrawsAre(Seeded(seed), state.opts.bitSize[col], state.opts.Length(), j);
  }

  lemma FirstDraw(col: nat)
    requires col < INDEX_MAX_KEYS
    ensures Successor(Seeded(col)) - 1 == 16807 * (col + 1) - 1
  {
  }

  /** The bits of a value are its draws that fall inside the signature. */
  lemma ValueBitsAre(state: BloomState, col: nat, value: int, b: nat)
    requires state.Ok() && col < INDEX_MAX_KEYS
    ensures b in ValueBits(state, col, value) <==>
              b < 16 * state.opts.bloomLength &&
              exists j: nat | j < state.opts.bitSize[col] :: Draw(state, col, value, j) == b
  {
    hide Draw, Draws;
    var draws := ValueDraws(state, col, value);
    DrawsLength(Seeded(ValueSeed(col, state.hash(col, value))), state.opts.bitSize[col], state.opts.Length());
    forall j: nat | j < |draws| ensures draws[j] == Draw(state, col, value, j) { ValueDrawsAre(state, col, value, j); }
  }

  /** What the bits mean: the column and the value decide them, through the hash. */
  ghost function ValueBits(state: BloomState, col: nat, value: int): set<nat>
    requires state.Ok() && col < INDEX_MAX_KEYS
  {
    set b: nat | b < state.opts.Length() && b in ValueDraws(state, col, value)
  }

  /** The bits drawn from a seed all lie inside the signature, unless it is one of the two bad seeds,
      and then none does. */
  lemma {:induction false} DrawsInside(x: int, n: nat, length: nat)
    requires -MODULUS < x < MODULUS && length > 1
    ensures forall b | b in Draws(x, n, length) :: if x == 0 then b == -1 else 0 <= b < length
    decreases n
  {
    StepInRange(x);
    if n > 0 { DrawsInside(Successor(x), n - 1, length); }
  }

  lemma ValueDrawsInside(state: BloomState, col: nat, value: int)
    requires state.Ok() && col < INDEX_MAX_KEYS && state.opts.bitSize[col] >= 1
    ensures (forall b | b in ValueDraws(state, col, value) :: 0 <= b < state.opts.Length()) <==>
              ValueSeed(col, state.hash(col, value)) !in {0xFFFF_FFFF, 0x8000_0001}
  {
    var seed := ValueSeed(col, state.hash(col, value));
    BadSeeds(seed);
    DrawsInside(Seeded(seed), state.opts.bitSize[col], state.opts.Length());
    assert ValueDraws(state, col, value)[0] in ValueDraws(state, col, value);
  }

  lemma XorStep(a: nat, b: nat, n: nat)
    requires n > 0
    ensures Xor(a, b, n) / 2 == Xor(a / 2, b / 2, n - 1) && Xor(a, b, n) % 2 == (a % 2 + b % 2) % 2
  {
  }

  lemma {:induction false} XorCancels(a: nat, b: nat, n: nat)
    requires a < Pow2(n)
    ensures Xor(Xor(a, b, n), b, n) == a
    decreases n
  {
    hide Xor;
    if n == 0 {
      XorNothing(Xor(a, b, n), b);
    } else {
      var x := Xor(a, b, n);
      XorStep(a, b, n);
      XorStep(x, b, n);
      XorCancels(a / 2, b / 2, n - 1);
    }
  }

  lemma XorNothing(a: nat, b: nat)
    ensures Xor(a, b, 0) == 0
  {
  }

  lemma {:induction false} XorOnes(a: nat, n: nat)
    requires a < Pow2(n)
    ensures Pow2(n) > 0 && Xor(Pow2(n) - 1, a, n) == Pow2(n) - 1 - a
    decreases n
  {
    hide Xor;
    if n == 0 {
      XorNothing(0, a);
    } else {
      XorOnes(a / 2, n - 1);
      var ones, half := Pow2(n) - 1, Pow2(n - 1) - 1;
      assert ones / 2 == half && ones % 2 == 1;
      XorStep(ones, a, n);
      var x := Xor(ones, a, n);
      assert x / 2 == half - a / 2 && x % 2 == 1 - a % 2;
    }
  }

  /** In every column each seed, the bad ones too, comes from exactly one hash value. */
  lemma SeedReached(col: nat, seed: nat, hash: nat)
    requires col < INDEX_MAX_KEYS && seed < 0x1_0000_0000 && hash < 0x1_0000_0000
    ensures ValueSeed(col, hash) == seed <==> hash == ValueSeed(col, seed)
  {
    hide XorSeed, Seeded, Successor;
    SmallSeed(col);
    var first := Successor(Seeded(col)) - 1;
    SeedUndone(seed, first);
    SeedUndone(hash, first);
  }

  lemma SeedUndone(hash: nat, first: nat)
    requires hash < 0x1_0000_0000
    ensures XorSeed(XorSeed(hash, first), first) == hash
  {
    hide Xor, Pow2;
    FourBytes();
    XorCancels(hash, first, 32);
  }

  lemma FourBytes()
    ensures Pow2(32) == 0x1_0000_0000
  {
    assert Pow2(8) == 0x100;
    assert Pow2(16) == 0x1_0000;
    assert Pow2(24) == 0x100_0000;
  }

  /** A hash value of the first column whose bits all fall outside the signature. */
  lemma BadHash(state: BloomState, value: int)
    requires state.Ok() && state.opts.bitSize[0] >= 1 && state.hash(0, value) == 4294950489
    ensures ValueSeed(0, 4294950489) == 0xFFFF_FFFF && ValueBits(state, 0, value) == {}
  {
    hide Xor, Pow2, Draws;
    assert Successor(Seeded(0)) - 1 == 16806;
    FourBytes();
    XorOnes(16806, 32);
    SeedUndone(0xFFFF_FFFF, 16806);
    BadSeeds(0xFFFF_FFFF);
    DrawsInside(Seeded(0xFFFF_FFFF), state.opts.bitSize[0], state.opts.Length());
  }

  ghost function Inside(draws: seq<int>, length: nat): set<nat> { set b: nat | b < length && b in draws }

  /** SETBIT */
  method SetBit(sign: array<Word>, b: nat)
    requires b < WORD_BITS * sign.Length
    modifies sign
    ensures Bits(sign[..]) == old(Bits(sign[..])) + {b}
  {
    var k := b / WORD_BITS;
    SetBitAdds(sign[..], b);
    ghost var after := sign[..][k := sign[k][b % WORD_BITS := true]];
    sign[k] := sign[k][b % WORD_BITS := true];
    assert sign[..] == after;
  }

  /** Draws n bit numbers and sets them.  A draw of -1, which C would shift by, sets no bit. */
  method DrawBits(gen: Generator, sign: array<Word>, n: nat, length: nat)
    requires -MODULUS < gen.next < MODULUS && length == WORD_BITS * sign.Length > 1
    modifies gen, sign
    ensures Bits(sign[..]) == old(Bits(sign[..])) + Inside(Draws(old(gen.next), n, length), length)
  {
    hide Bits, Draws, Successor, CMod;
    ghost var done: seq<int> := [];
    ghost var all := Draws(gen.next, n, length);
    var j := 0;
    while j < n
      invariant 0 <= j <= n && -MODULUS < gen.next < MODULUS
      invariant done + Draws(gen.next, n - j, length) == all
      invariant Bits(sign[..]) == old(Bits(sign[..])) + Inside(done, length)
    {
      DrawsStep(gen.next, n - j, length);
      var r := gen.MyRand();
      var nBit := CMod(r, length);
      if nBit >= 0 { SetBit(sign, nBit); }
      done := done + [nBit];
      j := j + 1;
    }
    DrawsEnd(gen.next, length);
    assert done == all;
  }

  lemma DrawsStep(x: int, n: nat, length: nat)
    requires -MODULUS < x < MODULUS && n > 0 && length > 1
    ensures -MODULUS < Successor(x) < MODULUS
    ensures var d := CMod(Successor(x) - 1, length);
            -1 <= d < length && Draws(x, n, length) == [d] + Draws(Successor(x), n - 1, length)
  {
    StepInRange(x);
  }

  lemma DrawsEnd(x: int, length: nat)
    requires length > 1
    ensures Draws(x, 0, length) == []
  {
  }

  /** signValue: adds the bits of a value to a signature.  The result does not depend on what the
      generator was used for before. */
  method SignValue(gen: Generator, state: BloomState, sign: array<Word>, value: int, col: nat)
    requires state.Ok() && col < INDEX_MAX_KEYS && sign.Length == state.opts.bloomLength
    modifies gen, sign
    ensures Bits(sign[..]) == old(Bits(sign[..])) + ValueBits(state, col, value)
  {
    hide XorSeed, Seeded, Successor, Bits, Draws;
    gen.MySrand(col);
    SmallSeed(col);
    var first := gen.MyRand();
    var seed := XorSeed(state.hash(col, value), first);
    gen.MySrand(seed);
    BadSeeds(seed);
    DrawBits(gen, sign, state.opts.bitSize[col], state.opts.Length());
  }

  lemma SmallSeed(col: nat)
    requires col < INDEX_MAX_KEYS
    ensures 1 <= Successor(Seeded(col)) < MODULUS
  {
    StepInRange(Seeded(col));
  }
}
