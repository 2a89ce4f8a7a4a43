// The random generator seen through rug's `RandGen` interface
// (`zkper-rand`'s `ZkperRng`): one 32-bit word per draw, the top bits of
// a word for a request of fewer than 32 bits, and reseeding from the low
// 64 bits of an integer.
//
// The ChaCha20 key stream behind `next_u32` is not part of this model:
// a generator is a word stream and a position in it, and the stream a
// seed selects is a parameter.

module Rng {
  import opened Ints
  import U32Backend

  type u32 = U32Backend.u32

  const U64_WORD: int := 0x1_0000_0000_0000_0000

  /** A generator: the words it will produce, and how many it has used. */
  datatype Generator = Generator(words: nat -> u32, position: nat)

  /** `next_u32`: the next word of the stream. */
  function Next(g: Generator): (u32, Generator)
  {
    (g.words(g.position), g.(position := g.position + 1))
  }

  /** `gen`: the word at the current position; the generator moves on by
   *  one word and keeps its stream. */
  function Gen(g: Generator): (r: (u32, Generator))
    ensures r.0 == g.words(g.position)
    ensures r.1.words == g.words && r.1.position == g.position + 1
  {
    Next(g)
  }

  /** `gen_bits`: no bits take nothing from the stream and give 0; fewer
   *  than 32 bits are the top bits of the next word; 32 or more are the
   *  whole word. */
  function GenBits(g: Generator, bits: u32): (r: (u32, Generator))
    ensures bits == 0 ==> r == (0, g)
    ensures bits > 0 ==> r.1 == Next(g).1
    ensures 0 < bits < 32 ==> r.0 < Pow2(bits)
    ensures 0 < bits < 32 ==>
              r.0 * Pow2(32 - bits) <= Next(g).0 < (r.0 + 1) * Pow2(32 - bits)
    ensures bits >= 32 ==> r.0 == Next(g).0
  {
    if bits == 0 then (0, g)
    else if bits < 32 then
      var (w, g') := Next(g);
      U32Backend.FloorDiv(w, Pow2(32 - bits));
      TopBitsBound(w, bits);
      ((w / Pow2(32 - bits)) as u32, g')
    else Next(g)
  }

  /** The top `bits` bits of a word are below 2^bits. */
  lemma TopBitsBound(w: u32, bits: nat)
    requires 0 < bits < 32
    ensures w / Pow2(32 - bits) < Pow2(bits)
  {
    Pow2Add(32 - bits, bits);
    U32Backend.WordIsPowerOfTwo();
    QuotientBound(w, Pow2(32 - bits), Pow2(bits));
  }

  lemma QuotientBound(w: int, p: int, h: int)
    requires p > 0 && h > 0 && 0 <= w < p * h
    ensures w / p < h
  {
    U32Backend.FloorDiv(w, p);
    if w / p >= h {
      MulMono(w / p, h, p);
    }
  }

  /** Asking for fewer bits gives the leading bits of a longer request
   *  from the same state. */
  lemma GenBitsPrefix(g: Generator, k: u32, bits: u32)
    requires 0 < k <= bits < 32
    ensures GenBits(g, k).0 == GenBits(g, bits).0 / Pow2(bits - k)
  {
    var w := Next(g).0;
    var lo := Pow2(32 - bits);
    var hi := Pow2(bits - k);
    Pow2Add(32 - bits, bits - k);
    assert Pow2(32 - k) == lo * hi;
    DivDiv(w, lo, hi);
  }

  /** Dividing by a product is dividing twice. */
  lemma DivDiv(x: nat, a: nat, b: nat)
    requires a > 0 && b > 0
    ensures x / (a * b) == (x / a) / b
  {
    var q1 := x / a;
    var q2 := q1 / b;
    ModUnique(x, q1, x % a, a);
    ModUnique(q1, q2, q1 % b, b);
    assert x == q2 * (a * b) + ((q1 % b) * a + x % a);
    assert (q1 % b) * a + x % a < a * b by {
      MulMono(b - 1, q1 % b, a);
    }
    ModUnique(x, q2, (q1 % b) * a + x % a, a * b);
  }

  // ---------------------------------------------------------------------
  // Seeding

  /** `to_u64_wrapping`: the low 64 bits of the two's-complement value. */
  function ToU64Wrapping(x: int): (r: nat)
    ensures r < U64_WORD
    ensures 0 <= x < U64_WORD ==> r == x
    ensures (x - r) % U64_WORD == 0
  {
    ModUnique(x - x % U64_WORD, x / U64_WORD, 0, U64_WORD);
    assert 0 <= x < U64_WORD ==> x % U64_WORD == x by {
      if 0 <= x < U64_WORD { ModSmall(x, U64_WORD); }
    }
    x % U64_WORD
  }

  /** `seed`: the generator is replaced by the one `fromSeed` builds from
   *  the low 64 bits of the seed, at the start of its stream. */
  function Seed(fromSeed: nat -> (nat -> u32), seed: int): (g: Generator)
    ensures g.position == 0
    ensures g.words == fromSeed(ToU64Wrapping(seed))
  {
    Generator(fromSeed(ToU64Wrapping(seed)), 0)
  }

  /** Seeds that agree in their low 64 bits give the same generator; in
   *  particular −1 selects the same stream as 2⁶⁴ − 1. */
  lemma SeedWraps(fromSeed: nat -> (nat -> u32), s: int, t: int)
    requires s % U64_WORD == t % U64_WORD
    ensures Seed(fromSeed, s) == Seed(fromSeed, t)
    ensures Seed(fromSeed, -1) == Seed(fromSeed, U64_WORD - 1)
  {
    ModUnique(-1, -1, U64_WORD - 1, U64_WORD);
    ModSmall(U64_WORD - 1, U64_WORD);
  }
}
