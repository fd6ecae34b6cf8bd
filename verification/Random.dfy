/** The random number generator behind rand() and srand(). */
module Random {
  import opened Division

  /** A C long of the least width the algorithm assumes: every operation below is
      proved to stay inside it. */
  newtype int32 = x: int | -0x8000_0000 <= x < 0x8000_0000

  const IA: int32 := 16807
  const IM: int32 := 2147483647
  const IQ: int32 := 127773
  const IR: int32 := 2836
  const MASK: int32 := 123459876

  /** The multiplier that undoes IA. */
  const BACK := 1407677000

  /** The seeds that the recurrence may be started from. */
  predicate Proper(seed: int) { 1 <= seed < 2147483647 }

  /** The recurrence, written without regard to the width of the numbers. */
  function Next(seed: int): int { (16807 * seed) % 2147483647 }

  function After(seed: int, calls: nat): int {
    if calls == 0 then seed else Next(After(seed, calls - 1))
  }

  /** The low 31 bits, moved away from the two values that the recurrence cannot leave. */
  function Seeded(x: int): (seed: int)
    ensures Proper(seed)
  {
    var low := x % 0x8000_0000;
    if low == 0 then 123459876 else if low == 0x7fff_ffff then 0x7fff_ffff - 123459876 else low
  }

  /** Started with any number at all: only the low 31 bits count, and all of them do. */
  lemma SeededIs(high: int, low: int)
    requires 0 <= low < 0x8000_0000
    ensures Seeded(0x8000_0000 * high + low) == if low == 0 then 123459876 else if low == 0x7fff_ffff then 2024023771 else low
    ensures Seeded(42) == 42
  {
    DivIs(0x8000_0000 * high + low, 0x8000_0000, high, low);
  }

  /** What moves the two values away is an exclusive or with the mask. */
  lemma SeededIsXor()
    ensures var low: bv32 := 0; low ^ 123459876 == 123459876 && Seeded(0) == 123459876
    ensures var low: bv32 := 0x7fff_ffff; low ^ 123459876 == 2024023771 && Seeded(0x7fff_ffff) == 2024023771
  {
    assert 0x7fff_ffff % 0x8000_0000 == 0x7fff_ffff;
  }

  /** The recurrence can be run backwards. */
  lemma NextBack(seed: int)
    requires 0 <= seed < 2147483647
    ensures (BACK * Next(seed)) % 2147483647 == seed
  {
    var q := (16807 * seed) / 2147483647;
    assert 16807 * seed == 2147483647 * q + Next(seed);
    assert BACK * Next(seed) == 2147483647 * (11017 * seed - BACK * q) + seed;
    DivIs(BACK * Next(seed), 2147483647, 11017 * seed - BACK * q, seed);
  }

  /** It takes proper seeds to proper seeds, different ones to different ones. */
  lemma NextIsProper(seed: int)
    requires Proper(seed)
    ensures Proper(Next(seed))
  {
    NextBack(seed);
  }

  lemma NextIsInjective(a: int, b: int)
    requires Proper(a) && Proper(b) && Next(a) == Next(b)
    ensures a == b
  {
    NextBack(a);
    NextBack(b);
  }

  /** Every proper seed is reached from a proper seed. */
  lemma NextIsOnto(seed: int)
    requires Proper(seed)
    ensures var before := (BACK * seed) % 2147483647; Proper(before) && Next(before) == seed
  {
    var q, before := (BACK * seed) / 2147483647, (BACK * seed) % 2147483647;
    assert BACK * seed == 2147483647 * q + before;
    assert 16807 * before == 2147483647 * (11017 * seed - 16807 * q) + seed;
    DivIs(16807 * before, 2147483647, 11017 * seed - 16807 * q, seed);
  }

  /** Wherever it is started, the generator never gets stuck, and whatever it gives stays
      strictly between 0 and 1. */
  lemma {:induction false} NeverStuck(x: int, calls: nat)
    ensures Proper(After(Seeded(x), calls))
  {
    if calls > 0 {
      NeverStuck(x, calls - 1);
      NextIsProper(After(Seeded(x), calls - 1));
    }
  }

  /** One step with the quotient and the remainder by IQ taken apart. */
  lemma Schrage(seed: int)
    requires Proper(seed)
    ensures var tmp := seed / 127773; var x := 16807 * (seed - tmp * 127773) - 2836 * tmp;
            -0x8000_0000 <= x < 2147483647 && Next(seed) == if x < 0 then x + 2147483647 else x
  {
    var tmp := seed / 127773;
    var x := 16807 * (seed - tmp * 127773) - 2836 * tmp;
    assert 16807 * seed == 2147483647 * tmp + x;
    if x < 0 {
      DivIs(16807 * seed, 2147483647, tmp - 1, x + 2147483647);
    } else {
      DivIs(16807 * seed, 2147483647, tmp, x);
    }
  }

  class Interp {
    var randSeed: int32
    var seedInitialized: bool

    ghost predicate Valid() reads this { seedInitialized ==> Proper(randSeed as int) }

    constructor ()
      ensures Valid() && !seedInitialized
    {
      randSeed, seedInitialized := 0, false;
    }

    /** Start from the low bits of `x`. */
    method SetSeed(x: int)
      modifies this
      ensures Valid() && seedInitialized && randSeed as int == Seeded(x)
    {
      seedInitialized := true;
      randSeed := (x % 0x8000_0000) as int32;
      if randSeed == 0 {
        randSeed := MASK;
      } else if randSeed == 0x7fff_ffff {
        randSeed := 0x7fff_ffff - MASK;
      }
    }

    /** rand(): `clock` stands for the clock and the thread, which the first call takes its
        seed from. */
    method Rand(clock: int) returns (d: real)
      requires Valid()
      modifies this
      ensures Valid() && seedInitialized
      ensures randSeed as int == (16807 * if old(seedInitialized) then old(randSeed) as int else Seeded(clock)) % 2147483647
      ensures 0.0 < d < 1.0 && d * 2147483647.0 == randSeed as real
    {
      if !seedInitialized {
        SetSeed(clock);
      }
      Schrage(randSeed as int);
      NextIsProper(randSeed as int);
      var tmp := randSeed / IQ;
      randSeed := IA * (randSeed - tmp * IQ) - IR * tmp;
      if randSeed < 0 {
        randSeed := randSeed + IM;
      }
      d := randSeed as real / 2147483647.0;
    }

    /** srand(): the seed is replaced, and a first number is given. */
    method Srand(i: int, clock: int) returns (d: real)
      modifies this
      ensures Valid() && seedInitialized && randSeed as int == (16807 * Seeded(i)) % 2147483647
      ensures 0.0 < d < 1.0 && d * 2147483647.0 == randSeed as real
    {
      SetSeed(i);
      d := Rand(clock);
    }
  }
}
