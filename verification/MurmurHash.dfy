/** The 32-bit MurmurHash3 of `src/crypto/murmurhash3.cpp` and the seeded family of
    `src/bloom/hash_algo.cpp`, over `bv32` so that wrap-around is the machine's own.

    The main result is that, for a fixed key, hashing is a bijection of the seed: `Unhash`
    undoes it on both sides. Distinct seeds therefore never collide, and the seed schedule
    of the Bloom filter, being an odd multiple of the counter, never repeats a seed. */
module MurmurHash {
  type Byte = bv8
  type Word = bv32

  function ReadLE32(data: seq<Byte>, at: nat): Word
    requires at + 4 <= |data|
  {
    (data[at] as Word)
    | (Second(data[at + 1]))
    | (Third(data[at + 2]))
    | ((data[at + 3] as Word) << 24)
  }

  function Xor(x: Word, y: Word): Word { x ^ y }

  // Multiplication modulo 2^32 by each constant of the algorithm.
  function MulC1(x: Word): Word { x * 0xcc9e2d51 }
  function MulC2(x: Word): Word { x * 0x1b873593 }
  function Mul5(x: Word): Word { x * 5 }
  function MulF1(x: Word): Word { x * 0x85ebca6b }
  function MulF2(x: Word): Word { x * 0xc2b2ae35 }

  function Add(x: Word, y: Word): Word { x + y }

  /** `x` xor `x` shifted right by 16 or 13, the two shifts of the finaliser. */
  function Fold16(x: Word): Word { x ^ (x >> 16) }
  function Fold13(x: Word): Word { x ^ (x >> 13) }

  function Rotl13(x: Word): Word { (x << 13) | (x >> 19) }
  function Rotl15(x: Word): Word { (x << 15) | (x >> 17) }

  function Scramble(k: Word): Word {
    MulC2(Rotl15(MulC1(k)))
  }

  function Absorb(h: Word, k: Word): Word {
    Add(Mul5(Rotl13(Xor(h, Scramble(k)))), 0xe6546b64)
  }

  function Finalize(h: Word): Word {
    Fold16(MulF2(Fold13(MulF1(Fold16(h)))))
  }

  /** Byte `k` behind the last whole block; there are at most three. */
  function TailByte(data: seq<Byte>, k: nat): Byte {
    var at := |data| / 4 * 4 + k;
    if at < |data| then data[at] else 0
  }

  function Join(b0: Byte, b1: Byte, b2: Byte): Word {
    (b0 as Word) | ((b1 as Word) << 8) | ((b2 as Word) << 16)
  }

  /** The little-endian word of the bytes behind the last whole block. */
  function TailWord(data: seq<Byte>): Word {
    Join(TailByte(data, 0), TailByte(data, 1), TailByte(data, 2))
  }

  function AbsorbBlocks(seed: Word, data: seq<Byte>, n: nat): Word
    requires 4 * n <= |data|
  {
    if n == 0 then seed else Absorb(AbsorbBlocks(seed, data, n - 1), ReadLE32(data, 4 * (n - 1)))
  }

  function AbsorbTail(h: Word, data: seq<Byte>): Word {
    if |data| % 4 == 0 then h else Xor(h, Scramble(TailWord(data)))
  }

  function LengthWord(data: seq<Byte>): Word {
    (|data| % 0x1_0000_0000) as Word
  }

  function Hash(seed: Word, data: seq<Byte>): Word {
    var h := AbsorbBlocks(seed, data, |data| / 4);
    Finalize(Xor(AbsorbTail(h, data), LengthWord(data)))
  }

  // ---------------------------------------------------------------- the code

  method MurmurHash3(seed: Word, data: seq<Byte>) returns (h1: Word)
    ensures h1 == Hash(seed, data)
  {
    h1 := HashBlocks(seed, data);
    h1 := HashTail(h1, data);
    h1 := Xor(h1, LengthWord(data));
    h1 := Fold16(h1);
    h1 := MulF1(h1);
    h1 := Fold13(h1);
    h1 := MulF2(h1);
    h1 := Fold16(h1);
  }

  method HashBlocks(seed: Word, data: seq<Byte>) returns (h1: Word)
    ensures h1 == AbsorbBlocks(seed, data, |data| / 4)
  {
    h1 := seed;
    var nblocks := |data| / 4;
    for i := 0 to nblocks
      invariant h1 == AbsorbBlocks(seed, data, i)
    {
      var k1 := ReadLE32(data, 4 * i);
      k1 := MulC1(k1);
      k1 := Rotl15(k1);
      k1 := MulC2(k1);
      h1 := Xor(h1, k1);
      h1 := Rotl13(h1);
      h1 := Add(Mul5(h1), 0xe6546b64);
    }
  }

  method HashTail(h0: Word, data: seq<Byte>) returns (h1: Word)
    ensures h1 == AbsorbTail(h0, data)
  {
    h1 := h0;
    var k1 := ReadTail(data);
    if |data| % 4 >= 1 {
      k1 := MulC1(k1);
      k1 := Rotl15(k1);
      k1 := MulC2(k1);
      h1 := Xor(h1, k1);
    }
  }

  /** A tail byte shifted to its place. */
  function First(b: Byte): Word { b as Word }
  function Second(b: Byte): Word { (b as Word) << 8 }
  function Third(b: Byte): Word { (b as Word) << 16 }

  lemma PlacesJoin(b0: Byte, b1: Byte, b2: Byte)
    ensures Xor(Xor(Xor(0, Third(b2)), Second(b1)), First(b0)) == Join(b0, b1, b2)
  {
    assert Xor(Xor(0 ^ ((b2 as Word) << 16), (b1 as Word) << 8), b0 as Word) == Join(b0, b1, b2);
  }

  lemma NothingJoins()
    ensures Xor(0, Third(0)) == 0 && Xor(0, Second(0)) == 0 && Xor(0, First(0)) == 0
  {}

  /** The switch whose cases fall through: each byte of the tail joins the word `k1`. */
  method ReadTail(data: seq<Byte>) returns (k1: Word)
    ensures k1 == TailWord(data)
  {
    var tail := |data| / 4 * 4;
    PlacesJoin(TailByte(data, 0), TailByte(data, 1), TailByte(data, 2));
    NothingJoins();
    k1 := 0;
    if |data| % 4 >= 3 {
      k1 := Xor(k1, Third(data[tail + 2]));
    }
    if |data| % 4 >= 2 {
      k1 := Xor(k1, Second(data[tail + 1]));
    }
    if |data| % 4 >= 1 {
      k1 := Xor(k1, First(data[tail]));
    }
  }

  // ---------------------------------------------------------------- the inverse

  function Div5(x: Word): Word { x * 0xcccccccd }
  function DivF1(x: Word): Word { x * 0xa5cb9243 }
  function DivF2(x: Word): Word { x * 0x7ed1b41d }
  function Rotr13(x: Word): Word { (x << 19) | (x >> 13) }
  function Subtract(x: Word, y: Word): Word { x - y }
  function Unfold13(x: Word): Word { x ^ (x >> 13) ^ (x >> 26) }

  function Unabsorb(h: Word, k: Word): Word {
    Xor(Rotr13(Div5(Subtract(h, 0xe6546b64))), Scramble(k))
  }

  function Unfinalize(h: Word): Word {
    Fold16(DivF1(Unfold13(DivF2(Fold16(h)))))
  }

  function UnabsorbBlocks(h: Word, data: seq<Byte>, n: nat): Word
    requires 4 * n <= |data|
    decreases n
  {
    if n == 0 then h else UnabsorbBlocks(Unabsorb(h, ReadLE32(data, 4 * (n - 1))), data, n - 1)
  }

  /** The seed under which `data` hashes to `h`. */
  function Unhash(h: Word, data: seq<Byte>): Word {
    var t := Xor(Unfinalize(h), LengthWord(data));
    UnabsorbBlocks(AbsorbTail(t, data), data, |data| / 4)
  }

  lemma XorTwice(x: Word, y: Word)
    ensures Xor(Xor(x, y), y) == x
  {}

  lemma AddSubtract(x: Word, y: Word)
    ensures Subtract(Add(x, y), y) == x && Add(Subtract(x, y), y) == x
  {
    assert Subtract(x + y, y) == x;
    assert Add(x - y, y) == x;
  }

  lemma RotationInvertible(x: Word)
    ensures Rotr13(Rotl13(x)) == x && Rotl13(Rotr13(x)) == x
  {}

  lemma Fold16Invertible(x: Word)
    ensures Fold16(Fold16(x)) == x
  {
    assert Fold16(x ^ (x >> 16)) == x;
  }

  lemma Fold13Invertible(x: Word)
    ensures Unfold13(Fold13(x)) == x && Fold13(Unfold13(x)) == x
  {
    assert Unfold13(x ^ (x >> 13)) == x;
    assert Fold13(x ^ (x >> 13) ^ (x >> 26)) == x;
  }

  /** Each odd factor has an inverse modulo 2^32. */
  lemma FactorsInvertible(x: Word)
    ensures Div5(Mul5(x)) == x && Mul5(Div5(x)) == x
    ensures DivF1(MulF1(x)) == x && MulF1(DivF1(x)) == x
    ensures DivF2(MulF2(x)) == x && MulF2(DivF2(x)) == x
  {
    assert Div5(x * 5) == x && Mul5(x * 0xcccccccd) == x;
    assert DivF1(x * 0x85ebca6b) == x && MulF1(x * 0xa5cb9243) == x;
    assert DivF2(x * 0xc2b2ae35) == x && MulF2(x * 0x7ed1b41d) == x;
  }

  lemma AbsorbInvertible(h: Word, k: Word)
    ensures Unabsorb(Absorb(h, k), k) == h
    ensures Absorb(Unabsorb(h, k), k) == h
  {
    var s := Scramble(k);
    var a := Xor(h, s);
    AddSubtract(Mul5(Rotl13(a)), 0xe6546b64);
    FactorsInvertible(Rotl13(a));
    RotationInvertible(a);
    XorTwice(h, s);

    var d := Subtract(h, 0xe6546b64);
    var b := Div5(d);
    XorTwice(Rotr13(b), s);
    RotationInvertible(b);
    FactorsInvertible(d);
    AddSubtract(h, 0xe6546b64);
  }

  lemma FinalizeInvertible(h: Word)
    ensures Unfinalize(Finalize(h)) == h
    ensures Finalize(Unfinalize(h)) == h
  {
    var a := Fold16(h);
    var b := MulF1(a);
    var c := Fold13(b);
    Fold16Invertible(MulF2(c));
    FactorsInvertible(c);
    Fold13Invertible(b);
    FactorsInvertible(a);
    Fold16Invertible(h);

    var d := DivF2(a);
    var e := Unfold13(d);
    Fold16Invertible(DivF1(e));
    FactorsInvertible(e);
    Fold13Invertible(d);
  }

  lemma TailInvertible(h: Word, data: seq<Byte>)
    ensures AbsorbTail(AbsorbTail(h, data), data) == h
  {
    XorTwice(h, Scramble(TailWord(data)));
  }

  lemma {:induction false} BlocksInvertible(h: Word, data: seq<Byte>, n: nat)
    requires 4 * n <= |data|
    ensures UnabsorbBlocks(AbsorbBlocks(h, data, n), data, n) == h
    ensures AbsorbBlocks(UnabsorbBlocks(h, data, n), data, n) == h
    decreases n
  {
    if n > 0 {
      var k := ReadLE32(data, 4 * (n - 1));
      AbsorbInvertible(AbsorbBlocks(h, data, n - 1), k);
      BlocksInvertible(h, data, n - 1);
      AbsorbInvertible(h, k);
      BlocksInvertible(Unabsorb(h, k), data, n - 1);
    }
  }

  /** For every key the hash is a bijection of the 32-bit seed. */
  lemma SeedBijection(seed: Word, h: Word, data: seq<Byte>)
    ensures Unhash(Hash(seed, data), data) == seed
    ensures Hash(Unhash(h, data), data) == h
  {
    var n := |data| / 4;
    var l := LengthWord(data);
    var x := AbsorbBlocks(seed, data, n);
    var t := AbsorbTail(x, data);
    FinalizeInvertible(Xor(t, l));
    XorTwice(t, l);
    TailInvertible(x, data);
    BlocksInvertible(seed, data, n);

    var u := Xor(Unfinalize(h), l);
    BlocksInvertible(AbsorbTail(u, data), data, n);
    TailInvertible(u, data);
    XorTwice(Unfinalize(h), l);
    FinalizeInvertible(h);
  }

  lemma BcmWords()
    ensures Scramble(Join(0x42, 0x63, 0x6d)) == 0xd1fc6d7f
    ensures Finalize(Xor(Xor(0, 0xd1fc6d7f), 3)) == 1378646842
    ensures Finalize(Xor(Xor(3, 0xd1fc6d7f), 3)) == 1350417861
  {
    assert Join(0x42, 0x63, 0x6d) == 0x6d6342;
  }

  /** The vectors of `tests/crypto/murmurhash3_test.cpp` for "Bcm" and "123456789". */
  lemma ReferenceVectorTail()
    ensures Hash(0, [0x42, 0x63, 0x6d]) == 1378646842
    ensures Hash(3, [0x42, 0x63, 0x6d]) == 1350417861
  {
    var bcm: seq<Byte> := [0x42, 0x63, 0x6d];
    assert |bcm| / 4 == 0 && |bcm| % 4 == 3 && LengthWord(bcm) == 3;
    assert TailWord(bcm) == Join(0x42, 0x63, 0x6d);
    BcmWords();
    assert AbsorbBlocks(0, bcm, 0) == 0 && AbsorbBlocks(3, bcm, 0) == 3;
  }

  lemma ReferenceVectorBlocks()
    ensures Hash(0, [0x31, 0x32, 0x33, 0x34, 0x35, 0x36, 0x37, 0x38, 0x39]) == 3036607362
  {
    var digits: seq<Byte> := [0x31, 0x32, 0x33, 0x34, 0x35, 0x36, 0x37, 0x38, 0x39];
    assert |digits| / 4 == 2 && |digits| % 4 == 1 && LengthWord(digits) == 9;
    assert ReadLE32(digits, 0) == 0x34333231 && ReadLE32(digits, 4) == 0x38373635;
    assert AbsorbBlocks(0, digits, 1) == Absorb(0, 0x34333231) == 0xeaacb5e5;
    assert AbsorbBlocks(0, digits, 2) == Absorb(0xeaacb5e5, 0x38373635) == 0x8de3e18c;
    assert TailWord(digits) == 0x39 && AbsorbTail(0x8de3e18c, digits) == 0x5c360b18;
  }

  // ---------------------------------------------------------------- seeded family

  function Times(x: Word, y: Word): Word { x * y }

  function Seed(i: Word, rootSeed: Word, tweak: Word): Word {
    Add(Times(i, rootSeed), tweak)
  }

  /** The loop counter of the schedule after `n` increments, a 32-bit word. */
  function Counter(n: nat): Word {
    if n == 0 then 0 else Next(Counter(n - 1))
  }

  function Next(x: Word): Word { x + 1 }

  function Hashes(hashNum: nat, rootSeed: Word, tweak: Word, key: seq<Byte>): (hashes: seq<Word>)
    ensures |hashes| == hashNum
  {
    if hashNum == 0 then []
    else Hashes(hashNum - 1, rootSeed, tweak, key) + [Hash(Seed(Counter(hashNum - 1), rootSeed, tweak), key)]
  }

  lemma HashesGrow(n: nat, i: Word, h: Word, rootSeed: Word, tweak: Word, key: seq<Byte>)
    requires i == Counter(n) && h == Hash(Seed(i, rootSeed, tweak), key)
    ensures Hashes(n + 1, rootSeed, tweak, key) == Hashes(n, rootSeed, tweak, key) + [h]
  {}

  /** `MurmurHash3Algo::getHashes`: the hash of the key under each scheduled seed. */
  method GetHashes(hashNum: nat, rootSeed: Word, tweak: Word, key: seq<Byte>) returns (hashes: seq<Word>)
    requires hashNum < 0x1_0000_0000
    ensures hashes == Hashes(hashNum, rootSeed, tweak, key)
  {
    hashes := [];
    var i: Word := 0;
    for n := 0 to hashNum
      invariant i == Counter(n)
      invariant hashes == Hashes(n, rootSeed, tweak, key)
    {
      var h := MurmurHash3(Seed(i, rootSeed, tweak), key);
      HashesGrow(n, i, h, rootSeed, tweak, key);
      hashes := hashes + [h];
      i := Next(i);
    }
  }

  lemma OddFactorCancels(d: Word, m: Word)
    requires m & 1 == 1 && d * m == 0
    ensures d == 0
  {}

  lemma ProductOfDifference(i: Word, j: Word, m: Word)
    ensures Times(Subtract(i, j), m) == Subtract(Times(i, m), Times(j, m))
  {
    assert Times(i - j, m) == Subtract(i * m, j * m);
  }

  lemma OddProductsDiffer(i: Word, j: Word, m: Word)
    requires m & 1 == 1 && Times(i, m) == Times(j, m)
    ensures i == j
  {
    ProductOfDifference(i, j, m);
    var x := Times(i, m);
    assert Subtract(x, x) == 0;
    OddFactorCancels(Subtract(i, j), m);
    AddSubtract(i, j);
    assert Add(0, j) == j;
  }

  /** With an odd multiplier the schedule never repeats a seed. */
  lemma SeedsDiffer(i: Word, j: Word, rootSeed: Word, tweak: Word)
    requires rootSeed & 1 == 1 && Seed(i, rootSeed, tweak) == Seed(j, rootSeed, tweak)
    ensures i == j
  {
    AddSubtract(Times(i, rootSeed), tweak);
    AddSubtract(Times(j, rootSeed), tweak);
    OddProductsDiffer(i, j, rootSeed);
  }

  /** With an odd root seed no two counters give a key the same hash, whatever the tweak. */
  lemma HashesPairwiseDistinct(i: Word, j: Word, rootSeed: Word, tweak: Word, key: seq<Byte>)
    requires rootSeed & 1 == 1
    requires Hash(Seed(i, rootSeed, tweak), key) == Hash(Seed(j, rootSeed, tweak), key)
    ensures i == j
  {
    SeedBijection(Seed(i, rootSeed, tweak), 0, key);
    SeedBijection(Seed(j, rootSeed, tweak), 0, key);
    SeedsDiffer(i, j, rootSeed, tweak);
  }

  lemma {:induction false} HashAt(i: nat, hashNum: nat, rootSeed: Word, tweak: Word, key: seq<Byte>)
    requires i < hashNum
    ensures Hashes(hashNum, rootSeed, tweak, key)[i] == Hash(Seed(Counter(i), rootSeed, tweak), key)
  {
    if i < hashNum - 1 {
      HashAt(i, hashNum - 1, rootSeed, tweak, key);
    }
  }

  // ---------------------------------------------------------------- the counter

  function Double(x: Word): Word { x + x }

  /** Two to the `k`, as a number and as a word. */
  function Power(k: nat): nat { if k == 0 then 1 else 2 * Power(k - 1) }
  function PowerWord(k: nat): Word { if k == 0 then 1 else Double(PowerWord(k - 1)) }

  predicate Odd(x: Word) { x & 1 == 1 }

  lemma DoubleNext(x: Word)
    ensures Double(Next(x)) == Next(Next(Double(x)))
    ensures Odd(Next(Double(x)))
  {}

  lemma DoubleMoves(x: Word, y: Word)
    ensures Times(Double(x), y) == Times(x, Double(y))
  {
    assert Times(x + x, y) == Times(x, y + y);
  }

  lemma {:induction false} CounterDoubles(n: nat)
    ensures Counter(2 * n) == Double(Counter(n))
  {
    if n > 0 {
      var x := Counter(n - 1);
      CounterDoubles(n - 1);
      assert Counter(2 * n) == Next(Counter(2 * n - 1)) == Next(Next(Counter(2 * (n - 1))));
      DoubleNext(x);
    } else {
      DoubleZero();
    }
  }

  lemma DoubleZero()
    ensures Double(0) == 0
  {}

  lemma OddCounter(n: nat)
    ensures Odd(Counter(2 * n + 1))
  {
    CounterDoubles(n);
    DoubleNext(Counter(n));
  }

  lemma {:induction false} CounterAdds(i: nat, d: nat)
    ensures Counter(i + d) == Add(Counter(i), Counter(d))
  {
    if d > 0 {
      CounterAdds(i, d - 1);
      AddNext(Counter(i), Counter(d - 1));
    } else {
      AddZero(Counter(i));
    }
  }

  lemma AddNext(x: Word, y: Word)
    ensures Add(x, Next(y)) == Next(Add(x, y))
  {
    assert Add(x, y + 1) == Next(x + y);
  }

  lemma AddZero(x: Word)
    ensures Add(x, 0) == x
  {}

  lemma {:induction false} PowerNonzero(k: nat)
    requires k < 32
    ensures PowerWord(k) != 0
    decreases 32 - k
  {
    if k == 31 {
      assert PowerWord(8) == 0x100;
      assert PowerWord(16) == 0x1_0000;
      assert PowerWord(24) == 0x100_0000;
      assert PowerWord(31) == 0x8000_0000;
    } else {
      PowerNonzero(k + 1);
      assert PowerWord(k) == 0 ==> Double(PowerWord(k)) == 0;
    }
  }

  /** Bit by bit: a counter below 2^(32 - k) that vanishes times 2^k is the counter of zero. */
  lemma {:induction false} VanishingCounter(n: nat, k: nat)
    requires k <= 32 && n < Power(32 - k) && Times(Counter(n), PowerWord(k)) == 0
    ensures n == 0
    decreases 32 - k
  {
    if k < 32 {
      var m := n / 2;
      if n == 2 * m {
        CounterDoubles(m);
        DoubleMoves(Counter(m), PowerWord(k));
        VanishingCounter(m, k + 1);
      } else {
        OddCounter(m);
        OddTimes(Counter(n), PowerWord(k));
        PowerNonzero(k);
      }
    }
  }

  lemma OddTimes(m: Word, d: Word)
    requires Odd(m) && Times(m, d) == 0
    ensures d == 0
  {
    assert d * m == 0;
    OddFactorCancels(d, m);
  }

  lemma PowerOf32()
    ensures Power(32) == 0x1_0000_0000
  {
    assert Power(8) == 0x100;
    assert Power(16) == 0x1_0000;
    assert Power(24) == 0x100_0000;
  }

  lemma CountersDiffer(i: nat, j: nat)
    requires i < j < 0x1_0000_0000
    ensures Counter(i) != Counter(j)
  {
    CounterAdds(i, j - i);
    if Counter(i) == Counter(j) {
      AddNothing(Counter(i), Counter(j - i));
      PowerOf32();
      VanishingCounter(j - i, 0);
    }
  }

  lemma AddNothing(x: Word, y: Word)
    requires Add(x, y) == x
    ensures y == 0 && Times(y, 1) == 0
  {}

  /** However many hashes a key is given under an odd root seed, they are pairwise distinct. */
  lemma AllHashesDistinct(hashNum: nat, i: nat, j: nat, rootSeed: Word, tweak: Word, key: seq<Byte>)
    requires rootSeed & 1 == 1 && i < j < hashNum <= 0x1_0000_0000
    ensures Hashes(hashNum, rootSeed, tweak, key)[i] != Hashes(hashNum, rootSeed, tweak, key)[j]
  {
    HashAt(i, hashNum, rootSeed, tweak, key);
    HashAt(j, hashNum, rootSeed, tweak, key);
    CountersDiffer(i, j);
    if Hashes(hashNum, rootSeed, tweak, key)[i] == Hashes(hashNum, rootSeed, tweak, key)[j] {
      HashesPairwiseDistinct(Counter(i), Counter(j), rootSeed, tweak, key);
    }
  }

  /** The oddness is needed: an even root seed gives the counters 0 and 2^31 one seed. */
  lemma EvenRootSeedRepeats(rootSeed: Word, tweak: Word, key: seq<Byte>)
    requires rootSeed & 1 == 0
    ensures Hash(Seed(0, rootSeed, tweak), key) == Hash(Seed(0x8000_0000, rootSeed, tweak), key)
  {
    assert Times(0x8000_0000, rootSeed) == Times(0, rootSeed);
  }
}
