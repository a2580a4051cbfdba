/** The Bloom filter of `src/bloom/bloom_filters.cpp`: a byte array indexed by the seeded
    hashes of a key and guarded by the two shortcut flags `full` and `empty`.

    `Filter` is the value of a filter and the functions on it are the operations; the class of
    module `BloomFilters` performs them in place. */
module BloomFilter {
  import opened MurmurHash

  type Key = seq<Byte>

  const SEED_ROOT: Word := 0xFBA4C795
  const TWEAK: Word := 0x3
  const HASH_NUM: nat := 5

  /** The hash function object of a filter: the hashes of a key, none for the base class. */
  type HashFunc = Key -> seq<Word>

  function ChooseAlgo(algo: nat): HashFunc {
    if algo == 0 then (key: Key) => Hashes(HASH_NUM, SEED_ROOT, TWEAK, key) else (key: Key) => []
  }

  ghost predicate Hashing(h: HashFunc) { forall key :: h(key) != [] }
  ghost predicate Silent(h: HashFunc) { forall key :: h(key) == [] }

  lemma AlgoKinds(algo: nat)
    ensures algo == 0 ==> Hashing(ChooseAlgo(algo))
    ensures algo != 0 ==> Silent(ChooseAlgo(algo))
  {
    if algo == 0 {
      forall key: Key ensures ChooseAlgo(0)(key) != [] {
        assert |Hashes(HASH_NUM, SEED_ROOT, TWEAK, key)| == 5;
      }
    }
  }

  /** A filter of algorithm 0 probes a key with pairwise distinct hashes. */
  lemma ProbesDistinct(key: Key, i: nat, j: nat)
    requires i < j < HASH_NUM
    ensures ChooseAlgo(0)(key)[i] != ChooseAlgo(0)(key)[j]
  {
    assert SEED_ROOT & 1 == 1;
    AllHashesDistinct(HASH_NUM, i, j, SEED_ROOT, TWEAK, key);
  }

  // ---------------------------------------------------------------- bits of a byte array

  function Mask(b: nat): Byte
    requires b < 8
  {
    match b
    case 0 => 1 case 1 => 2 case 2 => 4 case 3 => 8
    case 4 => 16 case 5 => 32 case 6 => 64 case _ => 128
  }

  predicate ByteBit(x: Byte, b: nat)
    requires b < 8
  {
    x & Mask(b) != 0
  }

  function ByteSet(x: Byte, b: nat): Byte
    requires b < 8
  {
    x | Mask(b)
  }

  function ByteClear(x: Byte, b: nat): Byte
    requires b < 8
  {
    x & !Mask(b)
  }

  predicate Bit(bytes: seq<Byte>, i: nat)
    requires i < 8 * |bytes|
  {
    ByteBit(bytes[i / 8], i % 8)
  }

  function SetBit(bytes: seq<Byte>, i: nat): (r: seq<Byte>)
    requires i < 8 * |bytes|
  {
    bytes[i / 8 := ByteSet(bytes[i / 8], i % 8)]
  }

  function ClearBit(bytes: seq<Byte>, i: nat): (r: seq<Byte>)
    requires i < 8 * |bytes|
  {
    bytes[i / 8 := ByteClear(bytes[i / 8], i % 8)]
  }

  predicate AllOnes(bytes: seq<Byte>) { forall k :: 0 <= k < |bytes| ==> bytes[k] == 0xff }
  predicate AllZero(bytes: seq<Byte>) { forall k :: 0 <= k < |bytes| ==> bytes[k] == 0 }

  lemma ByteAfterWrite(x: Byte, a: nat, b: nat)
    requires a < 8 && b < 8
    ensures ByteBit(ByteSet(x, a), b) <==> a == b || ByteBit(x, b)
    ensures ByteBit(ByteClear(x, a), b) <==> a != b && ByteBit(x, b)
  {}

  lemma BitAfterWrite(bytes: seq<Byte>, i: nat, j: nat)
    requires i < 8 * |bytes| && j < 8 * |bytes|
    ensures Bit(SetBit(bytes, i), j) <==> i == j || Bit(bytes, j)
    ensures Bit(ClearBit(bytes, i), j) <==> i != j && Bit(bytes, j)
  {
    ByteAfterWrite(bytes[i / 8], i % 8, j % 8);
    assert i == j <==> i / 8 == j / 8 && i % 8 == j % 8;
  }

  /** Bit `i` is bit `i % 8`, from the lowest, of byte `i / 8`. */
  lemma BitLayout()
    ensures SetBit([0, 0], 0) == [1, 0] && SetBit([0, 0], 7) == [0x80, 0] && SetBit([0, 0], 9) == [0, 2]
    ensures forall h: Word, size: nat :: size > 0 ==> Index(h, size) == (h as nat) % (8 * size)
  {
    assert ByteSet(0, 0) == 1 && ByteSet(0, 7) == 0x80 && ByteSet(0, 1) == 2;
  }

  lemma ByteExtremes(b: nat)
    requires b < 8
    ensures ByteBit(0xff, b) && !ByteBit(0, b)
  {}

  lemma UniformBit(bytes: seq<Byte>, i: nat)
    requires i < 8 * |bytes|
    ensures AllOnes(bytes) ==> Bit(bytes, i)
    ensures AllZero(bytes) ==> !Bit(bytes, i)
  {
    ByteExtremes(i % 8);
  }

  // ---------------------------------------------------------------- filters as values

  datatype Filter = Filter(hash: HashFunc, full: bool, empty: bool, bytes: seq<Byte>)

  lemma ModLess(x: nat, m: nat)
    requires m > 0
    ensures x % m < m
  {}

  function Index(h: Word, size: nat): (i: nat)
    requires size > 0
    ensures i < 8 * size
  {
    var x := h as nat;
    var bits := 8 * size;
    ModLess(x, bits);
    x % bits
  }

  function SetAll(bytes: seq<Byte>, hashes: seq<Word>): (r: seq<Byte>)
    requires |bytes| > 0
    ensures |r| == |bytes|
  {
    if hashes == [] then bytes
    else
      var init := hashes[..|hashes| - 1];
      SetBit(SetAll(bytes, init), Index(hashes[|hashes| - 1], |bytes|))
  }

  predicate AllSet(bytes: seq<Byte>, hashes: seq<Word>)
    requires |bytes| > 0
  {
    forall k :: 0 <= k < |hashes| ==> Bit(bytes, Index(hashes[k], |bytes|))
  }

  /** `(length + 7) / 8` in 32-bit arithmetic. */
  function ByteCount(length: nat): nat
    requires length < 0x1_0000_0000
  {
    (length + 7) % 0x1_0000_0000 / 8
  }

  function New(algo: nat, length: nat): Filter
    requires length < 0x1_0000_0000
  {
    Filter(ChooseAlgo(algo), false, true, seq(ByteCount(length), _ => 0))
  }

  function Assign(hash: HashFunc, content: seq<Byte>): Filter {
    Filter(hash, AllOnes(content), AllZero(content), content)
  }

  function FromContent(algo: nat, content: seq<Byte>): Filter {
    Assign(ChooseAlgo(algo), content)
  }

  function Reload(f: Filter, content: seq<Byte>): Filter {
    if |content| != |f.bytes| then f else Assign(f.hash, content)
  }

  /** An insertion divides by the size of the array unless a shortcut returns first. */
  predicate CanInsert(f: Filter, key: Key) {
    f.full || f.hash(key) == [] || |f.bytes| > 0
  }

  function Insert(f: Filter, key: Key): Filter
    requires CanInsert(f, key)
  {
    var hashes := f.hash(key);
    if f.full || hashes == [] then f
    else f.(bytes := SetAll(f.bytes, hashes), empty := false)
  }

  predicate CanProbe(f: Filter, key: Key) {
    f.full || f.empty || f.hash(key) == [] || |f.bytes| > 0
  }

  predicate Contains(f: Filter, key: Key)
    requires CanProbe(f, key)
  {
    if f.full then true
    else if f.empty then false
    else
      var hashes := f.hash(key);
      hashes != [] && AllSet(f.bytes, hashes)
  }

  /** The answer without the shortcuts. */
  predicate PlainTest(f: Filter, key: Key)
    requires |f.bytes| > 0
  {
    f.hash(key) != [] && AllSet(f.bytes, f.hash(key))
  }

  // ---------------------------------------------------------------- what insertion sets

  lemma {:induction false} BitsAfterSetAll(bytes: seq<Byte>, hashes: seq<Word>, j: nat)
    requires |bytes| > 0 && j < 8 * |bytes|
    ensures Bit(SetAll(bytes, hashes), j) <==>
            Bit(bytes, j) || exists k :: 0 <= k < |hashes| && Index(hashes[k], |bytes|) == j
  {
    if hashes != [] {
      var n := |hashes| - 1;
      var init := hashes[..n];
      BitsAfterSetAll(bytes, init, j);
      BitAfterWrite(SetAll(bytes, init), Index(hashes[n], |bytes|), j);
      assert forall k :: 0 <= k < n ==> init[k] == hashes[k];
      if Index(hashes[n], |bytes|) == j {
        assert 0 <= n < |hashes|;
      }
    }
  }

  lemma SetAllSets(bytes: seq<Byte>, hashes: seq<Word>)
    requires |bytes| > 0
    ensures AllSet(SetAll(bytes, hashes), hashes)
  {
    forall k | 0 <= k < |hashes| ensures Bit(SetAll(bytes, hashes), Index(hashes[k], |bytes|)) {
      BitsAfterSetAll(bytes, hashes, Index(hashes[k], |bytes|));
    }
  }

  lemma SetAllKeeps(bytes: seq<Byte>, hashes: seq<Word>, others: seq<Word>)
    requires |bytes| > 0 && AllSet(bytes, others)
    ensures AllSet(SetAll(bytes, hashes), others)
  {
    forall k | 0 <= k < |others| ensures Bit(SetAll(bytes, hashes), Index(others[k], |bytes|)) {
      BitsAfterSetAll(bytes, hashes, Index(others[k], |bytes|));
    }
  }

  // ---------------------------------------------------------------- coherent flags

  /** What construction, insertion and reloading keep: a raised flag tells the truth. Without
      a hash function the array never changes, so there the full flag is exact. */
  ghost predicate Coherent(f: Filter) {
    && (Hashing(f.hash) || Silent(f.hash)) && |f.bytes| > 0
    && (f.full ==> AllOnes(f.bytes))
    && (f.empty ==> AllZero(f.bytes))
    && (Silent(f.hash) ==> (f.full <==> AllOnes(f.bytes)))
  }

  datatype Op = InsertKey(key: Key) | ReloadContent(content: seq<Byte>)

  function Apply(f: Filter, op: Op): Filter
    requires op.InsertKey? ==> CanInsert(f, op.key)
  {
    match op
    case InsertKey(key) => Insert(f, key)
    case ReloadContent(content) => Reload(f, content)
  }

  lemma ApplyCoherent(f: Filter, op: Op)
    requires Coherent(f)
    ensures Coherent(Apply(f, op))
  {}

  ghost function Run(f: Filter, ops: seq<Op>): (r: Filter)
    requires Coherent(f)
    ensures Coherent(r) && r.hash == f.hash
    decreases |ops|
  {
    if ops == [] then f
    else
      ApplyCoherent(f, ops[0]);
      Run(Apply(f, ops[0]), ops[1..])
  }

  lemma ConstructorsCoherent(algo: nat, length: nat, content: seq<Byte>)
    requires length < 0x1_0000_0000
    ensures Coherent(New(algo, length)) <==> 0 < length <= 0xffff_fff8
    ensures Coherent(FromContent(algo, content)) <==> content != []
  {
    AlgoKinds(algo);
    if 0 < length <= 0xffff_fff8 {
      assert ByteCount(length) > 0;
      assert New(algo, length).bytes[0] == 0;
    }
  }

  /** While the flags are coherent the shortcuts change no answer of a hashing filter. */
  lemma ShortcutsExact(f: Filter, key: Key)
    requires Coherent(f) && Hashing(f.hash)
    ensures Contains(f, key) <==> PlainTest(f, key)
  {
    var hashes := f.hash(key);
    assert |hashes| > 0;
    if f.full {
      forall k | 0 <= k < |hashes| ensures Bit(f.bytes, Index(hashes[k], |f.bytes|)) {
        UniformBit(f.bytes, Index(hashes[k], |f.bytes|));
      }
    } else if f.empty {
      UniformBit(f.bytes, Index(hashes[0], |f.bytes|));
    }
  }

  /** In every state reached from a constructor by insertions and reloads, a filter of
      algorithm 0 answers exactly the all-bits-set test. */
  lemma ReachableAnswersExact(f: Filter, ops: seq<Op>, key: Key)
    requires Coherent(f) && Hashing(f.hash)
    ensures Contains(Run(f, ops), key) <==> PlainTest(Run(f, ops), key)
    decreases |ops|
  {
    if ops == [] {
      ShortcutsExact(f, key);
    } else {
      ApplyCoherent(f, ops[0]);
      ReachableAnswersExact(Apply(f, ops[0]), ops[1..], key);
    }
  }

  ghost function InsertAll(f: Filter, keys: seq<Key>): (r: Filter)
    requires Coherent(f)
    ensures Coherent(r) && r.hash == f.hash
    decreases |keys|
  {
    if keys == [] then f
    else
      ApplyCoherent(f, InsertKey(keys[0]));
      InsertAll(Insert(f, keys[0]), keys[1..])
  }

  lemma InsertContains(f: Filter, key: Key)
    requires Coherent(f) && Hashing(f.hash)
    ensures Coherent(Insert(f, key)) && Contains(Insert(f, key), key)
  {
    ApplyCoherent(f, InsertKey(key));
    if !f.full {
      SetAllSets(f.bytes, f.hash(key));
      ShortcutsExact(Insert(f, key), key);
    }
  }

  lemma InsertKeeps(f: Filter, key: Key, other: Key)
    requires Coherent(f) && Hashing(f.hash) && Contains(f, other)
    ensures Coherent(Insert(f, key)) && Contains(Insert(f, key), other)
  {
    ApplyCoherent(f, InsertKey(key));
    if !f.full {
      ShortcutsExact(f, other);
      SetAllKeeps(f.bytes, f.hash(key), f.hash(other));
      ShortcutsExact(Insert(f, key), other);
    }
  }

  lemma {:induction false} InsertAllKeeps(f: Filter, keys: seq<Key>, other: Key)
    requires Coherent(f) && Hashing(f.hash) && Contains(f, other)
    ensures Contains(InsertAll(f, keys), other)
    decreases |keys|
  {
    if keys != [] {
      InsertKeeps(f, keys[0], other);
      InsertAllKeeps(Insert(f, keys[0]), keys[1..], other);
    }
  }

  /** No false negatives: every inserted key is contained, whatever is inserted after it. */
  lemma {:induction false} NoFalseNegatives(f: Filter, keys: seq<Key>, n: nat)
    requires Coherent(f) && Hashing(f.hash) && n < |keys|
    ensures Contains(InsertAll(f, keys), keys[n])
    decreases |keys|
  {
    InsertContains(f, keys[0]);
    var g := Insert(f, keys[0]);
    if n == 0 {
      InsertAllKeeps(g, keys[1..], keys[0]);
    } else {
      NoFalseNegatives(g, keys[1..], n - 1);
    }
  }

  // ---------------------------------------------------------------- export and rebuild

  /** Rebuilding a filter from its exported content preserves every answer. */
  lemma RebuildPreserves(f: Filter, algo: nat, key: Key)
    requires Coherent(f) && f.hash == ChooseAlgo(algo)
    ensures Coherent(FromContent(algo, f.bytes))
    ensures Contains(FromContent(algo, f.bytes), key) <==> Contains(f, key)
  {
    AlgoKinds(algo);
    if algo == 0 {
      ShortcutsExact(f, key);
      ShortcutsExact(FromContent(algo, f.bytes), key);
    } else {
      UniformBit(f.bytes, 0);
    }
  }

  /** A filter of no bytes, from either constructor, rebuilds as a full one: its answers
      survive exactly when it was full to begin with. */
  lemma EmptyContentRebuildsFull(f: Filter, algo: nat, key: Key)
    requires f == New(algo, 0) || f == FromContent(algo, [])
    ensures CanProbe(f, key) && CanProbe(FromContent(algo, f.bytes), key)
    ensures (Contains(FromContent(algo, f.bytes), key) <==> Contains(f, key)) <==> f.full
  {
    assert f.bytes == [];
  }

  // ---------------------------------------------------------------- patching

  /** `update` writes the listed bits, ignores positions past the end and leaves the flags. */
  ghost predicate Patched(f: Filter, values: map<nat, bool>, g: Filter) {
    && g.hash == f.hash && g.full == f.full && g.empty == f.empty && |g.bytes| == |f.bytes|
    && forall j: nat :: j < 8 * |f.bytes| ==>
         (Bit(g.bytes, j) <==> if j in values then values[j] else Bit(f.bytes, j))
  }

  /** Whether some probed bit of the key is cleared, or every probed bit is set, by the patch. */
  predicate Clears(f: Filter, values: map<nat, bool>, key: Key)
    requires |f.bytes| > 0
  {
    var hashes := f.hash(key);
    exists k :: 0 <= k < |hashes| &&
      var i := Index(hashes[k], |f.bytes|); i in values && !values[i]
  }

  predicate SetsAll(f: Filter, values: map<nat, bool>, key: Key)
    requires |f.bytes| > 0
  {
    var hashes := f.hash(key);
    forall k :: 0 <= k < |hashes| ==>
      var i := Index(hashes[k], |f.bytes|); i in values && values[i]
  }

  /** After a patch of a coherent filter the shortcut answer for a key is right exactly when
      no raised flag meets a patch that refutes it for that key. */
  lemma PatchedAnswerExact(f: Filter, values: map<nat, bool>, g: Filter, key: Key)
    requires Coherent(f) && Hashing(f.hash) && Patched(f, values, g)
    ensures (Contains(g, key) <==> PlainTest(g, key)) <==>
            !(f.full && Clears(f, values, key)) && !(f.empty && !f.full && SetsAll(f, values, key))
  {
    var hashes := f.hash(key);
    assert g.hash(key) == hashes && |hashes| > 0;
    forall k | 0 <= k < |hashes|
      ensures f.full ==> Bit(f.bytes, Index(hashes[k], |f.bytes|))
      ensures f.empty ==> !Bit(f.bytes, Index(hashes[k], |f.bytes|))
    {
      UniformBit(f.bytes, Index(hashes[k], |f.bytes|));
    }
    if f.full {
      assert PlainTest(g, key) <==> !Clears(f, values, key);
    } else if f.empty {
      assert PlainTest(g, key) <==> SetsAll(f, values, key);
    }
  }

  /** The stale flags in the extreme: a full filter of one byte patched to zero still
      contains every key, and an empty one patched to ones contains none. */
  lemma PatchedFullStale(values: map<nat, bool>, g: Filter, key: Key)
    requires forall j: nat :: j < 8 ==> j in values && !values[j]
    requires Patched(FromContent(0, [0xff]), values, g)
    ensures Contains(g, key) && !PlainTest(g, key)
  {
    var f := FromContent(0, [0xff]);
    assert f.full by { assert AllOnes(f.bytes); }
    assert g.hash(key) != [] ==> !Bit(g.bytes, Index(g.hash(key)[0], 1));
  }

  lemma PatchedEmptyStale(values: map<nat, bool>, g: Filter, key: Key)
    requires forall j: nat :: j < 8 ==> j in values && values[j]
    requires Patched(FromContent(0, [0]), values, g)
    ensures !Contains(g, key) && PlainTest(g, key)
  {
    var f := FromContent(0, [0]);
    assert !f.full && f.empty by { assert f.bytes[0] == 0 && AllZero(f.bytes); }
    AlgoKinds(0);
    assert g.hash(key) != [];
  }

  /** What the patch handler does next repairs the flags: the patched content, rebuilt, is
      coherent and answers the plain test of the patched bits. */
  lemma PatchThenRebuild(f: Filter, values: map<nat, bool>, g: Filter, key: Key)
    requires Coherent(f) && f.hash == ChooseAlgo(0) && Patched(f, values, g)
    ensures Coherent(FromContent(0, g.bytes))
    ensures Contains(FromContent(0, g.bytes), key) <==> PlainTest(g, key)
  {
    AlgoKinds(0);
    ShortcutsExact(FromContent(0, g.bytes), key);
  }
}
