/** The base-N codec of `src/crypto/any_base.cpp` and the opaque-data store keyed by it in
    `src/controllers/opaque_data_controller.cpp`. */
module OpaqueStore {
  import opened Wrappers
  import MurmurHash

  const MAX_BASE := 62
  const TWO_64: nat := 0x1_0000_0000_0000_0000
  const TWO_32: nat := 0x1_0000_0000

  // ---------------------------------------------------------------- digits

  /** The symbol table: digits, then small letters, then capitals. Past its end there is no
      symbol; the blank stands for the read that the source must not make. */
  function Symbol(d: nat): char {
    if d < 10 then ('0' as int + d) as char
    else if d < 36 then ('a' as int + (d - 10)) as char
    else if d < MAX_BASE then ('A' as int + (d - 36)) as char
    else ' '
  }

  function DigitOf(c: char): Option<nat> {
    if '0' <= c <= '9' then Some(c as int - '0' as int)
    else if 'a' <= c <= 'z' then Some(c as int - 'a' as int + 10)
    else if 'A' <= c <= 'Z' then Some(c as int - 'A' as int + 36)
    else None
  }

  lemma SymbolRead(d: nat)
    requires d < MAX_BASE
    ensures DigitOf(Symbol(d)) == Some(d)
  {}

  // ---------------------------------------------------------------- numerals

  lemma Grows(base: nat, q: nat)
    requires base >= 2
    ensures base * q >= 2 * q && (q > 0 ==> base * q >= base)
  {}

  lemma DivMod(n: nat, base: nat)
    requires base >= 2
    ensures n % base < base && n == n / base * base + n % base
    ensures n >= base ==> 0 < n / base < n
    ensures n < base ==> n / base == 0 && n % base == n
  {
    var q := n / base;
    assert n == base * q + n % base;
    Grows(base, q);
  }

  function Numeral(n: nat, base: nat): string
    requires base >= 2
    decreases n
  {
    if n < base then [Symbol(n)]
    else
      DivMod(n, base);
      Numeral(n / base, base) + [Symbol(n % base)]
  }

  /** Every digit of the numeral has a symbol. */
  predicate InTable(n: nat, base: nat)
    requires base >= 2
    decreases n
  {
    if n < base then n < MAX_BASE
    else
      DivMod(n, base);
      n % base < MAX_BASE && InTable(n / base, base)
  }

  /** Reading a string with the 64-bit accumulator. */
  function ValueOf(s: string, base: nat): Option<nat> {
    if s == [] then Some(0)
    else
      var init, d := ValueOf(s[..|s| - 1], base), DigitOf(s[|s| - 1]);
      if init.None? || d.None? then None else Some((init.value * base + d.value) % TWO_64)
  }

  lemma ValueSnoc(s: string, c: char, base: nat, v: nat, d: nat, n: nat)
    requires ValueOf(s, base) == Some(v) && DigitOf(c) == Some(d) && v * base + d == n < TWO_64
    ensures ValueOf(s + [c], base) == Some(n)
  {
    assert (s + [c])[..|s|] == s;
  }

  /** `decode` inverts `encode` on every 64-bit number, in every base from 2 to 62. */
  lemma {:induction false} NumeralRoundTrip(n: nat, base: nat)
    requires 2 <= base <= MAX_BASE && n < TWO_64
    ensures ValueOf(Numeral(n, base), base) == Some(n)
    decreases n
  {
    DivMod(n, base);
    SymbolRead(n % base);
    if n < base {
      ValueSnoc("", Symbol(n), base, 0, n, n);
      assert [] + [Symbol(n)] == Numeral(n, base);
    } else {
      NumeralRoundTrip(n / base, base);
      ValueSnoc(Numeral(n / base, base), Symbol(n % base), base, n / base, n % base, n);
    }
  }

  /** The order of the symbols and of the digits. */
  lemma NumeralSamples()
    ensures Numeral(0, 62) == "0" && Numeral(9, 62) == "9" && Numeral(10, 62) == "a" && Numeral(35, 62) == "z"
    ensures Numeral(36, 62) == "A" && Numeral(61, 62) == "Z" && Numeral(62, 62) == "10" && Numeral(5, 2) == "101"
  {
    assert Numeral(1, 2) == "1" && Numeral(2, 2) == "10";
  }

  lemma NumeralInjective(m: nat, n: nat, base: nat)
    requires 2 <= base <= MAX_BASE && m < TWO_64 && n < TWO_64
    requires Numeral(m, base) == Numeral(n, base)
    ensures m == n
  {
    NumeralRoundTrip(m, base);
    NumeralRoundTrip(n, base);
  }

  // ---------------------------------------------------------------- the codec

  function Reverse(s: string): string {
    if s == [] then [] else [s[|s| - 1]] + Reverse(s[..|s| - 1])
  }

  type Int32 = i: int | -0x8000_0000 <= i < 0x8000_0000
  type UInt64 = n: nat | n < TWO_64

  /** A base as it enters 64-bit unsigned arithmetic: a negative one becomes huge. */
  function Effective(base: Int32): nat {
    if base < 0 then TWO_64 + base else base
  }

  /** The calls of `encode` that end without dividing by zero or reading past the symbols. A
      negative base is so large that a number has at most two digits in it. */
  predicate Encodable(num: UInt64, base: Int32) {
    || base >= 2
    || (base == 1 && num == 0)
    || (base < 0 && (num < MAX_BASE || 0 <= num - Effective(base) < MAX_BASE))
  }

  /** In every base that divides and shrinks, encodable is having a symbol for each digit. */
  lemma EncodableExactly(num: UInt64, base: Int32)
    requires base < 0 || 2 <= base <= MAX_BASE
    ensures Encodable(num, base) <==> InTable(num, Effective(base))
  {
    var b := Effective(base);
    if base >= 2 {
      AlwaysInTable(num, b);
    } else if num >= b {
      DivModOnce(num, b);
    }
  }

  lemma DivModOnce(n: nat, base: nat)
    requires 2 <= base <= n < 2 * base
    ensures n / base == 1 && n % base == n - base
  {
    DivMod(n, base);
    var q := n / base;
    assert q >= 2 ==> q * base >= 2 * base;
  }

  /** From base 2 to base 62 every number is encodable. */
  lemma {:induction false} AlwaysInTable(n: nat, base: nat)
    requires 2 <= base <= MAX_BASE
    ensures InTable(n, base)
    decreases n
  {
    if n >= base {
      DivMod(n, base);
      AlwaysInTable(n / base, base);
    }
  }

  /** The base a numeral is written in: a lone zero looks the same in base 1 as in any other. */
  function Radix(base: Int32): nat {
    if base < 2 && base >= 0 then 2 else Effective(base)
  }

  /** `AnyBase::encode`. */
  method Encode(num: UInt64, base: Int32) returns (ok: bool, encoded: string)
    requires Encodable(num, base)
    ensures ok == (base <= MAX_BASE)
    ensures ok ==> encoded == Numeral(num, Radix(base))
  {
    if base > MAX_BASE {
      return false, "";
    }
    var b := Effective(base);
    ghost var radix: nat := Radix(base);
    var vtmp: string := "";
    var n: nat := num;
    while true
      invariant b == radix || (b == 1 && n == 0)
      invariant Numeral(n, radix) + Reverse(vtmp) == Numeral(num, radix)
      decreases n
    {
      var quotient, remain := Divide(n, b, radix);
      Turn(n, quotient, Symbol(remain), radix, vtmp);
      n := quotient;
      vtmp := vtmp + [Symbol(remain)];
      if !(n > 0) {
        break;
      }
    }
    return true, Reverse(vtmp);
  }

  /** The two divisions of one turn. */
  method Divide(n: nat, b: nat, ghost radix: nat) returns (quotient: nat, remain: nat)
    requires radix >= 2 && (b == radix || (b == 1 && n == 0))
    ensures n < radix ==> quotient == 0
    ensures n >= radix ==> b == radix && 0 < quotient < n
    ensures Numeral(n, radix) == (if n < radix then [] else Numeral(quotient, radix)) + [Symbol(remain)]
  {
    DivMod(n, radix);
    remain := n % b;
    quotient := n / b;
  }

  lemma Turn(n: nat, quotient: nat, c: char, radix: nat, vtmp: string)
    requires radix >= 2 && Numeral(n, radix) == (if n < radix then [] else Numeral(quotient, radix)) + [c]
    ensures Numeral(n, radix) + Reverse(vtmp) ==
            (if n < radix then [] else Numeral(quotient, radix)) + Reverse(vtmp + [c])
  {
    assert (vtmp + [c])[..|vtmp|] == vtmp;
    assert Reverse(vtmp + [c]) == [c] + Reverse(vtmp);
  }

  /** `AnyBase::decode`. A digit is not compared with the base. */
  method Decode(encoded: string, base: Int32) returns (ok: bool, num: nat)
    ensures ok == (base <= MAX_BASE && ValueOf(encoded, Effective(base)).Some?)
    ensures ok ==> ValueOf(encoded, Effective(base)) == Some(num)
  {
    num := 0;
    if base > MAX_BASE {
      return false, 0;
    }
    var b := Effective(base);
    for i := 0 to |encoded|
      invariant ValueOf(encoded[..i], b) == Some(num)
    {
      assert encoded[..i + 1][..i] == encoded[..i];
      var d := DigitOf(encoded[i]);
      if d.None? {
        NoDigitNoValue(encoded, b, i);
        return false, 0;
      }
      num := (num * b + d.value) % TWO_64;
    }
    assert encoded[..|encoded|] == encoded;
    return true, num;
  }

  lemma {:induction false} NoDigitNoValue(s: string, base: nat, i: nat)
    requires i < |s| && DigitOf(s[i]).None?
    ensures ValueOf(s, base).None?
  {
    if i < |s| - 1 {
      NoDigitNoValue(s[..|s| - 1], base, i);
    }
  }

  // ---------------------------------------------------------------- the store

  type Content = seq<MurmurHash.Byte>

  const HASH_SEED: MurmurHash.Word := 0xFBA4C795
  const INDEX_BASE := 62
  const MAX_LENGTH := 16 * 1024
  const TRIES := 10

  type UInt32 = n: nat | n < TWO_32

  /** Index `k` of an insertion: the hash itself first, then the hash under a random upper
      half. */
  function IndexAt(hash: UInt32, randoms: seq<UInt32>, k: nat): (index: UInt64)
    requires k <= |randoms|
    ensures index % TWO_32 == hash
  {
    if k == 0 then hash else hash + randoms[k - 1] * TWO_32
  }

  function KeyAt(hash: UInt32, randoms: seq<UInt32>, k: nat): string
    requires k <= |randoms|
  {
    Numeral(IndexAt(hash, randoms, k), INDEX_BASE)
  }

  datatype Reply = Stored(key: string) | BadRequest | TooManyCollisions | StoreFailed

  /** The insertion from try `k` on: `fails` are the tries the store answers with an error
      other than "already existed". */
  function Place(store: map<string, Content>, hash: UInt32, randoms: seq<UInt32>, fails: set<nat>, k: nat): Reply
    requires k < TRIES <= |randoms| + 1
    decreases TRIES - k
  {
    var key := KeyAt(hash, randoms, k);
    if k in fails then StoreFailed
    else if key !in store then Stored(key)
    else if k + 1 < TRIES then Place(store, hash, randoms, fails, k + 1)
    else TooManyCollisions
  }

  function Number(w: MurmurHash.Word): UInt32 { w as UInt32 }

  function ContentHash(content: Content): UInt32 {
    Number(MurmurHash.Hash(HASH_SEED, content))
  }

  /** A request: whether its content is well-formed base64, what the generator draws, and which
      tries fail. */
  datatype Request = Request(content: Content, base64: bool, randoms: seq<UInt32>, fails: set<nat>)

  predicate Supplied(r: Request) { TRIES <= |r.randoms| + 1 }

  function Answer(store: map<string, Content>, r: Request): Reply
    requires Supplied(r)
  {
    if !r.base64 || |r.content| > MAX_LENGTH then BadRequest
    else Place(store, ContentHash(r.content), r.randoms, r.fails, 0)
  }

  class Controller {
    var store: map<string, Content>

    constructor ()
      ensures store == map[]
    {
      store := map[];
    }

    method SetOpaqueData(r: Request) returns (reply: Reply)
      requires Supplied(r)
      modifies this
      ensures reply == Answer(old(store), r)
      ensures store == if reply.Stored? then old(store)[reply.key := r.content] else old(store)
    {
      if !r.base64 || |r.content| > MAX_LENGTH {
        return BadRequest;
      }
      var word := MurmurHash.MurmurHash3(HASH_SEED, r.content);
      reply := PlaceContent(r.content, Number(word), r.randoms, r.fails);
    }

    /** The loop over collisions: every retry fills the upper half of the index at random. */
    method PlaceContent(content: Content, hash: UInt32, randoms: seq<UInt32>, fails: set<nat>) returns (reply: Reply)
      requires TRIES <= |randoms| + 1
      modifies this
      ensures reply == Place(old(store), hash, randoms, fails, 0)
      ensures store == if reply.Stored? then old(store)[reply.key := content] else old(store)
    {
      var remainTimes := TRIES;
      var k := 0;
      var index: UInt64 := hash;
      while true
        invariant 0 <= k < TRIES && remainTimes == TRIES - k && index == IndexAt(hash, randoms, k)
        invariant store == old(store)
        invariant Place(store, hash, randoms, fails, k) == Place(store, hash, randoms, fails, 0)
        decreases remainTimes
      {
        var _, key := Encode(index, INDEX_BASE);
        if k in fails {
          return StoreFailed;
        }
        if key !in store {
          store := store[key := content];
          return Stored(key);
        }
        remainTimes := remainTimes - 1;
        if remainTimes <= 0 {
          return TooManyCollisions;
        }
        index := hash + randoms[k] * TWO_32;
        k := k + 1;
      }
    }

    method GetOpaqueData(key: string) returns (content: Option<Content>)
      ensures content == if key in store then Some(store[key]) else None
    {
      if key in store {
        return Some(store[key]);
      }
      return None;
    }
  }

  // ---------------------------------------------------------------- every run

  /** The store, and what each successful request was given and told. */
  datatype State = State(store: map<string, Content>, told: seq<(string, Content)>)

  function Serve(s: State, r: Request): State
    requires Supplied(r)
  {
    var reply := Answer(s.store, r);
    if reply.Stored? then State(s.store[reply.key := r.content], s.told + [(reply.key, r.content)]) else s
  }

  function After(run: seq<Request>): State
    requires forall i :: 0 <= i < |run| ==> Supplied(run[i])
  {
    if run == [] then State(map[], []) else Serve(After(run[..|run| - 1]), run[|run| - 1])
  }

  /** A key handed out was not in the store and is the numeral of one of the indices tried. */
  lemma {:induction false} PlaceFresh(store: map<string, Content>, hash: UInt32, randoms: seq<UInt32>, fails: set<nat>,
                                      k: nat)
    requires k < TRIES <= |randoms| + 1
    ensures var r := Place(store, hash, randoms, fails, k);
            r.Stored? ==> r.key !in store && exists j :: k <= j < TRIES && r.key == KeyAt(hash, randoms, j)
    decreases TRIES - k
  {
    if k + 1 < TRIES {
      PlaceFresh(store, hash, randoms, fails, k + 1);
    }
    if Place(store, hash, randoms, fails, k) == Stored(KeyAt(hash, randoms, k)) {
      assert k <= k < TRIES;
    }
  }

  /** Try `j` is the one that decides: all earlier keys are taken and no earlier call failed. */
  predicate Decides(store: map<string, Content>, hash: UInt32, randoms: seq<UInt32>, fails: set<nat>, k: nat, j: nat)
    requires TRIES <= |randoms| + 1
  {
    && k <= j < TRIES
    && (forall i :: k <= i < j ==> i !in fails && KeyAt(hash, randoms, i) in store)
    && (j in fails || KeyAt(hash, randoms, j) !in store)
  }

  /** The content is stored under the first free key of the ten tried, if no call up to there
      fails; the answer is a collision exactly when all ten keys are taken. */
  lemma {:induction false} PlaceExactly(store: map<string, Content>, hash: UInt32, randoms: seq<UInt32>,
                                        fails: set<nat>, k: nat)
    requires k < TRIES <= |randoms| + 1
    ensures var r := Place(store, hash, randoms, fails, k);
            && (forall j: nat :: Decides(store, hash, randoms, fails, k, j) ==>
                  r == if j in fails then StoreFailed else Stored(KeyAt(hash, randoms, j)))
            && (r == TooManyCollisions <==>
                  forall i :: k <= i < TRIES ==> i !in fails && KeyAt(hash, randoms, i) in store)
    decreases TRIES - k
  {
    if k + 1 < TRIES {
      PlaceExactly(store, hash, randoms, fails, k + 1);
    }
    var free := k in fails || KeyAt(hash, randoms, k) !in store;
    forall j: nat | Decides(store, hash, randoms, fails, k, j)
      ensures if free then j == k else j > k && Decides(store, hash, randoms, fails, k + 1, j)
    {}
  }

  /** The key decodes to a number whose low half is the hash of the content. */
  predicate CarriesHash(key: string, content: Content) {
    var v := ValueOf(key, INDEX_BASE);
    v.Some? && v.value % TWO_32 == ContentHash(content)
  }

  lemma AnswerFresh(store: map<string, Content>, r: Request)
    requires Supplied(r)
    ensures var reply := Answer(store, r); reply.Stored? ==> reply.key !in store && CarriesHash(reply.key, r.content)
  {
    var reply := Answer(store, r);
    if reply.Stored? {
      var hash := ContentHash(r.content);
      PlaceFresh(store, hash, r.randoms, r.fails, 0);
      var j :| 0 <= j < TRIES && reply.key == KeyAt(hash, r.randoms, j);
      NumeralRoundTrip(IndexAt(hash, r.randoms, j), INDEX_BASE);
    }
  }

  predicate Holds(s: State, i: nat)
    requires i < |s.told|
  {
    && s.told[i].0 in s.store && s.store[s.told[i].0] == s.told[i].1
    && CarriesHash(s.told[i].0, s.told[i].1)
  }

  ghost predicate Faithful(s: State) {
    && (forall i :: 0 <= i < |s.told| ==> Holds(s, i))
    && (forall i, j :: 0 <= i < j < |s.told| ==> s.told[i].0 != s.told[j].0)
  }

  lemma ServeKeepsFaithful(s: State, r: Request)
    requires Faithful(s) && Supplied(r)
    ensures Faithful(Serve(s, r))
  {
    AnswerFresh(s.store, r);
    var s' := Serve(s, r);
    if s' != s {
      forall i | 0 <= i < |s.told| ensures Holds(s', i) && s'.told[i].0 != s'.told[|s.told|].0 {
        assert Holds(s, i) && s'.told[i] == s.told[i];
      }
    }
  }

  /** Over every run each key handed out reads back its own content for ever and carries its
      hash, and no key is handed out twice. */
  lemma {:induction false} KeysStayFaithful(run: seq<Request>)
    requires forall i :: 0 <= i < |run| ==> Supplied(run[i])
    ensures Faithful(After(run))
  {
    if run != [] {
      KeysStayFaithful(run[..|run| - 1]);
      ServeKeepsFaithful(After(run[..|run| - 1]), run[|run| - 1]);
    }
  }
}
