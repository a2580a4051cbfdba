/** `KeysCache` of `src/controllers/group_manager_controller_V3.cpp`: lists of records kept in
    a string cache under a key made of group id and version, each record framed by its
    little-endian length. */
module KeysCache {
  import opened Wrappers

  type Byte = b: int | 0 <= b < 256

  // ---------------------------------------------------------------- cache keys

  function Digit(d: nat): char
    requires d < 10
  {
    "0123456789"[d]
  }

  function Decimal(n: nat): (s: string)
    ensures |s| > 0
  {
    if n < 10 then [Digit(n)] else Decimal(n / 10) + [Digit(n % 10)]
  }

  function Signed(v: int): string {
    if v < 0 then "-" + Decimal(-v) else Decimal(v)
  }

  function CacheKey(gid: nat, version: int): string {
    Decimal(gid) + "_" + Signed(version)
  }

  lemma {:induction false} DecimalDigits(n: nat, i: nat)
    requires i < |Decimal(n)|
    ensures '0' <= Decimal(n)[i] <= '9'
  {
    if n >= 10 && i < |Decimal(n / 10)| {
      DecimalDigits(n / 10, i);
    }
  }

  lemma DigitInjective(a: nat, b: nat)
    requires a < 10 && b < 10 && Digit(a) == Digit(b)
    ensures a == b
  {}

  lemma DecimalLength(n: nat)
    ensures |Decimal(n)| >= 1 && (|Decimal(n)| == 1 <==> n < 10)
  {
    if n >= 10 {
      assert |Decimal(n / 10)| >= 1;
    }
  }

  lemma {:induction false} DecimalInjective(m: nat, n: nat)
    requires Decimal(m) == Decimal(n)
    ensures m == n
    decreases m
  {
    var s := Decimal(m);
    DecimalLength(m);
    DecimalLength(n);
    assert s[|s| - 1] == Digit(m % 10) == Digit(n % 10);
    DigitInjective(m % 10, n % 10);
    if m >= 10 && n >= 10 {
      assert Decimal(m / 10) == s[..|s| - 1] == Decimal(n / 10);
      DecimalInjective(m / 10, n / 10);
    }
  }

  lemma SignedHead(v: int)
    ensures Signed(v) != [] && (Signed(v)[0] == '-' <==> v < 0)
  {
    var n: nat := if v < 0 then -v else v;
    DecimalLength(n);
    DecimalDigits(n, 0);
  }

  lemma SignedInjective(v: int, w: int)
    requires Signed(v) == Signed(w)
    ensures v == w
  {
    SignedHead(v);
    SignedHead(w);
    if v < 0 && w < 0 {
      assert Decimal(-v) == Signed(v)[1..] == Decimal(-w);
      DecimalInjective(-v, -w);
    } else if v >= 0 && w >= 0 {
      DecimalInjective(v, w);
    }
  }

  lemma NoShorterGid(g: nat, v: int, h: nat, w: int)
    requires |Decimal(g)| < |Decimal(h)|
    ensures CacheKey(g, v) != CacheKey(h, w)
  {
    DecimalDigits(h, |Decimal(g)|);
    assert CacheKey(g, v)[|Decimal(g)|] == '_';
    assert CacheKey(h, w)[|Decimal(g)|] == Decimal(h)[|Decimal(g)|];
  }

  /** Different pairs of group id and version never share a cache key. */
  lemma CacheKeyInjective(g: nat, v: int, h: nat, w: int)
    requires CacheKey(g, v) == CacheKey(h, w)
    ensures g == h && v == w
  {
    if |Decimal(g)| < |Decimal(h)| {
      NoShorterGid(g, v, h, w);
    } else if |Decimal(h)| < |Decimal(g)| {
      NoShorterGid(h, w, g, v);
    }
    var n := |Decimal(g)|;
    assert Decimal(g) == CacheKey(g, v)[..n] == Decimal(h);
    assert Signed(v) == CacheKey(g, v)[n + 1..] == Signed(w);
    DecimalInjective(g, h);
    SignedInjective(v, w);
  }

  lemma CacheKeySample()
    ensures CacheKey(12, -3) == "12_-3"
  {
    assert Decimal(1) == "1" && Decimal(12) == "12" && Decimal(3) == "3";
  }

  // ---------------------------------------------------------------- framing

  function LE32(n: nat): (r: seq<Byte>)
    requires n < 0x1_0000_0000
    ensures |r| == 4
  {
    var b0: int, b1: int, b2: int, b3: int := n % 256, n / 256 % 256, n / 65536 % 256, n / 16777216;
    [b0, b1, b2, b3]
  }

  function ReadLE32(s: seq<Byte>): nat
    requires |s| >= 4
  {
    (s[0] as nat) + 256 * (s[1] as nat) + 65536 * (s[2] as nat) + 16777216 * (s[3] as nat)
  }

  lemma LittleEndian()
    ensures LE32(0x01020304) == [4, 3, 2, 1]
  {}

  lemma LengthRoundTrip(n: nat)
    requires n < 0x1_0000_0000
    ensures ReadLE32(LE32(n)) == n
  {
    assert n / 65536 == n / 256 / 256 && n / 16777216 == n / 256 / 256 / 256;
  }

  /** The serialised records, one after the other. The encoding of a record itself belongs to
      the protocol library: it is the byte string of each element. */
  function Frames(records: seq<seq<Byte>>): seq<Byte>
    requires Framable(records)
  {
    if records == [] then [] else LE32(|records[0]|) + records[0] + Frames(records[1..])
  }

  predicate Framable(records: seq<seq<Byte>>) {
    forall i :: 0 <= i < |records| ==> |records[i]| < 0x1_0000_0000
  }

  /** Whether the protocol library can parse a byte string as a record. */
  type Parser = seq<Byte> -> bool

  predicate AllParse(records: seq<seq<Byte>>, parses: Parser) {
    forall i :: 0 <= i < |records| ==> parses(records[i])
  }

  /** The record at the head of a buffer. */
  predicate HasFrame(value: seq<Byte>) {
    |value| >= 4 && 4 + ReadLE32(value) <= |value|
  }

  function Head(value: seq<Byte>): seq<Byte>
    requires HasFrame(value)
  {
    value[4..4 + ReadLE32(value)]
  }

  function Rest(value: seq<Byte>): (rest: seq<Byte>)
    requires HasFrame(value)
    ensures |rest| < |value|
  {
    value[4 + ReadLE32(value)..]
  }

  /** Whole frames up to the end, or up to a record that does not parse: on any other buffer the
      walk reads past the end. */
  predicate Readable(value: seq<Byte>, parses: Parser)
    decreases |value|
  {
    value == [] || (HasFrame(value) && (parses(Head(value)) ==> Readable(Rest(value), parses)))
  }

  /** The records of a buffer, unless one of them does not parse. */
  function Unframe(value: seq<Byte>, parses: Parser): Option<seq<seq<Byte>>>
    requires Readable(value, parses)
    decreases |value|
  {
    if value == [] then Some([])
    else if !parses(Head(value)) then None
    else Cons(Head(value), Unframe(Rest(value), parses))
  }

  function Cons(record: seq<Byte>, rest: Option<seq<seq<Byte>>>): Option<seq<seq<Byte>>> {
    if rest.None? then None else Some([record] + rest.value)
  }

  lemma HeadAndRest(record: seq<Byte>, rest: seq<Byte>)
    requires |record| < 0x1_0000_0000
    ensures var value := LE32(|record|) + record + rest;
            HasFrame(value) && Head(value) == record && Rest(value) == rest
  {
    var n, value := |record|, LE32(|record|) + record + rest;
    LengthRoundTrip(n);
    assert value[..4] == LE32(n);
    assert ReadLE32(value) == n;
    assert value[4..4 + n] == record;
    assert value[4 + n..] == rest;
  }

  /** Reading what was written gives the list back if and only if every record parses. */
  lemma {:induction false} FramesRoundTrip(records: seq<seq<Byte>>, parses: Parser)
    requires Framable(records)
    ensures Readable(Frames(records), parses)
    ensures Unframe(Frames(records), parses) == if AllParse(records, parses) then Some(records) else None
  {
    if records != [] {
      FramesRoundTrip(records[1..], parses);
      HeadAndRest(records[0], Frames(records[1..]));
      assert records == [records[0]] + records[1..];
      assert AllParse(records, parses) <==> parses(records[0]) && AllParse(records[1..], parses);
    }
  }

  lemma {:induction false} FramesSnoc(records: seq<seq<Byte>>, record: seq<Byte>)
    requires Framable(records) && |record| < 0x1_0000_0000
    ensures Framable(records + [record]) && Frames(records + [record]) == Frames(records) + LE32(|record|) + record
  {
    var all := records + [record];
    if records != [] {
      FramesSnoc(records[1..], record);
      assert all[0] == records[0] && all[1..] == records[1..] + [record];
    }
  }

  /** `serialize`: an empty list is refused. */
  method Serialize(keys: seq<seq<Byte>>) returns (ok: bool, value: seq<Byte>)
    requires Framable(keys)
    ensures ok == (keys != [])
    ensures ok ==> value == Frames(keys)
  {
    value := [];
    if keys == [] {
      return false, value;
    }
    for i := 0 to |keys|
      invariant value == Frames(keys[..i])
    {
      assert keys[..i + 1] == keys[..i] + [keys[i]];
      FramesSnoc(keys[..i], keys[i]);
      value := value + LE32(|keys[i]|) + keys[i];
    }
    assert keys[..|keys|] == keys;
    return true, value;
  }

  /** What is left to read once `keys` have been read. */
  function Onto(keys: seq<seq<Byte>>, rest: Option<seq<seq<Byte>>>): Option<seq<seq<Byte>>> {
    if rest.None? then None else Some(keys + rest.value)
  }

  lemma OntoCons(keys: seq<seq<Byte>>, record: seq<Byte>, rest: Option<seq<seq<Byte>>>)
    ensures Onto(keys, Cons(record, rest)) == Onto(keys + [record], rest)
  {
    if rest.Some? {
      assert keys + ([record] + rest.value) == (keys + [record]) + rest.value;
    }
  }

  lemma OntoNothing(keys: seq<seq<Byte>>, rest: Option<seq<seq<Byte>>>)
    ensures Onto([], rest) == rest && Onto(keys, Some([])) == Some(keys)
  {
    assert keys + [] == keys;
    if rest.Some? {
      assert [] + rest.value == rest.value;
    }
  }

  /** The frame at a position, in the coordinates of the whole buffer. */
  lemma FrameAt(value: seq<Byte>, pos: nat)
    requires pos < |value| && HasFrame(value[pos..])
    ensures var end := pos + 4 + ReadLE32(value[pos..]);
            && end <= |value|
            && Head(value[pos..]) == value[pos + 4..end] && Rest(value[pos..]) == value[end..]
  {
    var rest, n := value[pos..], ReadLE32(value[pos..]);
    assert rest[4..4 + n] == value[pos + 4..pos + 4 + n];
    assert rest[4 + n..] == value[pos + 4 + n..];
  }

  /** `deserialize`: the walk over the buffer, ended by the first record that does not parse. */
  method Deserialize(value: seq<Byte>, parses: Parser) returns (ok: bool, keys: seq<seq<Byte>>)
    requires Readable(value, parses)
    ensures ok == Unframe(value, parses).Some?
    ensures ok ==> Unframe(value, parses) == Some(keys)
  {
    keys := [];
    var pos: nat := 0;
    assert value[0..] == value;
    OntoNothing([], Unframe(value, parses));
    while pos < |value|
      invariant pos <= |value| && Readable(value[pos..], parses)
      invariant Onto(keys, Unframe(value[pos..], parses)) == Unframe(value, parses)
    {
      FrameAt(value, pos);
      var end := pos + 4 + ReadLE32(value[pos..]);
      var key := value[pos + 4..end];
      if !parses(key) {
        return false, keys;
      }
      OntoCons(keys, key, Unframe(value[end..], parses));
      keys := keys + [key];
      pos := end;
    }
    assert value[pos..] == [];
    OntoNothing(keys, None);
    ok := true;
  }

  // ---------------------------------------------------------------- the cache as a map

  type Store = map<string, seq<Byte>>

  function Set(m: Store, gid: nat, version: int, keys: seq<seq<Byte>>): Store
    requires Framable(keys)
  {
    if keys == [] then m else m[CacheKey(gid, version) := Frames(keys)]
  }

  /** A missing or empty value, and one with a record that does not parse, is no answer. */
  function Get(m: Store, parses: Parser, gid: nat, version: int): Option<seq<seq<Byte>>> {
    var k := CacheKey(gid, version);
    if k !in m || m[k] == [] || !Readable(m[k], parses) then None else Unframe(m[k], parses)
  }

  /** The cache behaves as a map from pairs of group id and version to lists of records: a
      non-empty list of records that parse is read back where it was set and nothing else
      changes; an empty one is not set. */
  lemma CacheIsMap(m: Store, parses: Parser, gid: nat, version: int, keys: seq<seq<Byte>>, g: nat, v: int)
    requires Framable(keys)
    ensures Get(Set(m, gid, version, keys), parses, g, v) ==
            if (g, v) != (gid, version) || keys == [] then Get(m, parses, g, v)
            else if AllParse(keys, parses) then Some(keys)
            else None
  {
    FramesRoundTrip(keys, parses);
    if CacheKey(g, v) == CacheKey(gid, version) {
      CacheKeyInjective(g, v, gid, version);
    }
    if keys != [] {
      assert |Frames(keys)| >= 4;
    }
  }
}
