/** The FNV hash of `src/crypto/fnv.cpp` and the diff of contact parts built on it in
    `src/controllers/contact_controller.cpp`. */
module ContactParts {
  import opened Wrappers
  import opened MurmurHash

  const BASIS: Word := 0x811C9DC5

  function Spread(x: Word): Word { x * 16777619 }

  function Step(h: Word, b: Byte): Word {
    Spread(Xor(h, b as Word))
  }

  function Fnv(data: seq<Byte>): Word {
    if data == [] then BASIS else Step(Fnv(data[..|data| - 1]), data[|data| - 1])
  }

  method FnvHash(data: seq<Byte>) returns (h: Word)
    ensures h == Fnv(data)
  {
    h := BASIS;
    for i := 0 to |data|
      invariant h == Fnv(data[..i])
    {
      assert data[..i + 1][..i] == data[..i];
      h := Spread(Xor(h, data[i] as Word));
    }
    assert data[..|data|] == data;
  }

  /** The published values of the 32-bit hash of "" and "a". */
  lemma ReferenceValues()
    ensures Fnv([]) == 0x811c9dc5 && Fnv([0x61]) == 0xe40c292c
  {
    var a: seq<Byte> := [0x61];
    assert a[..0] == [];
    assert Fnv(a) == Step(BASIS, 0x61);
  }

  // ---------------------------------------------------------------- one changed byte

  function Unspread(x: Word): Word { x * 0x359c449b }

  lemma SpreadInvertible(x: Word)
    ensures Unspread(Spread(x)) == x
  {
    assert Unspread(x * 16777619) == x;
  }

  lemma XorCancels(h: Word, g: Word, x: Word)
    requires Xor(h, x) == Xor(g, x)
    ensures h == g
  {
    XorTwice(h, x);
    XorTwice(g, x);
  }

  lemma BytesDiffer(h: Word, a: Byte, b: Byte)
    requires Xor(h, a as Word) == Xor(h, b as Word)
    ensures a == b
  {}

  lemma StepsDiffer(h: Word, g: Word, a: Byte, b: Byte)
    requires (h == g) != (a == b)
    ensures Step(h, a) != Step(g, b)
  {
    var x, y := Xor(h, a as Word), Xor(g, b as Word);
    SpreadInvertible(x);
    SpreadInvertible(y);
    if x == y {
      if a == b {
        XorCancels(h, g, a as Word);
      } else {
        BytesDiffer(h, a, b);
      }
    }
  }

  /** Equal lengths and exactly one position with different bytes. */
  ghost predicate OneByteApart(s: seq<Byte>, t: seq<Byte>, at: nat) {
    && |s| == |t| && at < |s| && s[at] != t[at]
    && forall i :: 0 <= i < |s| && i != at ==> s[i] == t[i]
  }

  lemma {:induction false} OneByteChangesHash(s: seq<Byte>, t: seq<Byte>, at: nat)
    requires OneByteApart(s, t, at)
    ensures Fnv(s) != Fnv(t)
    decreases |s|
  {
    var n := |s| - 1;
    var s', t' := s[..n], t[..n];
    if at == n {
      assert s' == t';
    } else {
      assert forall i :: 0 <= i < n ==> s'[i] == s[i] && t'[i] == t[i];
      OneByteChangesHash(s', t', at);
    }
    StepsDiffer(Fnv(s'), Fnv(t'), s[n], t[n]);
  }

  // ---------------------------------------------------------------- the diff handler

  type Part = string

  /** What the store says: the parts it has, that it has none, or that it failed. */
  datatype Lookup = Found(latest: map<Part, seq<Byte>>) | NoSuchData | Failed

  datatype Response = BadRequest | NoContent | ServerError | Changed(contacts: map<Part, seq<Byte>>)

  /** A part as the handler reads it: one the store left out reads as empty. */
  function Stored(latest: map<Part, seq<Byte>>, p: Part): seq<Byte> {
    if p in latest then latest[p] else []
  }

  function Diff(hash: map<Part, Word>, latest: map<Part, seq<Byte>>): map<Part, seq<Byte>> {
    map p | p in hash && Fnv(Stored(latest, p)) != hash[p] :: Stored(latest, p)
  }

  method RestoreInParts(hash: map<Part, Word>, lookup: Lookup) returns (r: Response)
    ensures r.BadRequest? <==> hash == map[]
    ensures r.ServerError? <==> hash != map[] && lookup.Failed?
    ensures r.NoContent? <==> hash != map[] && (lookup.NoSuchData? || (lookup.Found? && |lookup.latest| != |hash|))
    ensures r.Changed? ==> lookup.Found? && r.contacts == Diff(hash, lookup.latest)
  {
    if hash == map[] {
      return BadRequest;
    }
    if lookup.NoSuchData? {
      return NoContent;
    }
    if lookup.Failed? {
      return ServerError;
    }
    var latest := lookup.latest;
    if |latest| != |hash| {
      return NoContent;
    }
    var contacts: map<Part, seq<Byte>> := map[];
    var rest := hash.Keys;
    while rest != {}
      invariant rest <= hash.Keys
      invariant forall p :: p in contacts <==> p in hash && p !in rest && Fnv(Stored(latest, p)) != hash[p]
      invariant forall p :: p in contacts ==> contacts[p] == Stored(latest, p)
    {
      var part :| part in rest;
      var latestHash := FnvHash(Stored(latest, part));
      if latestHash != hash[part] {
        contacts := contacts[part := Stored(latest, part)];
      }
      rest := rest - {part};
    }
    assert contacts == Diff(hash, latest);
    return Changed(contacts);
  }

  /** A store that answers with requested parts only is taken to be complete exactly when it
      has them all. */
  lemma CompleteExactly(hash: map<Part, Word>, latest: map<Part, seq<Byte>>)
    requires latest.Keys <= hash.Keys
    ensures |latest| == |hash| <==> latest.Keys == hash.Keys
  {
    assert |latest| == |latest.Keys| && |hash| == |hash.Keys|;
    EqualSizeSubset(latest.Keys, hash.Keys);
  }

  /** A part whose stored bytes are one byte away from the client's is sent back, with the
      stored bytes; a part that is unchanged is not. */
  lemma EditedPartReturned(hash: map<Part, Word>, latest: map<Part, seq<Byte>>, part: Part, client: seq<Byte>)
    requires part in hash && hash[part] == Fnv(client)
    ensures (exists at: nat :: OneByteApart(Stored(latest, part), client, at)) ==>
              part in Diff(hash, latest) && Diff(hash, latest)[part] == Stored(latest, part)
    ensures Stored(latest, part) == client ==> part !in Diff(hash, latest)
  {
    if at: nat :| OneByteApart(Stored(latest, part), client, at) {
      OneByteChangesHash(Stored(latest, part), client, at);
    }
  }
}
