/** `BloomFilters` as the mutable object of `src/bloom/bloom_filters.cpp`, proved against the
    values of module `BloomFilter`, and its two users: the patch handler of
    `src/controllers/contact_controller.cpp` and the mutual-friend check of
    `src/controllers/group_manager_controller.cpp`. */
module BloomFilters {
  import opened Wrappers
  import opened MurmurHash
  import opened BloomFilter

  class BloomFilters {
    const hashFunc: HashFunc
    var full: bool
    var empty: bool
    var filters: seq<Byte>

    ghost function Value(): Filter
      reads this
    {
      Filter(hashFunc, full, empty, filters)
    }

    constructor (algo: nat, length: nat)
      requires length < 0x1_0000_0000
      ensures Value() == New(algo, length)
    {
      hashFunc := ChooseAlgo(algo);
      full := false;
      empty := true;
      filters := seq(ByteCount(length), _ => 0);
    }

    constructor FromContent(algo: nat, content: seq<Byte>)
      ensures Value() == BloomFilter.FromContent(algo, content)
    {
      hashFunc := ChooseAlgo(algo);
      filters := content;
      new;
      UpdateEmptyFull();
    }

    method UpdateEmptyFull()
      modifies this`full, this`empty
      ensures full == AllOnes(filters) && empty == AllZero(filters)
    {
      var f, e := true, true;
      for k := 0 to |filters|
        invariant f == AllOnes(filters[..k]) && e == AllZero(filters[..k])
      {
        assert filters[..k + 1] == filters[..k] + [filters[k]];
        f := f && filters[k] == 0xff;
        e := e && filters[k] == 0;
      }
      assert filters[..|filters|] == filters;
      full := f;
      empty := e;
    }

    method FromFiltersContent(content: seq<Byte>) returns (ok: bool)
      modifies this
      ensures ok == (|content| == |old(filters)|)
      ensures Value() == Reload(old(Value()), content)
    {
      if |content| != |filters| {
        return false;
      }
      filters := content;
      UpdateEmptyFull();
      return true;
    }

    method Insert(key: Key)
      requires CanInsert(Value(), key)
      modifies this`filters, this`empty
      ensures Value() == BloomFilter.Insert(old(Value()), key)
    {
      if full {
        return;
      }
      var hashes := hashFunc(key);
      if hashes == [] {
        return;
      }
      var n := |filters|;
      for k := 0 to |hashes|
        invariant |filters| == n && filters == SetAll(old(filters), hashes[..k])
      {
        assert hashes[..k + 1][..k] == hashes[..k];
        filters := SetBit(filters, Index(hashes[k], n));
      }
      assert hashes[..|hashes|] == hashes;
      empty := false;
    }

    method Contains(key: Key) returns (found: bool)
      requires CanProbe(Value(), key)
      ensures found == BloomFilter.Contains(Value(), key)
    {
      if full {
        return true;
      }
      if empty {
        return false;
      }
      var hashes := hashFunc(key);
      if hashes == [] {
        return false;
      }
      for k := 0 to |hashes|
        invariant forall m :: 0 <= m < k ==> Bit(filters, Index(hashes[m], |filters|))
      {
        if !Bit(filters, Index(hashes[k], |filters|)) {
          return false;
        }
      }
      return true;
    }

    method Update(values: map<nat, bool>)
      modifies this`filters
      ensures Patched(old(Value()), values, Value())
    {
      var rest := values.Keys;
      var n := |filters|;
      while rest != {}
        invariant rest <= values.Keys && |filters| == n
        invariant forall j: nat :: j < 8 * n ==>
                    (Bit(filters, j) <==> if j in values && j !in rest then values[j] else Bit(old(filters), j))
      {
        var p :| p in rest;
        if p < 8 * n {
          forall j: nat | j < 8 * n
            ensures Bit(SetBit(filters, p), j) <==> p == j || Bit(filters, j)
            ensures Bit(ClearBit(filters, p), j) <==> p != j && Bit(filters, j)
          {
            BitAfterWrite(filters, p, j);
          }
          filters := if values[p] then SetBit(filters, p) else ClearBit(filters, p);
        }
        rest := rest - {p};
      }
    }
  }

  // ---------------------------------------------------------------- patching stored filters

  datatype Patch = Patch(position: nat, value: bool)

  /** The value the last patch of a position writes, if any does. */
  function LastPatch(patches: seq<Patch>, j: nat): Option<bool> {
    if patches == [] then None
    else
      var last := patches[|patches| - 1];
      if last.position == j then Some(last.value) else LastPatch(patches[..|patches| - 1], j)
  }

  /** `patchContactsFilters` behind its version check: later patches of a position win, and
      the content stored is the patched one. */
  method PatchContent(algo: nat, content: seq<Byte>, patches: seq<Patch>) returns (r: seq<Byte>)
    ensures |r| == |content|
    ensures forall j: nat :: j < 8 * |r| ==>
              (Bit(r, j) <==> match LastPatch(patches, j)
                              case Some(v) => v
                              case None => Bit(content, j))
  {
    var values: map<nat, bool> := map[];
    for k := 0 to |patches|
      invariant forall j: nat {:trigger j in values} :: j in values <==> LastPatch(patches[..k], j).Some?
      invariant forall j: nat {:trigger values[j]} :: j in values ==> LastPatch(patches[..k], j) == Some(values[j])
    {
      assert patches[..k + 1][..k] == patches[..k];
      values := values[patches[k].position := patches[k].value];
    }
    assert patches[..|patches|] == patches;
    var filters := new BloomFilters.FromContent(algo, content);
    filters.Update(values);
    r := filters.filters;
    forall j: nat | j < 8 * |r|
      ensures Bit(r, j) <==> match LastPatch(patches, j) case Some(v) => v case None => Bit(content, j)
    {
      assert j in values <==> LastPatch(patches, j).Some?;
    }
  }

  // ---------------------------------------------------------------- mutual friends

  /** A stored contacts filter, decoded. */
  datatype Stored = Stored(algo: nat, content: seq<Byte>)

  predicate Accepts(stored: Option<Stored>, uid: Key) {
    stored.Some? ==>
      var f := FromContent(stored.value.algo, stored.value.content);
      CanProbe(f, uid) && Contains(f, uid)
  }

  lemma RebuiltCanProbe(algo: nat, content: seq<Byte>, uid: Key)
    ensures CanProbe(FromContent(algo, content), uid)
  {}

  /** How a check answers when it refuses: with success to hide a missing friendship, with an
      error when an account does not load. */
  datatype Refusal = HiddenBySuccess | ServerError

  predicate OwnAccepts(own: Option<Stored>, members: seq<Key>) {
    forall j :: 0 <= j < |members| ==> Accepts(own, members[j])
  }

  /** The first `k` members load and accept the account. A member whose account does not load
      is absent from `accounts`. */
  predicate AcceptedBy(uid: Key, members: seq<Key>, accounts: map<Key, Option<Stored>>, k: nat)
    requires k <= |members|
  {
    forall j :: 0 <= j < k ==> members[j] in accounts && Accepts(accounts[members[j]], uid)
  }

  /** `checkBidirectionalRelationship`: the account's own filter must hold every member, and
      every member's account must load and hold the account in its filter, where filters
      are kept at all. The refusal is that of the first member that fails. */
  method CheckBidirectionalRelationship(uid: Key, own: Option<Stored>, members: seq<Key>,
                                        accounts: map<Key, Option<Stored>>) returns (refusal: Option<Refusal>)
    ensures refusal.None? <==> OwnAccepts(own, members) && AcceptedBy(uid, members, accounts, |members|)
    ensures refusal == Some(ServerError) <==>
            OwnAccepts(own, members) &&
            exists k :: 0 <= k < |members| && AcceptedBy(uid, members, accounts, k) && members[k] !in accounts
  {
    if own.Some? {
      var filter := new BloomFilters.FromContent(own.value.algo, own.value.content);
      for k := 0 to |members|
        invariant forall j :: 0 <= j < k ==> Accepts(own, members[j])
        invariant filter.Value() == FromContent(own.value.algo, own.value.content)
      {
        RebuiltCanProbe(own.value.algo, own.value.content, members[k]);
        var found := filter.Contains(members[k]);
        if !found {
          return Some(HiddenBySuccess);
        }
      }
    }
    for k := 0 to |members|
      invariant AcceptedBy(uid, members, accounts, k)
    {
      if members[k] !in accounts {
        return Some(ServerError);
      }
      var stored := accounts[members[k]];
      if stored.Some? {
        var filter := new BloomFilters.FromContent(stored.value.algo, stored.value.content);
        RebuiltCanProbe(stored.value.algo, stored.value.content, uid);
        var found := filter.Contains(uid);
        if !found {
          return Some(HiddenBySuccess);
        }
      }
    }
    return None;
  }

  /** The stored filter is absent, or is the exported content of a filter of algorithm 0 and
      at least one byte into which all of `uids`, among others, were inserted. */
  ghost predicate Lists(stored: Option<Stored>, uids: seq<Key>) {
    stored.Some? ==>
      exists length: nat, keys: seq<Key> ::
        && 0 < length <= 0xffff_fff8 && Coherent(New(0, length))
        && stored.value == Stored(0, InsertAll(New(0, length), keys).bytes)
        && forall u :: u in uids ==> u in keys
  }

  lemma ListedAccepted(stored: Option<Stored>, uids: seq<Key>, uid: Key)
    requires Lists(stored, uids) && uid in uids
    ensures Accepts(stored, uid)
  {
    if stored.Some? {
      var length: nat, keys: seq<Key> :|
        && 0 < length <= 0xffff_fff8 && Coherent(New(0, length))
        && stored.value == Stored(0, InsertAll(New(0, length), keys).bytes)
        && forall u :: u in uids ==> u in keys;
      AlgoKinds(0);
      var n :| 0 <= n < |keys| && keys[n] == uid;
      NoFalseNegatives(New(0, length), keys, n);
      RebuildPreserves(InsertAll(New(0, length), keys), 0, uid);
    }
  }

  /** Friends are never rejected: when the account's filter lists every member and every
      member's filter lists the account, the check succeeds. */
  lemma MutualFriendsAccepted(uid: Key, own: Option<Stored>, members: seq<Key>, accounts: map<Key, Option<Stored>>)
    requires Lists(own, members)
    requires forall m :: m in members ==> m in accounts && Lists(accounts[m], [uid])
    ensures OwnAccepts(own, members) && AcceptedBy(uid, members, accounts, |members|)
  {
    forall j | 0 <= j < |members| ensures Accepts(own, members[j]) && Accepts(accounts[members[j]], uid) {
      ListedAccepted(own, members, members[j]);
      ListedAccepted(accounts[members[j]], [uid], uid);
    }
  }
}
