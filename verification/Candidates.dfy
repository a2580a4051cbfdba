/** `selectKeyDistributionCandidates` of `src/controllers/group_manager_controller.cpp`: from
    a start index it collects online users until there are enough, taking master devices
    only, and does not move past a device that is not one. */
module Candidates {
  const MASTER_ID: nat := 1

  datatype User = User(uid: string, deviceId: nat)

  /** The loop variables after some rounds. */
  datatype Loop = Loop(index: nat, candidates: set<User>)

  predicate Distinct(users: seq<User>) {
    forall i, j :: 0 <= i < j < |users| ==> users[i] != users[j]
  }

  /** The index after `i`, cyclically. */
  function NextIndex(i: nat, n: nat): (r: nat)
    requires i < n
    ensures r < n
  {
    if i + 1 == n then 0 else i + 1
  }

  lemma NextIndexIsModulo(i: nat, n: nat)
    requires i < n
    ensures NextIndex(i, n) == (i + 1) % n
  {}

  function Round(users: seq<User>, l: Loop): (r: Loop)
    requires l.index < |users|
    ensures r.index < |users|
  {
    if users[l.index].deviceId == MASTER_ID
    then Loop(NextIndex(l.index, |users|), l.candidates + {users[l.index]})
    else l
  }

  function Rounds(users: seq<User>, start: nat, k: nat): (r: Loop)
    requires start < |users|
    ensures r.index < |users|
  {
    if k == 0 then Loop(start, {}) else Round(users, Rounds(users, start, k - 1))
  }

  /** The index `k` places after the start, cyclically, for at most one turn. */
  function Offset(n: nat, start: nat, k: nat): (r: nat)
    requires start < n && k <= n
    ensures r < n
  {
    if start + k < n then start + k else start + k - n
  }

  function At(users: seq<User>, start: nat, k: nat): User
    requires start < |users| && k <= |users|
  {
    users[Offset(|users|, start, k)]
  }

  /** The first `k` users from the start. */
  function Window(users: seq<User>, start: nat, k: nat): set<User>
    requires start < |users| && k <= |users|
  {
    if k == 0 then {} else Window(users, start, k - 1) + {At(users, start, k - 1)}
  }

  lemma {:induction false} WindowIs(users: seq<User>, start: nat, k: nat, u: User)
    requires start < |users| && k <= |users|
    ensures u in Window(users, start, k) <==> exists i :: 0 <= i < k && At(users, start, i) == u
  {
    if k > 0 {
      WindowIs(users, start, k - 1, u);
      assert u in Window(users, start, k) <==> u in Window(users, start, k - 1) || u == At(users, start, k - 1);
    }
  }

  predicate AllMasters(users: seq<User>, start: nat, k: nat)
    requires start < |users| && k <= |users|
  {
    forall i :: 0 <= i < k ==> At(users, start, i).deviceId == MASTER_ID
  }

  // ---------------------------------------------------------------- rounds

  lemma {:induction false} MastersAdvance(users: seq<User>, start: nat, k: nat)
    requires start < |users| && k <= |users| && AllMasters(users, start, k)
    ensures Rounds(users, start, k) == Loop(Offset(|users|, start, k), Window(users, start, k))
  {
    if k > 0 {
      MastersAdvance(users, start, k - 1);
      assert At(users, start, k - 1).deviceId == MASTER_ID;
    }
  }

  lemma {:induction false} StuckForGood(users: seq<User>, start: nat, m: nat, k: nat)
    requires start < |users| && m <= |users| && AllMasters(users, start, m) && m <= k
    requires At(users, start, m).deviceId != MASTER_ID
    ensures Rounds(users, start, k) == Loop(Offset(|users|, start, m), Window(users, start, m))
  {
    if k == m {
      MastersAdvance(users, start, m);
    } else {
      StuckForGood(users, start, m, k - 1);
    }
  }

  lemma LastIsNew(users: seq<User>, start: nat, k: nat)
    requires start < |users| && Distinct(users) && k < |users|
    ensures At(users, start, k) !in Window(users, start, k)
  {
    forall i: nat | i < k ensures At(users, start, i) != At(users, start, k) {
      var a, b := Offset(|users|, start, i), Offset(|users|, start, k);
      assert a != b;
      assert users[a] != users[b];
    }
    WindowIs(users, start, k, At(users, start, k));
  }

  lemma {:induction false} WindowSize(users: seq<User>, start: nat, k: nat)
    requires start < |users| && Distinct(users) && k <= |users|
    ensures |Window(users, start, k)| == k
  {
    if k > 0 {
      WindowSize(users, start, k - 1);
      LastIsNew(users, start, k - 1);
    }
  }

  lemma FirstNonMaster(users: seq<User>, start: nat, count: nat) returns (m: nat)
    requires start < |users| && count <= |users| && !AllMasters(users, start, count)
    ensures m < count && AllMasters(users, start, m) && At(users, start, m).deviceId != MASTER_ID
  {
    m := 0;
    while At(users, start, m).deviceId == MASTER_ID
      invariant m < count && AllMasters(users, start, m)
      invariant exists i :: m <= i < count && At(users, start, i).deviceId != MASTER_ID
      decreases count - m
    {
      m := m + 1;
    }
  }

  /** The loop stops after some number of rounds if and only if the `count` users from the
      start index, cyclically, are all master devices; it then stops after exactly `count`
      rounds, and no fewer, with exactly those users. */
  lemma SelectionTerminatesExactly(users: seq<User>, start: nat, count: nat)
    requires start < |users| && Distinct(users) && 0 < count < |users|
    ensures (exists k: nat :: |Rounds(users, start, k).candidates| >= count) <==> AllMasters(users, start, count)
    ensures AllMasters(users, start, count) ==>
              && Rounds(users, start, count).candidates == Window(users, start, count)
              && forall k: nat :: k < count ==> |Rounds(users, start, k).candidates| < count
  {
    if AllMasters(users, start, count) {
      MastersAdvance(users, start, count);
      WindowSize(users, start, count);
      assert |Rounds(users, start, count).candidates| >= count;
      forall k: nat | k < count ensures |Rounds(users, start, k).candidates| < count {
        MastersAdvance(users, start, k);
        WindowSize(users, start, k);
      }
    } else {
      var m := FirstNonMaster(users, start, count);
      forall k: nat ensures |Rounds(users, start, k).candidates| < count {
        if k <= m {
          MastersAdvance(users, start, k);
          WindowSize(users, start, k);
        } else {
          StuckForGood(users, start, m, k);
          WindowSize(users, start, m);
        }
      }
    }
  }

  /** Two users online, the draw falls on the one with a slave device, and one candidate is
      wanted: no number of rounds finds it, though the other user would do. */
  lemma SlaveDeviceHangs(k: nat)
    ensures var users := [User("ann", 2), User("bob", MASTER_ID)];
            Distinct(users) && Rounds(users, 0, k) == Loop(0, {})
  {
    StuckForGood([User("ann", 2), User("bob", MASTER_ID)], 0, 0, k);
  }

  // ---------------------------------------------------------------- the code

  /** The requirement is the exact condition of `SelectionTerminatesExactly`: without it the
      loop does not end. `start` is what the seeded generator draws modulo the number of users. */
  method SelectKeyDistributionCandidates(users: seq<User>, start: nat, count: nat) returns (candidates: set<User>)
    requires Distinct(users)
    requires users != [] ==> start < |users|
    requires 0 < count < |users| ==> AllMasters(users, start, count)
    ensures count == 0 ==> candidates == {}
    ensures 0 < count && |users| <= count ==> candidates == set u | u in users
    ensures 0 < count < |users| ==>
              candidates == Window(users, start, count) && |candidates| == count
              && forall u :: u in candidates ==> u.deviceId == MASTER_ID
  {
    candidates := {};
    if count == 0 {
      return;
    }
    if |users| <= count {
      candidates := set u | u in users;
      return;
    }
    var index: nat := start;
    ghost var k: nat := 0;
    while true
      invariant k < count
      invariant index == Offset(|users|, start, k) && candidates == Window(users, start, k)
      decreases count - k
    {
      assert At(users, start, k).deviceId == MASTER_ID;
      if users[index].deviceId == MASTER_ID {
        candidates := candidates + {users[index]};
        NextIndexIsModulo(index, |users|);
        index := (index + 1) % |users|;
      }
      k := k + 1;
      WindowSize(users, start, k);
      if !(|candidates| < count) {
        break;
      }
    }
    forall u | u in candidates ensures u.deviceId == MASTER_ID {
      WindowIs(users, start, count, u);
    }
  }
}
