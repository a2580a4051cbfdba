/** `distributeKeys` of `src/controllers/group_manager_controller.cpp`, the review batch of the
    older group versions: it fills the missing keys of members that are already in, inserts
    the others with their keys, and clears the pending list; storage calls may fail in between.

    `updateIfEmpty` fills those of the named columns that are empty; `insertBatch` refuses a
    batch with an existing or repeated key. */
module DistributeKeys {
  type Uid = string

  datatype Row = Row(encryptedKey: string, groupInfoSecret: string)
  datatype Item = Item(uid: Uid, inviter: Uid, accepted: bool, groupSecret: string, groupInfoSecret: string)
  datatype Rows = Rows(members: map<Uid, Row>, pending: set<Uid>)

  datatype Call = GetMemberBatch | UpdateIfEmpty(i: nat) | InsertBatch | DelPending

  datatype Outcome = Outcome(ok: bool, rows: Rows)

  // ---------------------------------------------------------------- filling keys

  /** The first non-empty group secret, or info secret, accepted for a uid. */
  function FirstKey(items: seq<Item>, u: Uid): string {
    if items == [] then ""
    else
      var init, last := FirstKey(items[..|items| - 1], u), items[|items| - 1];
      if init == "" && last.accepted && last.uid == u then last.groupSecret else init
  }

  function FirstInfo(items: seq<Item>, u: Uid): string {
    if items == [] then ""
    else
      var init, last := FirstInfo(items[..|items| - 1], u), items[|items| - 1];
      if init == "" && last.accepted && last.uid == u then last.groupInfoSecret else init
  }

  function FillRow(row: Row, items: seq<Item>, u: Uid, encrypted: bool): Row {
    Row(if row.encryptedKey != "" then row.encryptedKey else FirstKey(items, u),
        if row.groupInfoSecret != "" || !encrypted then row.groupInfoSecret else FirstInfo(items, u))
  }

  function Filled(members: map<Uid, Row>, items: seq<Item>, encrypted: bool): map<Uid, Row> {
    map u | u in members :: FillRow(members[u], items, u, encrypted)
  }

  predicate LacksKeys(row: Row, encrypted: bool) {
    row.encryptedKey == "" || (encrypted && row.groupInfoSecret == "")
  }

  /** Item `i` makes an update call, and that call fails. */
  predicate UpdateFails(members: map<Uid, Row>, items: seq<Item>, encrypted: bool, fails: set<Call>, i: nat)
    requires i < |items|
  {
    items[i].accepted && items[i].uid in members && LacksKeys(members[items[i].uid], encrypted)
    && UpdateIfEmpty(i) in fails
  }

  /** How many items the update loop gets through. */
  function Reached(members: map<Uid, Row>, items: seq<Item>, encrypted: bool, fails: set<Call>, k: nat): (r: nat)
    requires k <= |items|
    ensures k <= r <= |items|
    decreases |items| - k
  {
    if k == |items| || UpdateFails(members, items, encrypted, fails, k) then k
    else Reached(members, items, encrypted, fails, k + 1)
  }

  // ---------------------------------------------------------------- the batch

  function Accepted(items: seq<Item>): set<Uid> {
    set k | 0 <= k < |items| && items[k].accepted :: items[k].uid
  }

  /** The accepted items without a row, in order. */
  function Inserts(members: map<Uid, Row>, items: seq<Item>): seq<Item> {
    if items == [] then []
    else
      var init, last := Inserts(members, items[..|items| - 1]), items[|items| - 1];
      if last.accepted && last.uid !in members then init + [last] else init
  }

  predicate DistinctUids(items: seq<Item>) {
    forall i, j :: 0 <= i < j < |items| ==> items[i].uid != items[j].uid
  }

  /** A new row gets its encrypted key only in an encrypted group, its info secret always. */
  function NewRow(item: Item, encrypted: bool): Row {
    Row(if encrypted then item.groupSecret else "", item.groupInfoSecret)
  }

  function Inserted(members: map<Uid, Row>, inserts: seq<Item>, encrypted: bool): map<Uid, Row> {
    if inserts == [] then members
    else
      var last := inserts[|inserts| - 1];
      Inserted(members, inserts[..|inserts| - 1], encrypted)[last.uid := NewRow(last, encrypted)]
  }

  function Listed(items: seq<Item>): set<Uid> {
    set k | 0 <= k < |items| :: items[k].uid
  }

  /** The batch insert goes through: every earlier call succeeded, and it is not refused. */
  predicate InsertRuns(r: Rows, items: seq<Item>, encrypted: bool, fails: set<Call>) {
    && (Accepted(items) != {} ==> GetMemberBatch !in fails)
    && Reached(r.members, items, encrypted, fails, 0) == |items|
    && InsertBatch !in fails && DistinctUids(Inserts(r.members, items))
  }

  function Distribute(r: Rows, items: seq<Item>, encrypted: bool, fails: set<Call>): Outcome {
    if Accepted(items) != {} && GetMemberBatch in fails then Outcome(false, r)
    else
      var k := Reached(r.members, items, encrypted, fails, 0);
      var m1 := Filled(r.members, items[..k], encrypted);
      if k < |items| then Outcome(false, r.(members := m1))
      else Complete(r.(members := m1), Inserts(r.members, items), Listed(items), encrypted, fails)
  }

  /** The last two writes: the batch insert and clearing the pending list. */
  function Complete(r: Rows, inserts: seq<Item>, listed: set<Uid>, encrypted: bool, fails: set<Call>): Outcome {
    if inserts != [] && (InsertBatch in fails || !DistinctUids(inserts)) then Outcome(false, r)
    else
      var m2 := Inserted(r.members, inserts, encrypted);
      if listed != {} && DelPending in fails then Outcome(false, r.(members := m2))
      else Outcome(true, Rows(m2, r.pending - listed))
  }

  // ---------------------------------------------------------------- who is in, who is pending

  lemma ListedSnoc(s: seq<Item>, item: Item)
    ensures Listed(s + [item]) == Listed(s) + {item.uid}
  {
    assert forall k :: 0 <= k < |s| ==> (s + [item])[k] == s[k];
    assert (s + [item])[|s|] == item;
  }

  lemma AcceptedLast(items: seq<Item>)
    requires items != []
    ensures var n := |items| - 1;
            Accepted(items) == Accepted(items[..n]) + if items[n].accepted then {items[n].uid} else {}
  {
  }

  lemma {:induction false} InsertsAre(members: map<Uid, Row>, items: seq<Item>)
    ensures Listed(Inserts(members, items)) == Accepted(items) - members.Keys
  {
    if items != [] {
      var n := |items| - 1;
      var init := Inserts(members, items[..n]);
      InsertsAre(members, items[..n]);
      AcceptedLast(items);
      ListedSnoc(init, items[n]);
    }
  }

  lemma {:induction false} InsertedKeys(members: map<Uid, Row>, inserts: seq<Item>, encrypted: bool)
    ensures Inserted(members, inserts, encrypted).Keys == members.Keys + Listed(inserts)
    ensures forall u :: u in members && u !in Listed(inserts) ==> Inserted(members, inserts, encrypted)[u] == members[u]
  {
    if inserts != [] {
      var n := |inserts| - 1;
      InsertedKeys(members, inserts[..n], encrypted);
      assert Listed(inserts) == Listed(inserts[..n]) + {inserts[n].uid};
    }
  }

  lemma {:induction false} InsertedRow(members: map<Uid, Row>, inserts: seq<Item>, encrypted: bool, k: nat)
    requires k < |inserts| && DistinctUids(inserts)
    ensures inserts[k].uid in Inserted(members, inserts, encrypted)
    ensures Inserted(members, inserts, encrypted)[inserts[k].uid] == NewRow(inserts[k], encrypted)
  {
    var n := |inserts| - 1;
    if k < n {
      assert forall i :: 0 <= i < n ==> inserts[..n][i] == inserts[i];
      InsertedRow(members, inserts[..n], encrypted, k);
    }
  }

  /** Which rows to insert depends on who has a row only. */
  lemma {:induction false} SameInserts(m1: map<Uid, Row>, m2: map<Uid, Row>, items: seq<Item>)
    requires m1.Keys == m2.Keys
    ensures Inserts(m1, items) == Inserts(m2, items)
  {
    if items != [] {
      SameInserts(m1, m2, items[..|items| - 1]);
      assert items[|items| - 1].uid in m1 <==> items[|items| - 1].uid in m2;
    }
  }

  lemma ListedNone(s: seq<Item>)
    ensures Listed(s) == {} <==> s == []
  {
    if s != [] {
      assert s[0].uid in Listed(s);
    }
  }

  lemma NothingToInsert(members: map<Uid, Row>, items: seq<Item>)
    requires Accepted(items) <= members.Keys
    ensures Inserts(members, items) == []
  {
    InsertsAre(members, items);
    ListedNone(Inserts(members, items));
  }

  lemma {:induction false} NoFailureReachesAll(members: map<Uid, Row>, items: seq<Item>, encrypted: bool, k: nat)
    requires k <= |items|
    ensures Reached(members, items, encrypted, {}, k) == |items|
    decreases |items| - k
  {
    if k < |items| {
      NoFailureReachesAll(members, items, encrypted, k + 1);
    }
  }

  lemma Completed(r: Rows, inserts: seq<Item>, listed: set<Uid>, encrypted: bool, fails: set<Call>)
    ensures var o := Complete(r, inserts, listed, encrypted, fails);
            && o.rows.members.Keys ==
                 r.members.Keys + (if InsertBatch !in fails && DistinctUids(inserts) then Listed(inserts) else {})
            && o.rows.pending == (if o.ok then r.pending - listed else r.pending)
            && (fails == {} ==> (o.ok <==> DistinctUids(inserts)))
  {
    InsertedKeys(r.members, inserts, encrypted);
    ListedNone(inserts);
  }

  /** Members and pending users after a review whose calls may fail. */
  lemma Membership(r: Rows, items: seq<Item>, encrypted: bool, fails: set<Call>)
    ensures var o := Distribute(r, items, encrypted, fails);
            && o.rows.members.Keys ==
                 r.members.Keys + (if InsertRuns(r, items, encrypted, fails) then Accepted(items) else {})
            && o.rows.pending == (if o.ok then r.pending - Listed(items) else r.pending)
            && (fails == {} ==> (o.ok <==> DistinctUids(Inserts(r.members, items))))
  {
    var k := Reached(r.members, items, encrypted, fails, 0);
    var m1, inserts := Filled(r.members, items[..k], encrypted), Inserts(r.members, items);
    FilledKeys(r.members, items[..k], encrypted);
    if fails == {} {
      NoFailureReachesAll(r.members, items, encrypted, 0);
    }
    if k == |items| && (Accepted(items) != {} ==> GetMemberBatch !in fails) {
      InsertsAre(r.members, items);
      Completed(r.(members := m1), inserts, Listed(items), encrypted, fails);
    }
  }

  lemma FilledKeys(members: map<Uid, Row>, items: seq<Item>, encrypted: bool)
    ensures Filled(members, items, encrypted).Keys == members.Keys
  {}

  // ---------------------------------------------------------------- filling is idempotent

  lemma {:induction false} FirstsKept(items: seq<Item>, k: nat, u: Uid)
    requires k <= |items|
    ensures FirstKey(items[..k], u) != "" ==> FirstKey(items, u) == FirstKey(items[..k], u)
    ensures FirstInfo(items[..k], u) != "" ==> FirstInfo(items, u) == FirstInfo(items[..k], u)
  {
    if k == |items| {
      assert items[..k] == items;
    } else {
      var n := |items| - 1;
      assert items[..n][..k] == items[..k];
      FirstsKept(items[..n], k, u);
    }
  }

  /** An interrupted fill followed by a whole one is one whole fill. */
  lemma FilledAgain(members: map<Uid, Row>, items: seq<Item>, k: nat, encrypted: bool)
    requires k <= |items|
    ensures Filled(Filled(members, items[..k], encrypted), items, encrypted) == Filled(members, items, encrypted)
  {
    forall u | u in members
      ensures FillRow(FillRow(members[u], items[..k], u, encrypted), items, u, encrypted)
              == FillRow(members[u], items, u, encrypted)
    {
      FirstsKept(items, k, u);
    }
  }

  /** With one row per uid to insert, the first key accepted for it is that row's. */
  lemma {:induction false} FirstOfInserted(members: map<Uid, Row>, items: seq<Item>, k: nat)
    requires k < |Inserts(members, items)| && DistinctUids(Inserts(members, items))
    ensures var item := Inserts(members, items)[k];
            && item.uid !in members
            && FirstKey(items, item.uid) == item.groupSecret
            && FirstInfo(items, item.uid) == item.groupInfoSecret
  {
    var n := |items| - 1;
    var init, last := Inserts(members, items[..n]), items[n];
    var inserts := Inserts(members, items);
    assert forall i :: 0 <= i < |init| ==> inserts[i] == init[i];
    if k < |init| {
      FirstOfInserted(members, items[..n], k);
      if last.accepted && last.uid !in members {
        assert inserts[|init|] == last;
      }
    } else {
      FirstsOfAbsent(members, items[..n], last.uid);
      assert inserts[|init|] == last;
    }
  }

  lemma {:induction false} FirstsOfAbsent(members: map<Uid, Row>, items: seq<Item>, u: Uid)
    ensures u !in members && u !in Listed(Inserts(members, items)) ==> FirstKey(items, u) == "" && FirstInfo(items, u) == ""
  {
    if items != [] {
      var n := |items| - 1;
      var init := Inserts(members, items[..n]);
      FirstsOfAbsent(members, items[..n], u);
      ListedSnoc(init, items[n]);
    }
  }

  // ---------------------------------------------------------------- the laws

  /** No review, failing anywhere, loses a member or overwrites a key a member already has. */
  lemma KeysNeverOverwritten(r: Rows, items: seq<Item>, encrypted: bool, fails: set<Call>, u: Uid)
    requires u in r.members
    ensures var m := Distribute(r, items, encrypted, fails).rows.members;
            && u in m
            && (r.members[u].encryptedKey != "" ==> m[u].encryptedKey == r.members[u].encryptedKey)
            && (r.members[u].groupInfoSecret != "" ==> m[u].groupInfoSecret == r.members[u].groupInfoSecret)
  {
    var k := Reached(r.members, items, encrypted, fails, 0);
    InsertsAre(r.members, items);
    InsertedKeys(Filled(r.members, items[..k], encrypted), Inserts(r.members, items), encrypted);
  }

  /** A review that failed anywhere and is resubmitted unchanged leaves the members and the
      pending users that an uninterrupted one leaves. */
  lemma ResubmissionConverges(r: Rows, items: seq<Item>, encrypted: bool, fails: set<Call>)
    ensures var partly := Distribute(r, items, encrypted, fails).rows;
            var twice, once := Distribute(partly, items, encrypted, {}), Distribute(r, items, encrypted, {});
            && twice.rows.members.Keys == once.rows.members.Keys
            && twice.rows.pending == once.rows.pending
            && (DistinctUids(items) ==> twice.ok && once.ok
                                        && once.rows.members.Keys == r.members.Keys + Accepted(items)
                                        && once.rows.pending == r.pending - Listed(items))
  {
    var partly := Distribute(r, items, encrypted, fails).rows;
    Membership(r, items, encrypted, fails);
    Membership(r, items, encrypted, {});
    Membership(partly, items, encrypted, {});
    NoFailureReachesAll(r.members, items, encrypted, 0);
    NoFailureReachesAll(partly.members, items, encrypted, 0);
    InsertsDistinct(r.members, items);
    if InsertRuns(r, items, encrypted, fails) {
      NothingToInsert(partly.members, items);
    } else {
      SameInserts(r.members, partly.members, items);
    }
  }

  lemma {:induction false} InsertsDistinct(members: map<Uid, Row>, items: seq<Item>)
    ensures DistinctUids(items) ==> DistinctUids(Inserts(members, items))
    ensures forall k :: 0 <= k < |Inserts(members, items)| ==> Inserts(members, items)[k] in items
  {
    if items != [] {
      var n := |items| - 1;
      InsertsDistinct(members, items[..n]);
      assert forall i :: 0 <= i < n ==> items[..n][i] == items[i];
      assert items[n] in items;
    }
  }

  /** A row inserted by an interrupted review, after the review is resubmitted: outside an
      encrypted group the second attempt fills the key that the first one withheld. */
  lemma InsertedThenFilled(members: map<Uid, Row>, items: seq<Item>, encrypted: bool, k: nat)
    requires k < |Inserts(members, items)| && DistinctUids(Inserts(members, items))
    ensures var item := Inserts(members, items)[k];
            FillRow(NewRow(item, encrypted), items, item.uid, encrypted) == Row(item.groupSecret, item.groupInfoSecret)
  {
    FirstOfInserted(members, items, k);
  }

  predicate NoSecrets(items: seq<Item>) {
    forall k :: 0 <= k < |items| ==> items[k].groupSecret == ""
  }

  lemma RefillAfterInsert(r: Rows, items: seq<Item>, encrypted: bool)
    requires DistinctUids(Inserts(r.members, items))
    ensures var inserts := Inserts(r.members, items);
            var m := Inserted(Filled(r.members, items, encrypted), inserts, encrypted);
            Filled(m, items, encrypted) == m <==> encrypted || NoSecrets(inserts)
  {
    var inserts := Inserts(r.members, items);
    var m0 := Filled(r.members, items, encrypted);
    var m := Inserted(m0, inserts, encrypted);
    InsertsAre(r.members, items);
    InsertedKeys(m0, inserts, encrypted);
    assert items[..|items|] == items;
    FilledAgain(r.members, items, |items|, encrypted);
    forall k | 0 <= k < |inserts|
      ensures inserts[k].uid in m && m[inserts[k].uid] == NewRow(inserts[k], encrypted)
      ensures FillRow(m[inserts[k].uid], items, inserts[k].uid, encrypted)
              == Row(inserts[k].groupSecret, inserts[k].groupInfoSecret)
    {
      InsertedRow(m0, inserts, encrypted, k);
      InsertedThenFilled(r.members, items, encrypted, k);
    }
    if encrypted || NoSecrets(inserts) {
      forall u | u in m ensures FillRow(m[u], items, u, encrypted) == m[u] {
        if u in Listed(inserts) {
          var k :| 0 <= k < |inserts| && inserts[k].uid == u;
          assert m[inserts[k].uid] == NewRow(inserts[k], encrypted);
        } else {
          assert m[u] == m0[u] && Filled(m0, items, encrypted)[u] == m0[u];
        }
      }
    } else {
      var k :| 0 <= k < |inserts| && inserts[k].groupSecret != "";
      assert Filled(m, items, encrypted)[inserts[k].uid] != m[inserts[k].uid];
    }
  }

  /** Down to the keys, resubmission ends as an uninterrupted review does exactly when the
      group is encrypted, or the first attempt stopped before its insert, or the rows it
      inserted came without a group secret. */
  lemma ResubmissionExact(r: Rows, items: seq<Item>, encrypted: bool, fails: set<Call>)
    ensures var partly := Distribute(r, items, encrypted, fails).rows;
            Distribute(partly, items, encrypted, {}).rows == Distribute(r, items, encrypted, {}).rows <==>
            encrypted || !InsertRuns(r, items, encrypted, fails) || NoSecrets(Inserts(r.members, items))
  {
    ResubmissionConverges(r, items, encrypted, fails);
    Undisturbed(r, items, encrypted);
    Undisturbed(Distribute(r, items, encrypted, fails).rows, items, encrypted);
    Membership(r, items, encrypted, fails);
    var partly := Distribute(r, items, encrypted, fails).rows;
    if InsertRuns(r, items, encrypted, fails) {
      InsertedOnce(r, items, encrypted, fails);
      RefillAfterInsert(r, items, encrypted);
      NothingToInsert(partly.members, items);
    } else {
      SameInserts(r.members, partly.members, items);
      InterruptedFill(r, items, encrypted, fails);
    }
  }

  lemma InsertedOnce(r: Rows, items: seq<Item>, encrypted: bool, fails: set<Call>)
    requires InsertRuns(r, items, encrypted, fails)
    ensures Distribute(r, items, encrypted, fails).rows.members ==
            Inserted(Filled(r.members, items, encrypted), Inserts(r.members, items), encrypted)
  {
    assert items[..|items|] == items;
  }

  /** The members an undisturbed review leaves. */
  lemma Undisturbed(r: Rows, items: seq<Item>, encrypted: bool)
    ensures var inserts, m1 := Inserts(r.members, items), Filled(r.members, items, encrypted);
            Distribute(r, items, encrypted, {}).rows.members ==
            if DistinctUids(inserts) then Inserted(m1, inserts, encrypted) else m1
  {
    NoFailureReachesAll(r.members, items, encrypted, 0);
    assert items[..|items|] == items;
  }

  lemma InterruptedFill(r: Rows, items: seq<Item>, encrypted: bool, fails: set<Call>)
    requires !InsertRuns(r, items, encrypted, fails)
    ensures Filled(Distribute(r, items, encrypted, fails).rows.members, items, encrypted) == Filled(r.members, items, encrypted)
  {
    var k := Reached(r.members, items, encrypted, fails, 0);
    FilledAgain(r.members, items, k, encrypted);
  }

  lemma One(item: Item)
    requires item.accepted
    ensures Listed([item]) == Accepted([item]) == {item.uid} && FirstKey([item], item.uid) == item.groupSecret
    ensures Inserts(map[], [item]) == [item]
    ensures Inserted(map[], [item], false) == map[item.uid := NewRow(item, false)]
  {
    var items, none: map<Uid, Row> := [item], map[];
    assert items[0] == item && items[..0] == [];
    assert Inserted(none, items[..0], false) == none;
  }

  lemma OneInsert(item: Item, fails: set<Call>)
    requires item.accepted && fails <= {DelPending}
    ensures Distribute(Rows(map[], {item.uid}), [item], false, fails).rows
            == Rows(map[item.uid := Row("", item.groupInfoSecret)], if fails == {} then {} else {item.uid})
  {
    var items, none: map<Uid, Row> := [item], map[];
    One(item);
    assert items[..1] == items;
    assert Reached(none, items, false, fails, 0) == 1;
    assert Filled(none, items, false) == none;
    assert Complete(Rows(none, {item.uid}), items, {item.uid}, false, fails).rows
        == Rows(map[item.uid := Row("", item.groupInfoSecret)], if fails == {} then {} else {item.uid});
  }

  lemma OneRefill(item: Item)
    requires item.accepted
    ensures Distribute(Rows(map[item.uid := Row("", item.groupInfoSecret)], {item.uid}), [item], false, {}).rows
            == Rows(map[item.uid := Row(item.groupSecret, item.groupInfoSecret)], {})
  {
    var items, m := [item], map[item.uid := Row("", item.groupInfoSecret)];
    One(item);
    assert items[..1] == items;
    NothingToInsert(m, items);
    NoFailureReachesAll(m, items, false, 0);
    assert Filled(m, items, false) == map[item.uid := Row(item.groupSecret, item.groupInfoSecret)];
  }

  /** The smallest such case: the only pending user of an unencrypted group is inserted,
      clearing the pending list fails, and the same review is sent again. */
  lemma ResubmissionFillsWithheldKey(item: Item)
    requires item.accepted
    ensures var r, items := Rows(map[], {item.uid}), [item];
            var once := Distribute(r, items, false, {}).rows;
            var twice := Distribute(Distribute(r, items, false, {DelPending}).rows, items, false, {}).rows;
            && once == Rows(map[item.uid := Row("", item.groupInfoSecret)], {})
            && twice == Rows(map[item.uid := Row(item.groupSecret, item.groupInfoSecret)], {})
  {
    OneInsert(item, {});
    OneInsert(item, {DelPending});
    OneRefill(item);
  }

  // ---------------------------------------------------------------- what a row holds

  predicate NamesFor(item: Item, u: Uid) { item.accepted && item.uid == u }

  /** The first key accepted for a uid is that of the first item that brings one. */
  lemma {:induction false} FirstKeyIs(items: seq<Item>, u: Uid)
    ensures FirstKey(items, u) == "" <==> forall k :: 0 <= k < |items| && NamesFor(items[k], u) ==> items[k].groupSecret == ""
    ensures forall k :: 0 <= k < |items| && NamesFor(items[k], u) && items[k].groupSecret != ""
                        && (forall j :: 0 <= j < k && NamesFor(items[j], u) ==> items[j].groupSecret == "")
                        ==> FirstKey(items, u) == items[k].groupSecret
  {
    if items != [] {
      var n := |items| - 1;
      FirstKeyIs(items[..n], u);
      assert forall k :: 0 <= k < n ==> items[..n][k] == items[k];
    }
  }

  lemma {:induction false} FirstInfoIs(items: seq<Item>, u: Uid)
    ensures FirstInfo(items, u) == "" <==>
            forall k :: 0 <= k < |items| && NamesFor(items[k], u) ==> items[k].groupInfoSecret == ""
    ensures forall k :: 0 <= k < |items| && NamesFor(items[k], u) && items[k].groupInfoSecret != ""
                        && (forall j :: 0 <= j < k && NamesFor(items[j], u) ==> items[j].groupInfoSecret == "")
                        ==> FirstInfo(items, u) == items[k].groupInfoSecret
  {
    if items != [] {
      var n := |items| - 1;
      FirstInfoIs(items[..n], u);
      assert forall k :: 0 <= k < n ==> items[..n][k] == items[k];
    }
  }

  /** The row of everybody after an undisturbed review that lists nobody twice. A member that
      was not accepted keeps its row. One that was gets the group secret where it had none, and
      the info secret where it had none and the group is encrypted. A newcomer gets its info
      secret, and its group secret in an encrypted group only. */
  lemma RowsAfter(r: Rows, items: seq<Item>, encrypted: bool, u: Uid)
    requires DistinctUids(items)
    ensures var m := Distribute(r, items, encrypted, {}).rows.members;
            && (u in r.members && (forall k :: 0 <= k < |items| ==> !NamesFor(items[k], u)) ==>
                  u in m && m[u] == r.members[u])
            && (forall k :: 0 <= k < |items| && NamesFor(items[k], u) ==>
                  u in m && m[u] ==
                  if u in r.members then
                    Row(if r.members[u].encryptedKey == "" then items[k].groupSecret else r.members[u].encryptedKey,
                        if encrypted && r.members[u].groupInfoSecret == "" then items[k].groupInfoSecret
                        else r.members[u].groupInfoSecret)
                  else Row(if encrypted then items[k].groupSecret else "", items[k].groupInfoSecret))
  {
    Undisturbed(r, items, encrypted);
    InsertsDistinct(r.members, items);
    if u in r.members {
      KeptRow(r.members, items, encrypted, u);
      FilledRow(r.members[u], items, encrypted, u);
    } else {
      forall k | 0 <= k < |items| && NamesFor(items[k], u)
        ensures var m := Inserted(Filled(r.members, items, encrypted), Inserts(r.members, items), encrypted);
                u in m && m[u] == NewRow(items[k], encrypted)
      {
        NewcomerRow(r.members, items, encrypted, k);
      }
    }
  }

  lemma FilledRow(row: Row, items: seq<Item>, encrypted: bool, u: Uid)
    requires DistinctUids(items)
    ensures (forall k :: 0 <= k < |items| ==> !NamesFor(items[k], u)) ==> FillRow(row, items, u, encrypted) == row
    ensures forall k :: 0 <= k < |items| && NamesFor(items[k], u) ==>
              FillRow(row, items, u, encrypted) ==
              Row(if row.encryptedKey == "" then items[k].groupSecret else row.encryptedKey,
                  if encrypted && row.groupInfoSecret == "" then items[k].groupInfoSecret else row.groupInfoSecret)
  {
    FirstKeyIs(items, u);
    FirstInfoIs(items, u);
    forall k | 0 <= k < |items| && NamesFor(items[k], u)
      ensures FirstKey(items, u) == items[k].groupSecret && FirstInfo(items, u) == items[k].groupInfoSecret
    {
      assert forall j :: 0 <= j < |items| && NamesFor(items[j], u) ==> j == k;
    }
  }

  lemma NewcomerRow(members: map<Uid, Row>, items: seq<Item>, encrypted: bool, k: nat)
    requires k < |items| && items[k].accepted && items[k].uid !in members && DistinctUids(Inserts(members, items))
    ensures var m := Inserted(Filled(members, items, encrypted), Inserts(members, items), encrypted);
            items[k].uid in m && m[items[k].uid] == NewRow(items[k], encrypted)
  {
    ItemInserted(members, items, k);
    var inserts := Inserts(members, items);
    var j :| 0 <= j < |inserts| && inserts[j] == items[k];
    InsertedRow(Filled(members, items, encrypted), inserts, encrypted, j);
  }

  lemma KeptRow(members: map<Uid, Row>, items: seq<Item>, encrypted: bool, u: Uid)
    requires u in members
    ensures var inserts, m1 := Inserts(members, items), Filled(members, items, encrypted);
            u in Inserted(m1, inserts, encrypted)
            && Inserted(m1, inserts, encrypted)[u] == FillRow(members[u], items, u, encrypted)
  {
    InsertsAre(members, items);
    InsertedKeys(Filled(members, items, encrypted), Inserts(members, items), encrypted);
  }

  lemma {:induction false} ItemInserted(members: map<Uid, Row>, items: seq<Item>, k: nat)
    requires k < |items| && items[k].accepted && items[k].uid !in members
    ensures items[k] in Inserts(members, items)
  {
    if k < |items| - 1 {
      ItemInserted(members, items[..|items| - 1], k);
    }
  }

  /** Exactly when a review is answered with success. */
  lemma SucceedsExactly(r: Rows, items: seq<Item>, encrypted: bool, fails: set<Call>)
    ensures Distribute(r, items, encrypted, fails).ok <==>
            && (Accepted(items) != {} ==> GetMemberBatch !in fails)
            && (forall k :: 0 <= k < |items| ==> !UpdateFails(r.members, items, encrypted, fails, k))
            && (!(Accepted(items) <= r.members.Keys) ==> InsertBatch !in fails && DistinctUids(Inserts(r.members, items)))
            && (items != [] ==> DelPending !in fails)
  {
    ReachedAll(r.members, items, encrypted, fails, 0);
    NobodyNew(r.members, items);
    var k := Reached(r.members, items, encrypted, fails, 0);
    if k == |items| && (Accepted(items) != {} ==> GetMemberBatch !in fails) {
      var m1 := Filled(r.members, items[..k], encrypted);
      CompletesExactly(r.(members := m1), Inserts(r.members, items), items, encrypted, fails);
    }
  }

  lemma NobodyNew(members: map<Uid, Row>, items: seq<Item>)
    ensures Inserts(members, items) == [] <==> Accepted(items) <= members.Keys
  {
    InsertsAre(members, items);
    ListedNone(Inserts(members, items));
    if Accepted(items) - members.Keys == {} {
      forall u | u in Accepted(items) ensures u in members.Keys {
        assert u in members.Keys || u in Accepted(items) - members.Keys;
      }
    }
  }

  lemma CompletesExactly(r: Rows, inserts: seq<Item>, items: seq<Item>, encrypted: bool, fails: set<Call>)
    ensures Complete(r, inserts, Listed(items), encrypted, fails).ok <==>
            && (inserts != [] ==> InsertBatch !in fails && DistinctUids(inserts))
            && (items != [] ==> DelPending !in fails)
  {
    ListedNone(items);
  }

  lemma {:induction false} ReachedAll(members: map<Uid, Row>, items: seq<Item>, encrypted: bool, fails: set<Call>, k: nat)
    requires k <= |items|
    ensures Reached(members, items, encrypted, fails, k) == |items| <==>
            forall i :: k <= i < |items| ==> !UpdateFails(members, items, encrypted, fails, i)
    decreases |items| - k
  {
    if k < |items| {
      ReachedAll(members, items, encrypted, fails, k + 1);
    }
  }

  // ---------------------------------------------------------------- announcements

  /** The enter messages, by the inviter they are sent for. */
  function Announcements(inserts: seq<Item>): map<Uid, set<Uid>> {
    if inserts == [] then map[]
    else
      var init, last := Announcements(inserts[..|inserts| - 1]), inserts[|inserts| - 1];
      init[last.inviter := (if last.inviter in init then init[last.inviter] else {}) + {last.uid}]
  }

  lemma {:induction false} AnnouncementsAre(inserts: seq<Item>, i: Uid, u: Uid)
    ensures var a := Announcements(inserts);
            i in a && u in a[i] <==> exists k :: 0 <= k < |inserts| && inserts[k].inviter == i && inserts[k].uid == u
  {
    if inserts != [] {
      var n := |inserts| - 1;
      AnnouncementsAre(inserts[..n], i, u);
      assert forall k :: 0 <= k < n ==> inserts[..n][k] == inserts[k];
    }
  }

  /** Every inserted uid is announced under exactly one inviter, and nobody else is. */
  lemma AnnouncedOnce(inserts: seq<Item>, u: Uid)
    requires DistinctUids(inserts)
    ensures var a := Announcements(inserts);
            && (u in Listed(inserts) <==> exists i :: i in a && u in a[i])
            && (forall i, j :: i in a && j in a && u in a[i] && u in a[j] ==> i == j)
  {
    var a := Announcements(inserts);
    forall i, j | i in a && j in a && u in a[i] && u in a[j] ensures i == j && u in Listed(inserts) {
      AnnouncementsAre(inserts, i, u);
      AnnouncementsAre(inserts, j, u);
    }
    if u in Listed(inserts) {
      var k :| 0 <= k < |inserts| && inserts[k].uid == u;
      AnnouncementsAre(inserts, inserts[k].inviter, u);
    }
  }

  // ---------------------------------------------------------------- the handler

  function Rejected(items: seq<Item>): set<Uid> {
    set k | 0 <= k < |items| && !items[k].accepted :: items[k].uid
  }

  /** The row after an `updateIfEmpty` of the columns that were empty when `seen` was read. */
  function UpdatedRow(row: Row, seen: Row, item: Item, encrypted: bool): Row {
    Row(if seen.encryptedKey == "" && row.encryptedKey == "" then item.groupSecret else row.encryptedKey,
        if encrypted && seen.groupInfoSecret == "" && row.groupInfoSecret == "" then item.groupInfoSecret
        else row.groupInfoSecret)
  }

  lemma FilledSnoc(members: map<Uid, Row>, s: seq<Item>, item: Item, encrypted: bool)
    ensures var m, m' := Filled(members, s, encrypted), Filled(members, s + [item], encrypted);
            && (!item.accepted || item.uid !in members || !LacksKeys(members[item.uid], encrypted) ==> m' == m)
            && (item.accepted && item.uid in members ==>
                  m' == m[item.uid := UpdatedRow(m[item.uid], members[item.uid], item, encrypted)])
  {
    assert (s + [item])[..|s|] == s;
    var m, m' := Filled(members, s, encrypted), Filled(members, s + [item], encrypted);
    forall u | u in members && (u != item.uid || !item.accepted || !LacksKeys(members[u], encrypted)) ensures m'[u] == m[u] {
    }
    if item.accepted && item.uid in members {
      assert m'[item.uid] == UpdatedRow(m[item.uid], members[item.uid], item, encrypted);
    }
  }

  /** What the loop over the items has collected. */
  datatype Collected = Collected(insertList: seq<Item>, invitees: map<Uid, set<Uid>>, present: set<Uid>)

  function Take(c: Collected, existed: set<Uid>, item: Item): Collected {
    if !item.accepted then c
    else if item.uid in existed then c.(present := c.present + {item.uid})
    else Collected(c.insertList + [item],
                   c.invitees[item.inviter :=
                     (if item.inviter in c.invitees then c.invitees[item.inviter] else {}) + {item.uid}],
                   c.present)
  }

  function Collect(existed: set<Uid>, items: seq<Item>): Collected {
    if items == [] then Collected([], map[], {})
    else Take(Collect(existed, items[..|items| - 1]), existed, items[|items| - 1])
  }

  lemma {:induction false} CollectInserts(members: map<Uid, Row>, items: seq<Item>)
    ensures Collect(members.Keys, items).insertList == Inserts(members, items)
    ensures Collect(members.Keys, items).invitees == Announcements(Inserts(members, items))
  {
    if items != [] {
      var n := |items| - 1;
      CollectInserts(members, items[..n]);
      var init := Inserts(members, items[..n]);
      assert (init + [items[n]])[..|init|] == init;
    }
  }

  lemma {:induction false} CollectPresent(existed: set<Uid>, items: seq<Item>)
    ensures Collect(existed, items).present == Accepted(items) * existed
  {
    if items != [] {
      CollectPresent(existed, items[..|items| - 1]);
      AcceptedLast(items);
    }
  }

  /** What the three parts of the delete list add up to. */
  lemma ListedParts(members: map<Uid, Row>, items: seq<Item>)
    ensures Listed(items) == Rejected(items) + Accepted(items) * members.Keys + Listed(Inserts(members, items))
  {
    InsertsAre(members, items);
    assert Listed(items) == Rejected(items) + Accepted(items);
  }

  /** First loop: the rejected uids, and whether there are others. */
  method Partition(items: seq<Item>) returns (delList: set<Uid>, uids: set<Uid>)
    ensures delList == Rejected(items) && uids == Accepted(items)
  {
    delList, uids := {}, {};
    for k := 0 to |items|
      invariant delList == Rejected(items[..k]) && uids == Accepted(items[..k])
    {
      var item := items[k];
      assert Rejected(items[..k + 1]) == Rejected(items[..k]) + if item.accepted then {} else {item.uid};
      assert Accepted(items[..k + 1]) == Accepted(items[..k]) + if item.accepted then {item.uid} else {};
      if item.accepted {
        uids := uids + {item.uid};
      } else {
        delList := delList + {item.uid};
      }
    }
    assert items[..|items|] == items;
  }

  /** The loop over the enter messages puts every inserted uid on the delete list. */
  method Announce(inserts: seq<Item>, invitees: map<Uid, set<Uid>>) returns (entered: set<Uid>)
    requires invitees == Announcements(inserts)
    ensures entered == Listed(inserts)
  {
    entered := {};
    forall k | 0 <= k < |inserts| ensures inserts[k].inviter in invitees && inserts[k].uid in invitees[inserts[k].inviter] {
      AnnouncementsAre(inserts, inserts[k].inviter, inserts[k].uid);
    }
    forall i, u | i in invitees && u in invitees[i] ensures u in Listed(inserts) {
      AnnouncementsAre(inserts, i, u);
    }
    var todo := invitees.Keys;
    while todo != {}
      invariant todo <= invitees.Keys && entered <= Listed(inserts)
      invariant forall k :: 0 <= k < |inserts| ==> inserts[k].uid in entered || inserts[k].inviter in todo
    {
      var inviter :| inviter in todo;
      entered := entered + invitees[inviter];
      todo := todo - {inviter};
    }
  }

  /** The rows of one group, which the handler changes call by call. */
  class Store {
    var members: map<Uid, Row>
    var pending: set<Uid>

    constructor (members: map<Uid, Row>, pending: set<Uid>)
      ensures this.members == members && this.pending == pending
    {
      this.members, this.pending := members, pending;
    }

    function Content(): Rows
      reads this
    {
      Rows(members, pending)
    }

    method UpdateIfEmpty(seen: Row, item: Item, encrypted: bool)
      requires item.uid in members
      modifies this
      ensures members == old(members)[item.uid := UpdatedRow(old(members)[item.uid], seen, item, encrypted)]
      ensures pending == old(pending)
    {
      var row := members[item.uid];
      if seen.encryptedKey == "" && row.encryptedKey == "" {
        row := row.(encryptedKey := item.groupSecret);
      }
      if encrypted && seen.groupInfoSecret == "" && row.groupInfoSecret == "" {
        row := row.(groupInfoSecret := item.groupInfoSecret);
      }
      members := members[item.uid := row];
    }

    /** The loop over the accepted items: fills the rows that lack keys and collects those to
        insert, with the enter messages they call for. */
    method FillAndCollect(items: seq<Item>, encrypted: bool, fails: set<Call>)
      returns (ok: bool, insertList: seq<Item>, invitees: map<Uid, set<Uid>>, present: set<Uid>)
      modifies this
      ensures var k := Reached(old(members), items, encrypted, fails, 0);
              && ok == (k == |items|)
              && members == Filled(old(members), items[..k], encrypted) && pending == old(pending)
      ensures ok ==> Collected(insertList, invitees, present) == Collect(old(members).Keys, items)
    {
      var existedUsers := members;
      insertList, invitees, present := [], map[], {};
      assert items[..0] == [];
      for k := 0 to |items|
        invariant pending == old(pending) && members == Filled(existedUsers, items[..k], encrypted)
        invariant Collected(insertList, invitees, present) == Collect(existedUsers.Keys, items[..k])
        invariant Reached(existedUsers, items, encrypted, fails, 0) == Reached(existedUsers, items, encrypted, fails, k)
      {
        var item := items[k];
        assert items[..k + 1] == items[..k] + [item];
        FilledSnoc(existedUsers, items[..k], item, encrypted);
        if item.accepted && item.uid !in existedUsers {
          insertList := insertList + [item];
          invitees := invitees[item.inviter :=
            (if item.inviter in invitees then invitees[item.inviter] else {}) + {item.uid}];
        } else if item.accepted {
          var it := existedUsers[item.uid];
          if it.encryptedKey == "" || (encrypted && it.groupInfoSecret == "") {
            if Call.UpdateIfEmpty(k) in fails {
              return false, insertList, invitees, present;
            }
            UpdateIfEmpty(it, item, encrypted);
          }
          present := present + {item.uid};
        }
      }
      assert items[..|items|] == items;
      ok := true;
    }

    /** `distributeKeys`: the rows it leaves, whatever fails, and the enter messages it sends. */
    method DistributeKeys(items: seq<Item>, encrypted: bool, fails: set<Call>)
      returns (ok: bool, announced: map<Uid, set<Uid>>)
      modifies this
      ensures Outcome(ok, Content()) == Distribute(old(Content()), items, encrypted, fails)
      ensures announced == if InsertRuns(old(Content()), items, encrypted, fails)
                           then Announcements(Inserts(old(members), items)) else map[]
    {
      var delList, uids := Partition(items);
      if uids != {} && GetMemberBatch in fails {
        return false, map[];
      }
      ListedParts(members, items);
      CollectInserts(members, items);
      CollectPresent(members.Keys, items);
      var filled, insertList, invitees, present := FillAndCollect(items, encrypted, fails);
      if !filled {
        return false, map[];
      }
      delList := delList + present;
      if insertList != [] {
        if InsertBatch in fails || !DistinctUids(insertList) {
          return false, map[];
        }
        members := Inserted(members, insertList, encrypted);
        var entered := Announce(insertList, invitees);
        delList := delList + entered;
      }
      if delList != {} {
        if DelPending in fails {
          return false, invitees;
        }
        pending := pending - delList;
      }
      return true, invitees;
    }
  }
}
