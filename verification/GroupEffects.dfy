/** What each V3 group handler does, for every pattern of failing storage calls: exactly when it
    succeeds, and exactly what it then leaves in the rows and hands to the key decision. The
    statements speak of uids, roles and rows only, never of how a handler gets there.

    A gate may refuse with any status, success included: a missing friendship is hidden so. */
module GroupEffects {
  import opened Wrappers
  import opened GroupProtocol
  import GroupReview

  /** The calls all went through. */
  predicate Through(calls: set<Call>, fails: set<Call>) { calls !! fails }

  /** `h` has the rows of `g` and those of `added`, who are plain members; no role changed. */
  ghost predicate Gains(g: Group, h: Group, added: iset<Uid>) {
    && (forall u :: u in h.members <==> u in g.members || u in added)
    && (forall u :: u in g.members ==> h.members[u] == g.members[u])
    && (forall u :: u in h.members && u !in g.members ==> h.members[u] == Member)
  }

  /** `h` has the rows of `g` but for those of `gone`; no role changed. */
  ghost predicate Loses(g: Group, h: Group, gone: iset<Uid>) {
    && (forall u :: u in h.members <==> u in g.members && u !in gone)
    && (forall u :: u in h.members ==> h.members[u] == g.members[u])
  }

  // ---------------------------------------------------------------- create

  ghost predicate MayCreate(g: Group, uid: Uid, uids: seq<Uid>, gate: Option<Status>) {
    g == NO_GROUP && ValidUids(uids) && gate.None?
  }

  lemma CreatorApart(uid: Uid, uids: seq<Uid>)
    ensures Distinct(uids + [uid]) <==> Distinct(uids) && uid !in uids
  {
    GroupReview.DistinctSnoc(uids, uid);
  }

  /** A creation succeeds if and only if nobody is listed twice, the creator included, and the
      three writes go through; the group then holds the creator as owner and everybody listed as
      plain member. One that fails leaves no member, and leaves the group row exactly when it
      was written and its deletion failed too. */
  lemma CreateEffect(g: Group, uid: Uid, uids: seq<Uid>, confirm: bool, gate: Option<Status>, fails: set<Call>)
    ensures var o := HandleCreate(g, uid, uids, confirm, gate, fails);
            var h := Final(g, o);
            var done := && MayCreate(g, uid, uids, gate) && Distinct(uids) && uid !in uids
                        && Through({CreateGroup, InsertKeys, InsertBatch}, fails);
            && (gate.None? ==> (o.status.Success? <==> done))
            && (done ==> h == Group(Some(Info(true, confirm)), Founders(uid, uids), map[]))
            && (!done ==> h == if MayCreate(g, uid, uids, gate) && CreateGroup !in fails && DelGroup in fails
                               then g.(info := Some(Info(true, confirm))) else g)
            && o.fed.None?
  {
    CreatorApart(uid, uids);
    if MayCreate(g, uid, uids, gate) {
      var created := g.(info := Some(Info(true, confirm)));
      assert Insertable(created, uids + [uid]) <==> Distinct(uids) && uid !in uids;
      assert AddMembers(created, uids).members[uid := Owner] == Founders(uid, uids);
    }
  }

  function Founders(uid: Uid, uids: seq<Uid>): map<Uid, Role> {
    (map u | u in uids :: Member)[uid := Owner]
  }

  // ---------------------------------------------------------------- invite

  /** The checks an invitation passes before it writes. */
  ghost predicate MayInvite(g: Group, uid: Uid, uids: seq<Uid>, owner: Uid, gate: Option<Status>, fails: set<Call>) {
    && ValidUids(uids) && Distinct(uids) && V3(g) && RoleOf(g, owner) == Owner && gate.None?
    && Through({GetGroup, GetOwner, GetRoles}, fails)
    && (uid == BACKEND_MANAGER || (GetRole !in fails && InGroup(RoleOf(g, uid))))
  }

  /** The invited wait for the owner. */
  predicate NeedsReview(g: Group, uid: Uid, owner: Uid) {
    g.info.Some? && g.info.value.ownerConfirm && owner != uid
  }

  /** `h` is `g` with those of `uids` that have no role pending, for this inviter. */
  ghost predicate Queued(g: Group, h: Group, inviter: Uid, uids: seq<Uid>) {
    && h.members == g.members && h.info == g.info
    && (forall u :: u in h.pending <==> u in g.pending || (u in uids && RoleOf(g, u) == Undefine))
    && (forall u :: u in h.pending ==>
          h.pending[u] == if u in uids && RoleOf(g, u) == Undefine then inviter else g.pending[u])
  }

  /** Position `n` of the request is where queueing stops: its end, or the first write that
      fails. */
  ghost predicate StopsAt(g: Group, uids: seq<Uid>, from: nat, fails: set<Call>, n: nat) {
    && from <= n <= |uids|
    && (forall k :: from <= k < n ==> !(RoleOf(g, uids[k]) == Undefine && SetPending(k) in fails))
    && (n < |uids| ==> RoleOf(g, uids[n]) == Undefine && SetPending(n) in fails)
  }

  lemma QueuedSkips(g: Group, h: Group, inviter: Uid, u: Uid, rest: seq<Uid>)
    requires Queued(g, h, inviter, rest) && RoleOf(g, u) != Undefine
    ensures Queued(g, h, inviter, [u] + rest)
  {
    assert forall x :: x in [u] + rest <==> x == u || x in rest;
  }

  lemma QueuedTakes(g: Group, h: Group, inviter: Uid, u: Uid, rest: seq<Uid>)
    requires Queued(g.(pending := g.pending[u := inviter]), h, inviter, rest) && RoleOf(g, u) == Undefine
    ensures Queued(g, h, inviter, [u] + rest)
  {
    assert forall x :: x in [u] + rest <==> x == u || x in rest;
    assert forall x :: RoleOf(g.(pending := g.pending[u := inviter]), x) == RoleOf(g, x);
  }

  function StopAt(g: Group, uids: seq<Uid>, from: nat, fails: set<Call>): (n: nat)
    requires from <= |uids|
    ensures from <= n <= |uids|
    decreases |uids| - from
  {
    if from == |uids| || (RoleOf(g, uids[from]) == Undefine && SetPending(from) in fails) then from
    else StopAt(g, uids, from + 1, fails)
  }

  lemma {:induction false} StopAtIs(g: Group, h: Group, uids: seq<Uid>, from: nat, fails: set<Call>)
    requires from <= |uids| && h.members == g.members
    ensures StopsAt(g, uids, from, fails, StopAt(g, uids, from, fails))
    ensures StopAt(h, uids, from, fails) == StopAt(g, uids, from, fails)
    decreases |uids| - from
  {
    if from < |uids| {
      assert RoleOf(h, uids[from]) == RoleOf(g, uids[from]);
      StopAtIs(g, h, uids, from + 1, fails);
    }
  }

  lemma {:induction false} QueueingIs(g: Group, inviter: Uid, uids: seq<Uid>, i: nat, fails: set<Call>)
    requires i <= |uids|
    ensures var o, n := InvitePending(g, inviter, uids, i, fails), StopAt(g, uids, i, fails);
            && o.status == (if n == |uids| then Success else ServerError)
            && Queued(g, Final(g, o), inviter, uids[i..n])
    decreases |uids| - i
  {
    var o, n := InvitePending(g, inviter, uids, i, fails), StopAt(g, uids, i, fails);
    if n == i {
      assert uids[i..n] == [];
      assert o.trail == [];
    } else {
      var u := uids[i];
      assert uids[i..n] == [u] + uids[i + 1..n];
      if RoleOf(g, u) != Undefine {
        QueueingIs(g, inviter, uids, i + 1, fails);
        QueuedSkips(g, Final(g, o), inviter, u, uids[i + 1..n]);
      } else {
        var g' := g.(pending := g.pending[u := inviter]);
        var rest := InvitePending(g', inviter, uids, i + 1, fails);
        StopAtIs(g, g', uids, i + 1, fails);
        QueueingIs(g', inviter, uids, i + 1, fails);
        FinalAfter(g, g', o, rest);
        QueuedTakes(g, Final(g', rest), inviter, u, uids[i + 1..n]);
      }
    }
  }

  lemma FinalAfter(g: Group, g': Group, o: Outcome, rest: Outcome)
    requires o.trail == [g'] + rest.trail
    ensures Final(g, o) == Final(g', rest)
  {}

  lemma {:induction false} NotYetInAre(g: Group, uids: seq<Uid>)
    ensures forall u :: u in NotYetIn(g, uids) <==> u in uids && !InGroup(RoleOf(g, u))
    ensures Distinct(uids) ==> Distinct(NotYetIn(g, uids))
  {
    if uids != [] {
      var n := |uids| - 1;
      NotYetInAre(g, uids[..n]);
      assert uids == uids[..n] + [uids[n]];
      GroupReview.DistinctSnoc(uids[..n], uids[n]);
      GroupReview.DistinctSnoc(NotYetIn(g, uids[..n]), uids[n]);
    }
  }

  ghost function Newcomers(g: Group, uids: seq<Uid>): iset<Uid> {
    iset u | u in uids && !InGroup(RoleOf(g, u))
  }

  /** An invitation that needs the owner's review changes no member; any other changes no
      pending entry; one that is refused changes nothing. */
  lemma InviteTouches(g: Group, uid: Uid, uids: seq<Uid>, owner: Uid, gate: Option<Status>, fails: set<Call>)
    ensures var o := HandleInvite(g, uid, uids, owner, gate, fails);
            var h := Final(g, o);
            && (!MayInvite(g, uid, uids, owner, gate, fails) ==> h == g && (gate.None? ==> !o.status.Success?))
            && (NeedsReview(g, uid, owner) ==> h.members == g.members && o.fed.None?)
            && (!NeedsReview(g, uid, owner) ==> h.pending == g.pending)
            && h.info == g.info
  {
    if NeedsReview(g, uid, owner) && MayInvite(g, uid, uids, owner, gate, fails) {
      PendingKeepsMembers(g, uid, uids, 0, fails);
      QueueingIs(g, uid, uids, 0, fails);
    }
  }

  /** In a group that confirms, a member's invitation queues exactly the invited without a role,
      in order, up to the first failing write, and succeeds if and only if there is none. */
  lemma InviteQueues(g: Group, uid: Uid, uids: seq<Uid>, owner: Uid, gate: Option<Status>, fails: set<Call>)
    returns (n: nat)
    requires MayInvite(g, uid, uids, owner, gate, fails) && NeedsReview(g, uid, owner)
    ensures StopsAt(g, uids, 0, fails, n)
    ensures var o := HandleInvite(g, uid, uids, owner, gate, fails);
            && (o.status.Success? <==> n == |uids|)
            && Queued(g, Final(g, o), uid, uids[..n])
  {
    n := StopAt(g, uids, 0, fails);
    StopAtIs(g, g, uids, 0, fails);
    QueueingIs(g, uid, uids, 0, fails);
    assert uids[0..n] == uids[..n];
  }

  /** Elsewhere an invitation inserts exactly the invited that are not in the group, as plain
      members. It succeeds if and only if there are none, or the insertion goes through and none
      of them has a row of another kind. */
  lemma InviteInserts(g: Group, uid: Uid, uids: seq<Uid>, owner: Uid, gate: Option<Status>, fails: set<Call>)
    requires MayInvite(g, uid, uids, owner, gate, fails) && !NeedsReview(g, uid, owner)
    ensures var o := HandleInvite(g, uid, uids, owner, gate, fails);
            var h, added := Final(g, o), Newcomers(g, uids);
            && (o.status.Success? <==>
                  || added == iset{}
                  || (Through({QueryCounter, InsertBatch}, fails) && forall u :: u in added ==> u !in g.members))
            && (o.status.Success? ==> Gains(g, h, added))
            && (!o.status.Success? ==> h == g)
            && (o.fed.Some? <==> h.members != g.members)
  {
    NotYetInAre(g, uids);
    var users := NotYetIn(g, uids);
    if users == [] {
      assert Newcomers(g, uids) == iset{};
    } else {
      assert users[0] in Newcomers(g, uids);
      if Insertable(g, users) {
        assert users[0] in AddMembers(g, users).members && users[0] !in g.members;
      }
    }
  }

  // ---------------------------------------------------------------- add-me

  lemma AddMeEffect(g: Group, uid: Uid, hasQrCode: bool, gate: Option<Status>, fails: set<Call>)
    ensures var o := HandleAddMe(g, uid, hasQrCode, gate, fails);
            var h := Final(g, o);
            var joins := && gate.None? && V3(g) && hasQrCode && uid !in g.members
                         && Through({GetGroup, GetQrCode, QueryCounter, Insert}, fails);
            && (gate.None? ==>
                  (o.status.Success? <==> joins || (V3(g) && uid in g.members && Through({GetGroup, GetMember}, fails))))
            && h == (if joins then g.(members := g.members[uid := Member]) else g)
            && (o.fed.Some? <==> joins)
  {
    assert AddMembers(g, [uid]).members.Keys == g.members.Keys + {uid};
    if uid !in g.members {
      assert AddMembers(g, [uid]).members == g.members[uid := Member];
    }
  }

  // ---------------------------------------------------------------- review

  /** Only the owner may review, and only in a V3 group. */
  ghost predicate MayReview(g: Group, uid: Uid, items: seq<ReviewItem>, owner: Uid, gate: Option<Status>,
                            fails: set<Call>) {
    && owner == uid && RoleOf(g, uid) == Owner && V3(g) && gate.None?
    && Through({GetOwner, GetGroup}, fails) && (AnyAccepted(items) ==> GetMemberBatch !in fails)
  }

  predicate Joins(g: Group, item: ReviewItem) { item.accepted && item.uid !in g.members }

  /** Nobody who is to join is listed twice. */
  predicate JoinsOnce(g: Group, items: seq<ReviewItem>) {
    forall i, j :: 0 <= i < j < |items| && Joins(g, items[i]) && Joins(g, items[j]) ==> items[i].uid != items[j].uid
  }

  ghost predicate Joiner(g: Group, items: seq<ReviewItem>, u: Uid) {
    exists k :: 0 <= k < |items| && Joins(g, items[k]) && items[k].uid == u
  }

  lemma {:induction false} ToInsertAre(g: Group, items: seq<ReviewItem>, u: Uid)
    ensures u in Uids(ToInsert(g, items)) <==> Joiner(g, items, u)
  {
    GroupReview.ToInsertMembers(g, items, u);
    if Joiner(g, items, u) {
      var k :| 0 <= k < |items| && Joins(g, items[k]) && items[k].uid == u;
      assert items[k].accepted && items[k].uid == u;
    }
    if u !in g.members && exists k :: 0 <= k < |items| && items[k].accepted && items[k].uid == u {
      var k :| 0 <= k < |items| && items[k].accepted && items[k].uid == u;
      assert Joins(g, items[k]);
    }
  }

  lemma {:induction false} InsertsApart(g: Group, items: seq<ReviewItem>)
    ensures Distinct(Uids(ToInsert(g, items))) <==> JoinsOnce(g, items)
  {
    if items != [] {
      var n := |items| - 1;
      var init, last := items[..n], items[n];
      InsertsApart(g, init);
      ToInsertAre(g, init, last.uid);
      var inserts := ToInsert(g, init);
      assert forall k :: 0 <= k < n ==> init[k] == items[k];
      if Joins(g, last) {
        assert Uids(inserts + [last]) == Uids(inserts) + [last.uid];
        GroupReview.DistinctSnoc(Uids(inserts), last.uid);
        assert JoinsOnce(g, items) <==> JoinsOnce(g, init) && !Joiner(g, init, last.uid);
      } else {
        assert JoinsOnce(g, items) <==> JoinsOnce(g, init);
      }
    }
  }

  lemma {:induction false} InsertItems(g: Group, items: seq<ReviewItem>, x: ReviewItem)
    ensures x in ToInsert(g, items) <==> x in items && Joins(g, x)
  {
    if items != [] {
      InsertItems(g, items[..|items| - 1], x);
      assert items == items[..|items| - 1] + [items[|items| - 1]];
    }
  }

  lemma SomebodyJoins(g: Group, items: seq<ReviewItem>)
    ensures ToInsert(g, items) != [] <==> exists k :: 0 <= k < |items| && Joins(g, items[k])
  {
    var inserts := ToInsert(g, items);
    if inserts != [] {
      InsertItems(g, items, inserts[0]);
    }
    if k :| 0 <= k < |items| && Joins(g, items[k]) {
      InsertItems(g, items, items[k]);
    }
  }

  /** The review takes effect. */
  ghost predicate Reviews(g: Group, uid: Uid, items: seq<ReviewItem>, owner: Uid, gate: Option<Status>, fails: set<Call>) {
    && MayReview(g, uid, items, owner, gate, fails)
    && ((exists k :: 0 <= k < |items| && Joins(g, items[k])) ==>
          Through({QueryCounter, InsertBatch}, fails) && JoinsOnce(g, items))
  }

  lemma ReviewsMeansAccepted(g: Group, uid: Uid, items: seq<ReviewItem>, owner: Uid, gate: Option<Status>,
                             fails: set<Call>)
    ensures Reviews(g, uid, items, owner, gate, fails) <==> ReviewRefusal(g, uid, items, owner, gate, fails).None?
  {
    SomebodyJoins(g, items);
    InsertsApart(g, items);
    forall u ensures u in Uids(ToInsert(g, items)) ==> u !in g.members {
      ToInsertAre(g, items, u);
    }
    assert Insertable(g, Uids(ToInsert(g, items))) <==> JoinsOnce(g, items);
  }

  /** A review succeeds if and only if the owner sends it and, where somebody is to join, the
      insertion goes through and lists nobody twice. Otherwise it changes nothing and announces
      nobody. Whatever the gate answers, nobody but the owner of a V3 group sees a success. */
  lemma ReviewSucceeds(g: Group, uid: Uid, items: seq<ReviewItem>, owner: Uid, gate: Option<Status>, fails: set<Call>)
    ensures var o := HandleReview(g, uid, items, owner, gate, fails);
            && (gate.None? ==> (o.status.Success? <==> Reviews(g, uid, items, owner, gate, fails)))
            && (!Reviews(g, uid, items, owner, gate, fails) ==> Final(g, o) == g && o.announced == map[] && o.fed.None?)
            && (o.status.Success? ==> owner == uid && RoleOf(g, uid) == Owner && V3(g))
  {
    ReviewsMeansAccepted(g, uid, items, owner, gate, fails);
  }

  /** What a review that takes effect leaves: exactly the accepted newcomers join, as plain members,
      and everybody listed leaves the pending list, unless clearing it failed. It feeds a count
      exactly when somebody joins, and names each newcomer under the inviter of its item. */
  lemma ReviewLeaves(g: Group, uid: Uid, items: seq<ReviewItem>, owner: Uid, gate: Option<Status>, fails: set<Call>)
    requires Reviews(g, uid, items, owner, gate, fails)
    ensures var o := HandleReview(g, uid, items, owner, gate, fails);
            var h := Final(g, o);
            && Gains(g, h, iset u | Joiner(g, items, u))
            && h.pending == (if DelPending in fails then g.pending else g.pending - Listed(items))
            && h.info == g.info
            && (o.fed.Some? <==> exists k :: 0 <= k < |items| && Joins(g, items[k]))
  {
    ReviewsMeansAccepted(g, uid, items, owner, gate, fails);
    SomebodyJoins(g, items);
    forall u ensures u in Uids(ToInsert(g, items)) <==> Joiner(g, items, u) {
      ToInsertAre(g, items, u);
    }
    NoneListed(g, items);
  }

  lemma NoneListed(g: Group, items: seq<ReviewItem>)
    ensures items == [] ==> g.pending - Listed(items) == g.pending
  {
    if items == [] {
      assert Listed(items) == {};
    }
  }

  lemma ReviewAnnounces(g: Group, uid: Uid, items: seq<ReviewItem>, owner: Uid, gate: Option<Status>, fails: set<Call>,
                        inviter: Uid, u: Uid)
    requires Reviews(g, uid, items, owner, gate, fails)
    ensures GroupReview.Announced(HandleReview(g, uid, items, owner, gate, fails), inviter, u) <==>
            exists k :: 0 <= k < |items| && Joins(g, items[k]) && items[k].inviter == inviter && items[k].uid == u
  {
    ReviewsMeansAccepted(g, uid, items, owner, gate, fails);
    var inserts := ToInsert(g, items);
    GroupReview.InviteesAre(inserts, inviter, u);
    if k :| 0 <= k < |inserts| && inserts[k].inviter == inviter && inserts[k].uid == u {
      InsertItems(g, items, inserts[k]);
    }
    if k :| 0 <= k < |items| && Joins(g, items[k]) && items[k].inviter == inviter && items[k].uid == u {
      InsertItems(g, items, items[k]);
    }
  }

  // ---------------------------------------------------------------- kick

  /** A kick succeeds if and only if an owner sends a valid list without itself that names a
      member, and its calls go through; then exactly the listed members are gone. */
  lemma KickEffect(g: Group, uid: Uid, uids: seq<Uid>, fails: set<Call>)
    ensures var o := HandleKick(g, uid, uids, fails);
            var h := Final(g, o);
            && (o.status.Success? <==>
                  && ValidUids(uids) && uid !in uids && V3(g) && RoleOf(g, uid) == Owner
                  && (exists u :: u in uids && u in g.members)
                  && Through({GetGroup, QueryCounter, GetRole, GetMemberBatch, DelMemberBatch}, fails))
            && (o.status.Success? ==> Loses(g, h, iset u | u in uids))
            && (!o.status.Success? ==> h == g)
            && h.pending == g.pending && h.info == g.info
            && (o.fed.Some? <==> o.status.Success?)
  {
    assert ToKick(g, uids) != {} <==> exists u :: u in uids && u in g.members by {
      if u :| u in uids && u in g.members {
        assert u in ToKick(g, uids);
      }
      if u :| u in ToKick(g, uids) {
        assert u in uids;
      }
    }
  }

  // ---------------------------------------------------------------- leave

  predicate NeedsHeir(g: Group, uid: Uid) { RoleOf(g, uid) == Owner && MemberCount(g) > 1 }

  predicate Heir(g: Group, uid: Uid, nextOwner: Uid) {
    nextOwner != "" && nextOwner != uid && (RoleOf(g, nextOwner) == Owner || RoleOf(g, nextOwner) == Member)
  }

  /** The checks a leave passes before it writes: an owner of others must name an heir. */
  ghost predicate MayLeave(g: Group, uid: Uid, nextOwner: Uid, fails: set<Call>) {
    && |nextOwner| <= MAX_UID_LENGTH && V3(g) && Through({GetGroup, QueryCounter}, fails)
    && (RoleOf(g, uid) == Owner || RoleOf(g, uid) == Member)
    && (NeedsHeir(g, uid) ==> Heir(g, uid, nextOwner))
  }

  function Promoted(g: Group, uid: Uid, nextOwner: Uid): Group {
    if NeedsHeir(g, uid) then g.(members := g.members[nextOwner := Owner]) else g
  }

  lemma LeaverCounts(g: Group, uid: Uid)
    requires RoleOf(g, uid) == Owner || RoleOf(g, uid) == Member
    ensures MemberCount(g) > 0
  {
    var counted := set u | u in g.members && g.members[u] != Subscriber;
    assert uid in counted && |counted| > 0;
  }

  /** A leave succeeds if and only if it may and its writes go through; then exactly the leaver
      is gone, and the heir of a leaving owner is an owner. A leave whose delete fails leaves the
      heir promoted, and any other failing one changes nothing. */
  lemma LeaveEffect(g: Group, uid: Uid, nextOwner: Uid, fails: set<Call>)
    ensures var o := HandleLeave(g, uid, nextOwner, fails);
            var h := Final(g, o);
            var may := MayLeave(g, uid, nextOwner, fails) && (NeedsHeir(g, uid) ==> UpdateRole !in fails);
            && (o.status.Success? <==> may && DelMember !in fails)
            && (o.status.Success? ==> Loses(Promoted(g, uid, nextOwner), h, iset{uid}))
            && (!o.status.Success? ==> h == if may then Promoted(g, uid, nextOwner) else g)
            && (o.stranded <==> may && DelMember in fails && NeedsHeir(g, uid))
            && h.pending == g.pending && h.info == g.info
            && (o.fed.Some? <==> o.status.Success?)
  {
    if RoleOf(g, uid) == Owner || RoleOf(g, uid) == Member {
      LeaverCounts(g, uid);
    }
  }

  // ---------------------------------------------------------------- refusals

  /** How each handler answers when no call fails and no gate refuses: whose fault it is. */
  lemma CreateRefusals(uid: Uid, uids: seq<Uid>, confirm: bool)
    ensures var status := HandleCreate(NO_GROUP, uid, uids, confirm, None, {}).status;
            && (status.BadRequest? <==> !ValidUids(uids))
            && (status.ServerError? <==> ValidUids(uids) && !(Distinct(uids) && uid !in uids))
  {
    CreateEffect(NO_GROUP, uid, uids, confirm, None, {});
  }

  lemma InviteRefusals(g: Group, uid: Uid, uids: seq<Uid>, owner: Uid)
    ensures var status := HandleInvite(g, uid, uids, owner, None, {}).status;
            var listOk := ValidUids(uids) && Distinct(uids);
            var may := uid == BACKEND_MANAGER || InGroup(RoleOf(g, uid));
            && (status.BadRequest? <==> !listOk || (may && g.info.Some? && !V3(g)))
            && (status.Forbidden? <==> listOk && !may && uid in g.members)
            && (status.NotFound? <==> listOk && ((!may && uid !in g.members) || (may && g.info.None?)))
  {
    UndisturbedQueue(g, uid, uids, 0);
    var o := HandleInvite(g, uid, uids, owner, None, {});
    if ValidUids(uids) && Distinct(uids) && V3(g) && (uid == BACKEND_MANAGER || InGroup(RoleOf(g, uid))) {
      assert o.status.Success? || o.status.ServerError?;
    }
  }

  lemma {:induction false} UndisturbedQueue(g: Group, inviter: Uid, uids: seq<Uid>, i: nat)
    requires i <= |uids|
    ensures InvitePending(g, inviter, uids, i, {}).status.Success?
    decreases |uids| - i
  {
    if i < |uids| {
      UndisturbedQueue(g, inviter, uids, i + 1);
      UndisturbedQueue(g.(pending := g.pending[uids[i] := inviter]), inviter, uids, i + 1);
    }
  }

  lemma AddMeRefusals(g: Group, uid: Uid, hasQrCode: bool)
    ensures var status := HandleAddMe(g, uid, hasQrCode, None, {}).status;
            if V3(g) && (uid in g.members || hasQrCode) then status.Success? else status.BadRequest?
  {}

  lemma ReviewRefusals(g: Group, uid: Uid, items: seq<ReviewItem>, owner: Uid)
    ensures var status := HandleReview(g, uid, items, owner, None, {}).status;
            && (status.BadRequest? <==> RoleOf(g, owner) == Owner && (owner != uid || (g.info.Some? && !V3(g))))
            && !status.Forbidden? && !status.NotFound?
  {}

  lemma KickRefusals(g: Group, uid: Uid, uids: seq<Uid>)
    ensures var status := HandleKick(g, uid, uids, {}).status;
            var listOk := ValidUids(uids) && uid !in uids;
            && (status.BadRequest? <==>
                  !listOk || (g.info.Some? && (!V3(g) || (uid in g.members && g.members[uid] != Owner))))
            && !status.Forbidden? && !status.NotFound?
  {}

  lemma LeaveRefusals(g: Group, uid: Uid, nextOwner: Uid)
    ensures var status := HandleLeave(g, uid, nextOwner, {}).status;
            && (status.ServerError? <==> |nextOwner| <= MAX_UID_LENGTH && g.info.None?)
            && (!status.Success? ==> status.BadRequest? || status.ServerError?)
  {}
}
