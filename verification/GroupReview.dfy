/** Two more laws of the V3 group handlers: the member count each handler feeds to the
    key-update decision, and the safety of resubmitting a review. */
module GroupReview {
  import opened Wrappers
  import opened GroupProtocol

  // ---------------------------------------------------------------- counts

  lemma DistinctSnoc<T>(s: seq<T>, x: T)
    ensures Distinct(s + [x]) <==> Distinct(s) && x !in s
  {
    var t := s + [x];
    if Distinct(t) {
      forall i, j | 0 <= i < j < |s| ensures s[i] != s[j] { assert t[i] != t[j]; }
      forall i | 0 <= i < |s| ensures s[i] != x { assert t[i] != t[|s|]; }
    }
  }

  lemma {:induction false} SizeAtMost<T>(s: seq<T>)
    ensures |Elements(s)| <= |s|
    ensures |Elements(s)| == |s| <==> Distinct(s)
  {
    if s != [] {
      var n := |s| - 1;
      var init := s[..n];
      SizeAtMost(init);
      assert s == init + [s[n]];
      DistinctSnoc(init, s[n]);
      assert Elements(s) == Elements(init) + {s[n]};
      if s[n] in init {
        assert Elements(s) == Elements(init);
      } else {
        assert s[n] !in Elements(init);
      }
    }
  }

  lemma AddedCount(g: Group, uids: seq<Uid>)
    requires Insertable(g, uids)
    ensures |AddMembers(g, uids).members| == |g.members| + |uids|
  {
    SizeAtMost(uids);
    assert AddMembers(g, uids).members.Keys == g.members.Keys + Elements(uids);
    assert g.members.Keys !! Elements(uids);
  }

  lemma RemovedCount(g: Group, gone: set<Uid>)
    requires gone <= g.members.Keys
    ensures |g.members - gone| == |g.members| - |gone|
  {
    assert (g.members - gone).Keys == g.members.Keys - gone;
    assert g.members.Keys == (g.members.Keys - gone) + gone;
  }

  ghost predicate FedExact(g: Group, o: Outcome) {
    o.fed.Some? ==> o.fed.value == |Final(g, o).members|
  }

  lemma InviteFedExact(g: Group, uid: Uid, uids: seq<Uid>, owner: Uid, gate: Option<Status>, fails: set<Call>)
    requires Plain(g)
    ensures FedExact(g, HandleInvite(g, uid, uids, owner, gate, fails))
  {
    InviteCases(g, uid, uids, owner, gate, fails);
    PendingKeepsMembers(g, uid, uids, 0, fails);
    if HandleInvite(g, uid, uids, owner, gate, fails).fed.Some? {
      PlainCount(g);
      AddedCount(g, NotYetIn(g, uids));
    }
  }

  lemma ReviewFedExact(g: Group, uid: Uid, items: seq<ReviewItem>, owner: Uid, gate: Option<Status>, fails: set<Call>)
    requires Plain(g)
    ensures FedExact(g, HandleReview(g, uid, items, owner, gate, fails))
  {
    PlainCount(g);
    var inserts := ToInsert(g, items);
    if ReviewRefusal(g, uid, items, owner, gate, fails).None? && inserts != [] {
      AddedCount(g, Uids(inserts));
    }
  }

  lemma LeaveFedExact(g: Group, uid: Uid, nextOwner: Uid, fails: set<Call>)
    requires Plain(g)
    ensures FedExact(g, HandleLeave(g, uid, nextOwner, fails))
  {
    PlainCount(g);
    if HandleLeave(g, uid, nextOwner, fails).fed.Some? {
      var promoted := RoleOf(g, uid) == Owner && MemberCount(g) > 1;
      var g1 := if promoted then g.(members := g.members[nextOwner := Owner]) else g;
      assert g1.members.Keys == g.members.Keys;
      RemovedCount(g1, {uid});
    }
  }

  lemma AddMeFedExact(g: Group, uid: Uid, hasQrCode: bool, gate: Option<Status>, fails: set<Call>)
    requires Plain(g)
    ensures FedExact(g, HandleAddMe(g, uid, hasQrCode, gate, fails))
  {
    PlainCount(g);
    if HandleAddMe(g, uid, hasQrCode, gate, fails).fed.Some? {
      AddedCount(g, [uid]);
    }
  }

  /** Leave, add-me, invite and review feed the exact number of members left behind. */
  lemma FedCountExact(g: Group, r: Request, fails: set<Call>)
    requires Plain(g) && !r.Kick?
    ensures FedExact(g, Handle(g, r, fails))
  {
    match r
    case Invite(uid, uids, owner, gate) => InviteFedExact(g, uid, uids, owner, gate, fails);
    case Review(uid, items, owner, gate) => ReviewFedExact(g, uid, items, owner, gate, fails);
    case Leave(uid, nextOwner) => LeaveFedExact(g, uid, nextOwner, fails);
    case AddMe(uid, hasQrCode, gate) => AddMeFedExact(g, uid, hasQrCode, gate, fails);
    case Create(_, _, _, _) => assert Handle(g, r, fails).fed.None?;
    case Elsewhere(_, _) => assert Handle(g, r, fails).fed.None?;
  }

  /** Kick subtracts the length of its request: never above the truth, and exact if and only
      if the request names no stranger and nobody twice. */
  lemma KickFedCount(g: Group, uid: Uid, uids: seq<Uid>, fails: set<Call>)
    requires Plain(g)
    ensures var o := HandleKick(g, uid, uids, fails);
            o.fed.Some? ==>
              && o.fed.value <= |Final(g, o).members|
              && (o.fed.value == |Final(g, o).members| <==>
                  Distinct(uids) && forall u :: u in uids ==> u in g.members)
  {
    PlainCount(g);
    var o := HandleKick(g, uid, uids, fails);
    if o.fed.Some? {
      var gone := ToKick(g, uids);
      RemovedCount(g, gone);
      assert Final(g, o).members == g.members - gone;
      SizeAtMost(uids);
      EqualSizeSubset(gone, Elements(uids));
      assert uid in g.members - gone;
      assert |g.members| > |gone|;
      assert gone == Elements(uids) <==> forall u :: u in uids ==> u in g.members;
    }
  }

  /** So a kick that names a stranger announces fewer members than remain. */
  lemma KickUndercounts()
    ensures var g := Group(Some(Info(true, false)), map["o" := Owner, "a" := Member, "b" := Member], map[]);
            var o := HandleKick(g, "o", ["a", "z"], {});
            o.status == Success && Final(g, o).members == map["o" := Owner, "b" := Member] && o.fed == Some(1)
  {
    var g := Group(Some(Info(true, false)), map["o" := Owner, "a" := Member, "b" := Member], map[]);
    assert (set u | u in g.members && g.members[u] != Subscriber) == {"o", "a", "b"};
    assert ToKick(g, ["a", "z"]) == {"a"};
    assert g.members - {"a"} == map["o" := Owner, "b" := Member];
  }

  // ---------------------------------------------------------------- reviews

  lemma {:induction false} ToInsertMembers(g: Group, items: seq<ReviewItem>, u: Uid)
    ensures u in Uids(ToInsert(g, items)) <==>
            u !in g.members && exists k :: 0 <= k < |items| && items[k].accepted && items[k].uid == u
  {
    if items != [] {
      var n := |items| - 1;
      var init := ToInsert(g, items[..n]);
      ToInsertMembers(g, items[..n], u);
      assert forall k :: 0 <= k < n ==> items[..n][k] == items[k];
      if items[n].accepted && items[n].uid !in g.members {
        assert Uids(init + [items[n]]) == Uids(init) + [items[n].uid];
      }
    }
  }

  lemma {:induction false} NothingToInsert(g: Group, items: seq<ReviewItem>)
    requires forall k :: 0 <= k < |items| && items[k].accepted ==> items[k].uid in g.members
    ensures ToInsert(g, items) == []
  {
    if items != [] {
      NothingToInsert(g, items[..|items| - 1]);
    }
  }

  /** The preconditions under which a review reaches its writes. */
  ghost predicate Reviewable(g: Group, uid: Uid, items: seq<ReviewItem>, owner: Uid, gate: Option<Status>) {
    && RoleOf(g, owner) == Owner && owner == uid && V3(g) && gate.None?
    && Insertable(g, Uids(ToInsert(g, items)))
  }

  ghost predicate Accepted(items: seq<ReviewItem>, u: Uid) {
    exists k :: 0 <= k < |items| && items[k].accepted && items[k].uid == u
  }

  /** What an undisturbed review does: members gain exactly the accepted, with the member
      role, nobody's role changes, and the pending list loses everybody listed. */
  lemma ReviewEffect(g: Group, uid: Uid, items: seq<ReviewItem>, owner: Uid, gate: Option<Status>)
    requires Reviewable(g, uid, items, owner, gate)
    ensures var o := HandleReview(g, uid, items, owner, gate, {});
            var h := Final(g, o);
            && o.status == Success
            && (forall u :: u in h.members <==> u in g.members || Accepted(items, u))
            && (forall u :: u in h.members ==> h.members[u] == if u in g.members then g.members[u] else Member)
            && h.pending == g.pending - Listed(items) && h.info == g.info
  {
    forall u ensures u in Uids(ToInsert(g, items)) <==> u !in g.members && Accepted(items, u) {
      ToInsertMembers(g, items, u);
    }
    assert ReviewRefusal(g, uid, items, owner, gate, {}).None?;
    if items == [] {
      assert Listed(items) == {};
      assert g.pending - {} == g.pending;
    }
  }

  /** A review with nobody left to insert only clears the pending list. */
  lemma ReviewOfSettled(g: Group, uid: Uid, items: seq<ReviewItem>, owner: Uid)
    requires RoleOf(g, owner) == Owner && owner == uid && V3(g)
    requires forall k :: 0 <= k < |items| && items[k].accepted ==> items[k].uid in g.members
    ensures Final(g, HandleReview(g, uid, items, owner, None, {})) == DropPending(g, Listed(items))
  {
    NothingToInsert(g, items);
    if items == [] {
      assert Listed(items) == {} && g.pending - {} == g.pending;
    }
  }

  /** A review that fails at any storage call and is resubmitted unchanged ends in the state
      of one that succeeded at once. */
  lemma ResubmittedReview(g: Group, uid: Uid, items: seq<ReviewItem>, owner: Uid, gate: Option<Status>,
                          fails: set<Call>)
    ensures var once := Final(g, HandleReview(g, uid, items, owner, gate, {}));
            var partly := Final(g, HandleReview(g, uid, items, owner, gate, fails));
            Final(partly, HandleReview(partly, uid, items, owner, gate, {})) == once
  {
    if ReviewRefusal(g, uid, items, owner, gate, fails).None? {
      var inserts := ToInsert(g, items);
      var g1 := if inserts == [] then g else AddMembers(g, Uids(inserts));
      var g2 := DropPending(g1, Listed(items));
      AfterInsertNothingLeft(g, items);
      var partly := Final(g, ReviewWrites(g, items, fails));
      assert g2.pending - Listed(items) == g2.pending;
      if items == [] {
        assert Listed(items) == {} && g1.pending - {} == g1.pending;
      }
      assert partly == g1 || partly == g2;
      ReviewOfSettled(partly, uid, items, owner);
      assert ReviewRefusal(g, uid, items, owner, gate, {}).None?;
      assert Final(g, ReviewWrites(g, items, {})) == g2;
    }
  }

  lemma AfterInsertNothingLeft(g: Group, items: seq<ReviewItem>)
    ensures var inserts := ToInsert(g, items);
            var g1 := if inserts == [] then g else AddMembers(g, Uids(inserts));
            forall k :: 0 <= k < |items| && items[k].accepted ==> items[k].uid in g1.members
  {
    forall k | 0 <= k < |items| && items[k].accepted
      ensures items[k].uid in AddMembers(g, Uids(ToInsert(g, items))).members
    {
      ToInsertMembers(g, items, items[k].uid);
    }
  }

  lemma {:induction false} InviteesAre(items: seq<ReviewItem>, inviter: Uid, u: Uid)
    ensures inviter in Invitees(items) && u in Invitees(items)[inviter] <==>
            exists k :: 0 <= k < |items| && items[k].inviter == inviter && items[k].uid == u
  {
    if items != [] {
      var n := |items| - 1;
      InviteesAre(items[..n], inviter, u);
      assert forall k :: 0 <= k < n ==> items[..n][k] == items[k];
    }
  }

  lemma InviterUnique(items: seq<ReviewItem>, i: Uid, j: Uid, u: Uid)
    requires Distinct(Uids(items))
    requires i in Invitees(items) && u in Invitees(items)[i] && j in Invitees(items) && u in Invitees(items)[j]
    ensures i == j
  {
    InviteesAre(items, i, u);
    InviteesAre(items, j, u);
    var k :| 0 <= k < |items| && items[k].inviter == i && items[k].uid == u;
    var l :| 0 <= l < |items| && items[l].inviter == j && items[l].uid == u;
    assert Uids(items)[k] == Uids(items)[l];
  }

  ghost predicate Announced(o: Outcome, inviter: Uid, u: Uid) {
    inviter in o.announced && u in o.announced[inviter]
  }

  lemma InviteesCover(items: seq<ReviewItem>, u: Uid)
    ensures (exists i :: i in Invitees(items) && u in Invitees(items)[i]) <==> u in Uids(items)
  {
    if u in Uids(items) {
      var k :| 0 <= k < |items| && Uids(items)[k] == u;
      InviteesAre(items, items[k].inviter, u);
    }
    if i :| i in Invitees(items) && u in Invitees(items)[i] {
      InviteesAre(items, i, u);
      var k :| 0 <= k < |items| && items[k].inviter == i && items[k].uid == u;
      assert Uids(items)[k] == u;
    }
  }

  lemma AnnouncedAre(g: Group, inserts: seq<ReviewItem>, o: Outcome, h: Group, u: Uid)
    requires o.announced == Invitees(inserts) && Insertable(g, Uids(inserts))
    requires h.members == AddMembers(g, Uids(inserts)).members
    ensures forall i, j :: Announced(o, i, u) && Announced(o, j, u) ==> i == j
    ensures (exists i :: Announced(o, i, u)) <==> u !in g.members && u in h.members
  {
    forall i, j | Announced(o, i, u) && Announced(o, j, u) ensures i == j {
      InviterUnique(inserts, i, j, u);
    }
    InviteesCover(inserts, u);
    if u !in g.members && u in h.members {
      var i :| i in Invitees(inserts) && u in Invitees(inserts)[i];
      assert Announced(o, i, u);
    }
    if i :| Announced(o, i, u) {
      assert i in Invitees(inserts) && u in Invitees(inserts)[i];
    }
  }

  /** A review announces each uid it inserts under exactly one inviter, and announces
      nobody else. */
  lemma EachInsertAnnouncedOnce(g: Group, uid: Uid, items: seq<ReviewItem>, owner: Uid, gate: Option<Status>,
                                fails: set<Call>, u: Uid)
    ensures var o := HandleReview(g, uid, items, owner, gate, fails);
            && (forall i, j :: Announced(o, i, u) && Announced(o, j, u) ==> i == j)
            && ((exists i :: Announced(o, i, u)) <==> u !in g.members && u in Final(g, o).members)
  {
    var o := HandleReview(g, uid, items, owner, gate, fails);
    var inserts := ToInsert(g, items);
    if ReviewRefusal(g, uid, items, owner, gate, fails).None? {
      if inserts == [] {
        assert o.announced == map[];
      } else {
        AnnouncedAre(g, inserts, o, Final(g, o), u);
      }
    }
  }
}
