/** The group handlers as the code runs them: each storage write changes the rows at once,
    lists are built in loops, and an error returns with whatever was written before it. Every
    method is proved against its outcome in module `GroupProtocol`. */
module GroupController {
  import opened Wrappers
  import opened GroupProtocol
  import GroupReview
  import GroupEffects

  class Controller {
    var group: Group
    /** The state after every write so far. */
    ghost var trail: seq<Group>

    constructor (g: Group)
      ensures group == g && trail == []
    {
      group := g;
      trail := [];
    }

    /** From these rows and write boundaries, the outcome gives the present ones and the answer. */
    ghost predicate Shows(rows: Group, boundaries: seq<Group>, o: Outcome, status: Status, fed: Option<nat>)
      reads this
    {
      && group == Final(rows, o) && trail == boundaries + o.trail
      && status == o.status && fed == o.fed
    }

    method Write(g: Group)
      modifies this
      ensures group == g && trail == old(trail) + [g]
    {
      group := g;
      trail := trail + [g];
    }

    method LeaveGroup(uid: Uid, nextOwner: Uid, fails: set<Call>) returns (status: Status, fed: Option<nat>)
      modifies this
      ensures Shows(old(group), old(trail), HandleLeave(old(group), uid, nextOwner, fails), status, fed)
      ensures status.Success? ==> group.members.Keys == old(group).members.Keys - {uid}
      ensures Owned(old(group)) ==>
                && Owned(group)
                && |Owners(group)| <= |Owners(old(group))| + (if status.ServerError? then 1 else 0)
                && (fed.Some? ==> fed.value == |group.members|)
    {
      if Owned(group) {
        GroupReview.LeaveFedExact(group, uid, nextOwner, fails);
        LeaveOwners(group, uid, nextOwner, fails);
      }
      if |nextOwner| > MAX_UID_LENGTH {
        return BadRequest, None;
      }
      if GetGroup in fails || group.info.None? {
        return ServerError, None;
      }
      if !group.info.value.v3 {
        return BadRequest, None;
      }
      if QueryCounter in fails {
        return ServerError, None;
      }
      var role, nextOwnerRole, memberCnt := RoleOf(group, uid), RoleOf(group, nextOwner), MemberCount(group);
      if role != Owner && role != Member {
        return BadRequest, None;
      }
      if memberCnt == 0 {
        return BadRequest, None;
      }
      var needNextOwner := false;
      if role == Owner && memberCnt > 1 {
        needNextOwner := true;
      }
      if needNextOwner {
        if nextOwner == "" || nextOwner == uid || (nextOwnerRole != Owner && nextOwnerRole != Member) {
          return BadRequest, None;
        }
      }
      if needNextOwner {
        if UpdateRole in fails {
          return ServerError, None;
        }
        Write(group.(members := group.members[nextOwner := Owner]));
      }
      if DelMember in fails {
        return ServerError, None;
      }
      Write(group.(members := group.members - {uid}));
      return Success, Some(memberCnt - 1);
    }

    method KickGroupMember(uid: Uid, uids: seq<Uid>, fails: set<Call>) returns (status: Status, fed: Option<nat>)
      modifies this
      ensures Shows(old(group), old(trail), HandleKick(old(group), uid, uids, fails), status, fed)
      ensures status.Success? ==>
                RoleOf(old(group), uid) == Owner && GroupEffects.Loses(old(group), group, iset u | u in uids)
      ensures !status.Success? ==> group == old(group)
    {
      GroupEffects.KickEffect(group, uid, uids, fails);
      var valid := CheckKick(uid, uids);
      if !valid {
        return BadRequest, None;
      }
      if GetGroup in fails || group.info.None? {
        return ServerError, None;
      }
      if !group.info.value.v3 {
        return BadRequest, None;
      }
      if QueryCounter in fails {
        return ServerError, None;
      }
      var memberCnt := MemberCount(group);
      if GetRole in fails || uid !in group.members {
        return ServerError, None;
      }
      if group.members[uid] != Owner {
        return BadRequest, None;
      }
      if GetMemberBatch in fails {
        return ServerError, None;
      }
      var toKick: seq<Uid> := [];
      for k := 0 to |uids|
        invariant Elements(toKick) == ToKick(group, uids[..k])
      {
        assert uids[..k + 1] == uids[..k] + [uids[k]];
        if uids[k] in group.members {
          assert Elements(toKick + [uids[k]]) == Elements(toKick) + {uids[k]};
          toKick := toKick + [uids[k]];
        }
      }
      assert uids[..|uids|] == uids;
      if toKick == [] {
        assert Elements(toKick) == {};
        return ServerError, None;
      }
      assert toKick[0] in Elements(toKick);
      if DelMemberBatch in fails {
        return ServerError, None;
      }
      Write(group.(members := group.members - Elements(toKick)));
      return Success, Some(if memberCnt >= |uids| then memberCnt - |uids| else 0);
    }

    method AddMe(uid: Uid, hasQrCode: bool, gate: Option<Status>, fails: set<Call>)
      returns (status: Status, fed: Option<nat>)
      modifies this
      ensures Shows(old(group), old(trail), HandleAddMe(old(group), uid, hasQrCode, gate, fails), status, fed)
      ensures group.members == old(group).members || group.members == old(group).members[uid := Member]
      ensures uid in old(group).members ==> group == old(group)
      ensures Owned(old(group)) ==> (fed.Some? ==> fed.value == |group.members|)
      ensures Owned(old(group)) ==>
                (Owned(group) <==> !Orphans(old(group), Request.AddMe(uid, hasQrCode, gate), fails))
    {
      if Owned(group) {
        AddMeKeepsOwner(group, Request.AddMe(uid, hasQrCode, gate), fails);
        GroupReview.AddMeFedExact(group, uid, hasQrCode, gate, fails);
      }
      if gate.Some? {
        return gate.value, None;
      }
      if GetGroup in fails || group.info.None? || !group.info.value.v3 {
        return BadRequest, None;
      }
      if GetMember !in fails && uid in group.members {
        return Success, None;
      }
      if GetQrCode in fails || !hasQrCode {
        return BadRequest, None;
      }
      if QueryCounter in fails {
        return ServerError, None;
      }
      var memberCnt := MemberCount(group);
      if Insert in fails || uid in group.members {
        return ServerError, None;
      }
      assert AddMembers(group, [uid]).members == group.members[uid := Member];
      Write(group.(members := group.members[uid := Member]));
      return Success, Some(memberCnt + 1);
    }

    method InviteGroupMember(uid: Uid, uids: seq<Uid>, owner: Uid, gate: Option<Status>, fails: set<Call>)
      returns (status: Status, fed: Option<nat>)
      modifies this
      ensures Shows(old(group), old(trail), HandleInvite(old(group), uid, uids, owner, gate, fails), status, fed)
      ensures if GroupEffects.NeedsReview(old(group), uid, owner) then group.members == old(group).members
              else group.pending == old(group).pending
    {
      GroupEffects.InviteTouches(group, uid, uids, owner, gate, fails);
      var valid := CheckMembers(uids);
      if !valid {
        return BadRequest, None;
      }
      if uid != BACKEND_MANAGER {
        if GetRole in fails {
          return ServerError, None;
        }
        if uid !in group.members {
          return NotFound, None;
        }
        if !InGroup(group.members[uid]) {
          return Forbidden, None;
        }
      }
      if GetGroup in fails {
        return ServerError, None;
      }
      if group.info.None? {
        return NotFound, None;
      }
      if !group.info.value.v3 {
        return BadRequest, None;
      }
      if GetOwner in fails || RoleOf(group, owner) != Owner {
        return ServerError, None;
      }
      if gate.Some? {
        return gate.value, None;
      }
      if GetRoles in fails {
        return ServerError, None;
      }
      if group.info.value.ownerConfirm && owner != uid {
        status := QueueForReview(uid, uids, fails);
        PendingKeepsMembers(old(group), uid, uids, 0, fails);
        return status, None;
      }
      var users: seq<Uid> := [];
      for k := 0 to |uids|
        invariant users == NotYetIn(group, uids[..k])
      {
        assert uids[..k + 1][..k] == uids[..k];
        if !InGroup(RoleOf(group, uids[k])) {
          users := users + [uids[k]];
        }
      }
      assert uids[..|uids|] == uids;
      if users == [] {
        return Success, None;
      }
      if QueryCounter in fails {
        return ServerError, None;
      }
      var memberCnt := MemberCount(group);
      if InsertBatch in fails || !Insertable(group, users) {
        return ServerError, None;
      }
      Write(AddMembers(group, users));
      return Success, Some(memberCnt + |users|);
    }

    /** The invited users that have no row enter the pending list, one write each. */
    method QueueForReview(inviter: Uid, uids: seq<Uid>, fails: set<Call>) returns (status: Status)
      modifies this
      ensures var o := InvitePending(old(group), inviter, uids, 0, fails);
              group == Final(old(group), o) && trail == old(trail) + o.trail && status == o.status
    {
      ghost var o := InvitePending(group, inviter, uids, 0, fails);
      ghost var done: seq<Group> := [];
      for i := 0 to |uids|
        invariant group == (if done == [] then old(group) else done[|done| - 1])
        invariant trail == old(trail) + done
        invariant o.trail == done + InvitePending(group, inviter, uids, i, fails).trail
        invariant o.status == InvitePending(group, inviter, uids, i, fails).status
      {
        if RoleOf(group, uids[i]) == Undefine {
          if SetPending(i) in fails {
            assert o.trail == done;
            return ServerError;
          }
          Write(group.(pending := group.pending[uids[i] := inviter]));
          assert o.trail == (done + [group]) + InvitePending(group, inviter, uids, i + 1, fails).trail;
          done := done + [group];
        }
      }
      assert o.trail == done;
      return Success;
    }

    method ReviewJoinRequest(uid: Uid, items: seq<ReviewItem>, owner: Uid, gate: Option<Status>, fails: set<Call>)
      returns (status: Status, fed: Option<nat>, announced: map<Uid, set<Uid>>)
      modifies this
      ensures Shows(old(group), old(trail), HandleReview(old(group), uid, items, owner, gate, fails), status, fed)
      ensures announced == HandleReview(old(group), uid, items, owner, gate, fails).announced
      ensures status.Success? || group != old(group) || announced != map[] ==>
                owner == uid && RoleOf(old(group), uid) == Owner && V3(old(group))
    {
      GroupEffects.ReviewSucceeds(group, uid, items, owner, gate, fails);
      announced := map[];
      if GetOwner in fails || RoleOf(group, owner) != Owner {
        return ServerError, None, announced;
      }
      if owner != uid {
        return BadRequest, None, announced;
      }
      if GetGroup in fails || group.info.None? {
        return ServerError, None, announced;
      }
      if !group.info.value.v3 {
        return BadRequest, None, announced;
      }
      if gate.Some? {
        return gate.value, None, announced;
      }
      var delUsers, anyAccepted := ReviewSets(items);
      if anyAccepted && GetMemberBatch in fails {
        return ServerError, None, announced;
      }
      var insertList, invitees := ReviewInserts(group, items);
      if insertList != [] && QueryCounter in fails {
        return ServerError, None, announced;
      }
      var memberCnt := MemberCount(group);
      if insertList != [] && (InsertBatch in fails || !Insertable(group, Uids(insertList))) {
        return ServerError, None, announced;
      }
      fed := WriteReview(items, insertList, delUsers, memberCnt, fails);
      return Success, fed, invitees;
    }

    /** The two writes of a review that is not refused. */
    method WriteReview(items: seq<ReviewItem>, insertList: seq<ReviewItem>, delUsers: set<Uid>, memberCnt: nat,
                       fails: set<Call>) returns (fed: Option<nat>)
      requires insertList == ToInsert(group, items) && delUsers == Listed(items) && memberCnt == MemberCount(group)
      modifies this
      ensures Shows(old(group), old(trail), ReviewWrites(old(group), items, fails), Success, fed)
    {
      assert items != [] ==> items[0].uid in Listed(items);
      fed := None;
      if insertList != [] {
        Write(AddMembers(group, Uids(insertList)));
        fed := Some(memberCnt + |insertList|);
      }
      if delUsers != {} && DelPending !in fails {
        Write(group.(pending := group.pending - delUsers));
      }
    }

    method CreateGroup(uid: Uid, uids: seq<Uid>, ownerConfirm: bool, gate: Option<Status>, fails: set<Call>)
      returns (status: Status, fed: Option<nat>)
      requires group == NO_GROUP
      modifies this
      ensures Shows(old(group), old(trail), HandleCreate(old(group), uid, uids, ownerConfirm, gate, fails), status, fed)
      ensures gate.None? && status.Success? ==>
                group == Group(Some(Info(true, ownerConfirm)), GroupEffects.Founders(uid, uids), map[])
      ensures gate.Some? || !status.Success? ==> group.members == map[] && group.pending == map[]
    {
      GroupEffects.CreateEffect(group, uid, uids, ownerConfirm, gate, fails);
      if !ValidUids(uids) {
        return BadRequest, None;
      }
      if gate.Some? {
        return gate.value, None;
      }
      if Call.CreateGroup in fails {
        return ServerError, None;
      }
      Write(group.(info := Some(Info(true, ownerConfirm))));
      if InsertKeys in fails || InsertBatch in fails || !Insertable(group, uids + [uid]) {
        if DelGroup !in fails {
          Write(group.(info := None));
        }
        return ServerError, None;
      }
      var users := MemberRows(uids);
      users := users[uid := Owner];
      Write(group.(members := users));
      return Success, None;
    }
  }

  lemma LeaveOwners(g: Group, uid: Uid, nextOwner: Uid, fails: set<Call>)
    requires Owned(g)
    ensures var o := HandleLeave(g, uid, nextOwner, fails);
            && Owned(Final(g, o))
            && |Owners(Final(g, o))| <= |Owners(g)| + (if o.status.ServerError? then 1 else 0)
  {
    LeaveKeepsOwner(g, uid, nextOwner, fails);
    OwnedCount(g);
    var o := HandleLeave(g, uid, nextOwner, fails);
    if o.trail != [] {
      assert uid in g.members;
    }
  }

  /** The loop that makes the rows of the listed members. */
  method MemberRows(uids: seq<Uid>) returns (users: map<Uid, Role>)
    ensures users == map u | u in uids :: Member
    ensures forall info :: AddMembers(Group(info, map[], map[]), uids).members == users
  {
    users := map[];
    for k := 0 to |uids|
      invariant users == map u | u in uids[..k] :: Member
    {
      assert uids[..k + 1] == uids[..k] + [uids[k]];
      users := users[uids[k] := Member];
    }
    assert uids[..|uids|] == uids;
  }

  /** `KickGroupMemberBody::check`. */
  method CheckKick(uid: Uid, uids: seq<Uid>) returns (ok: bool)
    ensures ok == (ValidUids(uids) && uid !in uids)
  {
    if |uids| > MAX_MEMBERS || |uids| == 0 {
      return false;
    }
    for k := 0 to |uids|
      invariant forall u :: u in uids[..k] ==> 0 < |u| <= MAX_UID_LENGTH && u != uid
    {
      assert uids[..k + 1] == uids[..k] + [uids[k]];
      if |uids[k]| == 0 || |uids[k]| > MAX_UID_LENGTH || uids[k] == uid {
        return false;
      }
    }
    assert uids[..|uids|] == uids;
    return true;
  }

  const MAX_PROOF_LENGTH := 512
  const MAX_SECRET_LENGTH := 1024
  const MAX_SIGNATURE_LENGTH := 2048

  predicate AllWithin(texts: seq<string>, limit: nat) {
    forall i :: 0 <= i < |texts| ==> |texts[i]| <= limit
  }

  method CheckLengths(texts: seq<string>, limit: nat) returns (ok: bool)
    ensures ok == AllWithin(texts, limit)
  {
    for k := 0 to |texts|
      invariant forall i :: 0 <= i < k ==> |texts[i]| <= limit
    {
      if |texts[k]| > limit {
        return false;
      }
    }
    return true;
  }

  /** `InviteGroupMemberRequestV3::check`. */
  method CheckInvite(uids: seq<Uid>, proofs: seq<string>, secrets: seq<string>, signatures: seq<string>) returns (ok: bool)
    ensures ok == (ValidUids(uids) && Distinct(uids) && AllWithin(proofs, MAX_PROOF_LENGTH)
                   && AllWithin(secrets, MAX_SECRET_LENGTH) && AllWithin(signatures, MAX_SIGNATURE_LENGTH))
  {
    ok := CheckMembers(uids);
    if ok {
      ok := CheckLengths(proofs, MAX_PROOF_LENGTH);
    }
    if ok {
      ok := CheckLengths(secrets, MAX_SECRET_LENGTH);
    }
    if ok {
      ok := CheckLengths(signatures, MAX_SIGNATURE_LENGTH);
    }
  }

  /** Its part on the members: their set must be as large as their list. */
  method CheckMembers(uids: seq<Uid>) returns (ok: bool)
    ensures ok == (ValidUids(uids) && Distinct(uids))
  {
    if uids == [] || |uids| > MAX_MEMBERS {
      return false;
    }
    var distinctUsers: set<Uid> := {};
    for k := 0 to |uids|
      invariant distinctUsers == Elements(uids[..k])
      invariant forall u :: u in uids[..k] ==> 0 < |u| <= MAX_UID_LENGTH
    {
      assert uids[..k + 1] == uids[..k] + [uids[k]];
      if uids[k] == "" || |uids[k]| > MAX_UID_LENGTH {
        return false;
      }
      distinctUsers := distinctUsers + {uids[k]};
    }
    assert uids[..|uids|] == uids;
    GroupReview.SizeAtMost(uids);
    return |distinctUsers| == |uids|;
  }

  /** First loop of a review: everybody listed, and whether anybody is accepted. */
  method ReviewSets(items: seq<ReviewItem>) returns (delUsers: set<Uid>, anyAccepted: bool)
    ensures delUsers == Listed(items) && anyAccepted == AnyAccepted(items)
  {
    delUsers, anyAccepted := {}, false;
    for k := 0 to |items|
      invariant delUsers == Listed(items[..k])
      invariant anyAccepted == exists j :: 0 <= j < k && items[j].accepted
    {
      assert Listed(items[..k + 1]) == Listed(items[..k]) + {items[k].uid};
      delUsers := delUsers + {items[k].uid};
      if items[k].accepted {
        anyAccepted := true;
      }
    }
    assert items[..|items|] == items;
  }

  /** Second loop: the rows to insert and, by inviter, whom to announce. */
  method ReviewInserts(g: Group, items: seq<ReviewItem>)
    returns (insertList: seq<ReviewItem>, invitees: map<Uid, set<Uid>>)
    ensures insertList == ToInsert(g, items) && invitees == Invitees(insertList)
  {
    insertList, invitees := [], map[];
    for k := 0 to |items|
      invariant insertList == ToInsert(g, items[..k]) && invitees == Invitees(insertList)
    {
      assert items[..k + 1][..k] == items[..k];
      var item := items[k];
      if item.accepted && item.uid !in g.members {
        assert (insertList + [item])[..|insertList|] == insertList;
        insertList := insertList + [item];
        invitees := invitees[item.inviter :=
          (if item.inviter in invitees then invitees[item.inviter] else {}) + {item.uid}];
      }
    }
    assert items[..|items|] == items;
  }
}
