/** The V3 group handlers of `src/controllers/group_manager_controller_V3.cpp` as steps over
    the rows of one group. A handler is a sequence of storage calls; `fails` is the set of
    calls of this invocation that fail, without effect. Its outcome lists the state after
    every successful write, so that statements about an outcome hold at every write boundary.

    Storage contracts, from the headers under `src/dao` where they are written down: a lookup reports
    absence as an error of its own; `insert` and `insertBatch` refuse a row whose key exists or
    is repeated in the batch, and then insert nothing; deleting absent rows succeeds. */
module GroupProtocol {
  import opened Wrappers

  type Uid = string

  const MAX_MEMBERS := 128
  const MAX_UID_LENGTH := 65

  /** Roles in the order of their numbers: those up to `Member` are in the group. */
  datatype Role = Undefine | Owner | Administrator | Member | Subscriber

  datatype Info = Info(v3: bool, ownerConfirm: bool)

  datatype Group = Group(info: Option<Info>, members: map<Uid, Role>, pending: map<Uid, Uid>)

  const NO_GROUP := Group(None, map[], map[])

  datatype Call =
    | CreateGroup | DelGroup | GetGroup | InsertKeys
    | QueryCounter | GetRole | GetRoles | GetMember | GetMemberBatch | GetOwner | GetQrCode
    | UpdateRole | DelMember | DelMemberBatch | Insert | InsertBatch
    | SetPending(i: nat) | DelPending

  datatype Status = Success | BadRequest | Forbidden | NotFound | ServerError

  /** `trail`: the state after each write. `fed`: the member count handed to the key-update
      decision. `stranded`: a leave promoted the next owner but failed to delete the leaver.
      `announced`: for each inviter the members its enter message names. */
  datatype Outcome = Outcome(status: Status, trail: seq<Group>, fed: Option<nat>, stranded: bool,
                             announced: map<Uid, set<Uid>>)

  function Stop(status: Status): Outcome {
    Outcome(status, [], None, false, map[])
  }

  function Final(g: Group, o: Outcome): Group {
    if o.trail == [] then g else o.trail[|o.trail| - 1]
  }

  function RoleOf(g: Group, uid: Uid): Role {
    if uid in g.members then g.members[uid] else Undefine
  }

  function Owners(g: Group): set<Uid> {
    set u | u in g.members && g.members[u] == Owner
  }

  /** `memberCnt` of the counter: subscribers are counted apart. */
  function MemberCount(g: Group): nat {
    |set u | u in g.members && g.members[u] != Subscriber|
  }

  function Elements<T(==)>(s: seq<T>): set<T> {
    set x | x in s
  }

  predicate Distinct<T(==)>(s: seq<T>) {
    forall i, j :: 0 <= i < j < |s| ==> s[i] != s[j]
  }

  predicate ValidUids(uids: seq<Uid>) {
    0 < |uids| <= MAX_MEMBERS && forall u :: u in uids ==> 0 < |u| <= MAX_UID_LENGTH
  }

  predicate V3(g: Group) {
    g.info.Some? && g.info.value.v3
  }

  /** Whether a plain batch insertion of these keys is accepted. */
  predicate Insertable(g: Group, uids: seq<Uid>) {
    Distinct(uids) && forall u :: u in uids ==> u !in g.members
  }

  function AddMembers(g: Group, uids: seq<Uid>): Group {
    g.(members := map u | u in g.members.Keys + Elements(uids) ::
         if u in g.members then g.members[u] else Member)
  }

  // ---------------------------------------------------------------- requests

  datatype ReviewItem = ReviewItem(uid: Uid, inviter: Uid, accepted: bool)

  /** `gate`, where present, is the answer of the checks that touch none of the modelled
      rows: limiters, friendship, signatures, list sizes. `owner` is the owner row the store
      picks when asked for the group's owner. */
  datatype Request =
    | Create(uid: Uid, uids: seq<Uid>, ownerConfirm: bool, gate: Option<Status>)
    | Invite(uid: Uid, uids: seq<Uid>, owner: Uid, gate: Option<Status>)
    | AddMe(uid: Uid, hasQrCode: bool, gate: Option<Status>)
    | Review(uid: Uid, items: seq<ReviewItem>, owner: Uid, gate: Option<Status>)
    | Kick(uid: Uid, uids: seq<Uid>)
    | Leave(uid: Uid, nextOwner: Uid)
    | Elsewhere(info: Option<Info>, pending: map<Uid, Uid>)

  const BACKEND_MANAGER: Uid := "bcm_backend_manager"

  function Handle(g: Group, r: Request, fails: set<Call>): Outcome {
    match r
    case Create(uid, uids, confirm, gate) => HandleCreate(g, uid, uids, confirm, gate, fails)
    case Invite(uid, uids, owner, gate) => HandleInvite(g, uid, uids, owner, gate, fails)
    case AddMe(uid, hasQrCode, gate) => HandleAddMe(g, uid, hasQrCode, gate, fails)
    case Review(uid, items, owner, gate) => HandleReview(g, uid, items, owner, gate, fails)
    case Kick(uid, uids) => HandleKick(g, uid, uids, fails)
    case Leave(uid, nextOwner) => HandleLeave(g, uid, nextOwner, fails)
    // handlers that write the group row or the pending list but no member row
    case Elsewhere(info, pending) =>
      Outcome(Success, [g.(info := info, pending := pending)], None, false, map[])
  }

  /** A creation draws a fresh group id, so it finds no rows of the group. */
  function HandleCreate(g: Group, uid: Uid, uids: seq<Uid>, confirm: bool, gate: Option<Status>,
                              fails: set<Call>): Outcome
  {
    if g != NO_GROUP then Stop(ServerError)
    else if !ValidUids(uids) then Stop(BadRequest)
    else if gate.Some? then Stop(gate.value)
    else if CreateGroup in fails then Stop(ServerError)
    else
      var created := g.(info := Some(Info(true, confirm)));
      var undone := if DelGroup in fails then [created] else [created, g];
      if InsertKeys in fails then Outcome(ServerError, undone, None, false, map[])
      else if InsertBatch in fails || !Insertable(created, uids + [uid]) then
        Outcome(ServerError, undone, None, false, map[])
      else
        var done := AddMembers(created, uids);
        Outcome(Success, [created, done.(members := done.members[uid := Owner])], None, false, map[])
  }

  predicate InGroup(role: Role) {
    role.Owner? || role.Administrator? || role.Member?
  }

  function NotYetIn(g: Group, uids: seq<Uid>): seq<Uid> {
    if uids == [] then []
    else
      var init := NotYetIn(g, uids[..|uids| - 1]);
      var last := uids[|uids| - 1];
      if InGroup(RoleOf(g, last)) then init else init + [last]
  }

  function HandleInvite(g: Group, uid: Uid, uids: seq<Uid>, owner: Uid, gate: Option<Status>,
                              fails: set<Call>): Outcome
  {
    if !ValidUids(uids) || !Distinct(uids) then Stop(BadRequest)
    else if uid != BACKEND_MANAGER && GetRole in fails then Stop(ServerError)
    else if uid != BACKEND_MANAGER && uid !in g.members then Stop(NotFound)
    else if uid != BACKEND_MANAGER && !InGroup(RoleOf(g, uid)) then Stop(Forbidden)
    else if GetGroup in fails then Stop(ServerError)
    else if g.info.None? then Stop(NotFound)
    else if !V3(g) then Stop(BadRequest)
    else if GetOwner in fails || RoleOf(g, owner) != Owner then Stop(ServerError)
    else if gate.Some? then Stop(gate.value)
    else if GetRoles in fails then Stop(ServerError)
    else if g.info.value.ownerConfirm && owner != uid then InvitePending(g, uid, uids, 0, fails)
    else
      var users := NotYetIn(g, uids);
      if users == [] then Stop(Success)
      else if QueryCounter in fails then Stop(ServerError)
      else if InsertBatch in fails || !Insertable(g, users) then Stop(ServerError)
      else Outcome(Success, [AddMembers(g, users)], Some(MemberCount(g) + |users|), false, map[])
  }

  /** The loop that queues the invited users for review: a failed write ends it. */
  function InvitePending(g: Group, inviter: Uid, uids: seq<Uid>, i: nat, fails: set<Call>): Outcome
    requires i <= |uids|
    decreases |uids| - i
  {
    if i == |uids| then Stop(Success)
    else if RoleOf(g, uids[i]) != Undefine then InvitePending(g, inviter, uids, i + 1, fails)
    else if SetPending(i) in fails then Stop(ServerError)
    else
      var g' := g.(pending := g.pending[uids[i] := inviter]);
      var rest := InvitePending(g', inviter, uids, i + 1, fails);
      rest.(trail := [g'] + rest.trail)
  }

  function HandleAddMe(g: Group, uid: Uid, hasQrCode: bool, gate: Option<Status>, fails: set<Call>): Outcome {
    if gate.Some? then Stop(gate.value)
    else if GetGroup in fails || !V3(g) then Stop(BadRequest)
    // every error of the lookup counts as "not a member"
    else if GetMember !in fails && uid in g.members then Stop(Success)
    else if GetQrCode in fails || !hasQrCode then Stop(BadRequest)
    else if QueryCounter in fails then Stop(ServerError)
    else if Insert in fails || uid in g.members then Stop(ServerError)
    else Outcome(Success, [AddMembers(g, [uid])], Some(MemberCount(g) + 1), false, map[])
  }

  function Listed(items: seq<ReviewItem>): set<Uid> {
    set k | 0 <= k < |items| :: items[k].uid
  }

  /** The accepted items whose uid has no row yet, in request order. */
  function ToInsert(g: Group, items: seq<ReviewItem>): seq<ReviewItem> {
    if items == [] then []
    else
      var init := ToInsert(g, items[..|items| - 1]);
      var last := items[|items| - 1];
      if last.accepted && last.uid !in g.members then init + [last] else init
  }

  function Uids(items: seq<ReviewItem>): seq<Uid> {
    seq(|items|, k requires 0 <= k < |items| => items[k].uid)
  }

  predicate AnyAccepted(items: seq<ReviewItem>) {
    exists k :: 0 <= k < |items| && items[k].accepted
  }

  /** `invitees`: for each inviter the set of uids it brought. */
  function Invitees(items: seq<ReviewItem>): map<Uid, set<Uid>> {
    if items == [] then map[]
    else
      var init := Invitees(items[..|items| - 1]);
      var last := items[|items| - 1];
      init[last.inviter := (if last.inviter in init then init[last.inviter] else {}) + {last.uid}]
  }

  function DropPending(g: Group, uids: set<Uid>): Group {
    g.(pending := g.pending - uids)
  }

  /** Why a review stops before its first write, if it does. */
  function ReviewRefusal(g: Group, uid: Uid, items: seq<ReviewItem>, owner: Uid, gate: Option<Status>,
                               fails: set<Call>): Option<Status>
  {
    var inserts := ToInsert(g, items);
    if GetOwner in fails || RoleOf(g, owner) != Owner then Some(ServerError)
    else if owner != uid then Some(BadRequest)
    else if GetGroup in fails || g.info.None? then Some(ServerError)
    else if !V3(g) then Some(BadRequest)
    else if gate.Some? then gate
    else if AnyAccepted(items) && GetMemberBatch in fails then Some(ServerError)
    else if inserts != [] && (QueryCounter in fails || InsertBatch in fails || !Insertable(g, Uids(inserts))) then
      Some(ServerError)
    else None
  }

  function ReviewWrites(g: Group, items: seq<ReviewItem>, fails: set<Call>): Outcome {
    var inserts := ToInsert(g, items);
    var g1 := if inserts == [] then g else AddMembers(g, Uids(inserts));
    var t1 := if inserts == [] then [] else [g1];
    // a failed deletion from the pending list is logged and ignored
    var t2 := if items == [] || DelPending in fails then [] else [DropPending(g1, Listed(items))];
    Outcome(Success, t1 + t2, if inserts == [] then None else Some(MemberCount(g) + |inserts|), false,
            Invitees(inserts))
  }

  function HandleReview(g: Group, uid: Uid, items: seq<ReviewItem>, owner: Uid, gate: Option<Status>,
                              fails: set<Call>): Outcome
  {
    var refusal := ReviewRefusal(g, uid, items, owner, gate, fails);
    if refusal.Some? then Stop(refusal.value) else ReviewWrites(g, items, fails)
  }

  function ToKick(g: Group, uids: seq<Uid>): set<Uid> {
    set u | u in uids && u in g.members
  }

  function HandleKick(g: Group, uid: Uid, uids: seq<Uid>, fails: set<Call>): Outcome {
    if !ValidUids(uids) || uid in uids then Stop(BadRequest)
    else if GetGroup in fails || g.info.None? then Stop(ServerError)
    else if !V3(g) then Stop(BadRequest)
    else if QueryCounter in fails then Stop(ServerError)
    else if GetRole in fails || uid !in g.members then Stop(ServerError)
    else if RoleOf(g, uid) != Owner then Stop(BadRequest)
    else if GetMemberBatch in fails || ToKick(g, uids) == {} then Stop(ServerError)
    else if DelMemberBatch in fails then Stop(ServerError)
    else
      var count := MemberCount(g);
      Outcome(Success, [g.(members := g.members - ToKick(g, uids))],
              Some(if count >= |uids| then count - |uids| else 0), false, map[])
  }

  function HandleLeave(g: Group, uid: Uid, nextOwner: Uid, fails: set<Call>): Outcome {
    var role, nextRole, count := RoleOf(g, uid), RoleOf(g, nextOwner), MemberCount(g);
    if |nextOwner| > MAX_UID_LENGTH then Stop(BadRequest)
    else if GetGroup in fails || g.info.None? then Stop(ServerError)
    else if !V3(g) then Stop(BadRequest)
    else if QueryCounter in fails then Stop(ServerError)
    else if role != Owner && role != Member then Stop(BadRequest)
    else if count == 0 then Stop(BadRequest)
    else
      var needNextOwner := role == Owner && count > 1;
      if needNextOwner && (nextOwner == "" || nextOwner == uid || (nextRole != Owner && nextRole != Member)) then
        Stop(BadRequest)
      else if needNextOwner && UpdateRole in fails then Stop(ServerError)
      else
        var g1 := if needNextOwner then g.(members := g.members[nextOwner := Owner]) else g;
        var t1 := if needNextOwner then [g1] else [];
        if DelMember in fails then Outcome(ServerError, t1, None, needNextOwner, map[])
        else Outcome(Success, t1 + [g1.(members := g1.members - {uid})], Some(count - 1), false, map[])
  }

  // ---------------------------------------------------------------- ownership

  /** The rows the V3 handlers make: owners and plain members. */
  ghost predicate Plain(g: Group) {
    forall u :: u in g.members ==> g.members[u] == Owner || g.members[u] == Member
  }

  /** An owner, too, wherever there is any row at all. */
  ghost predicate Owned(g: Group) {
    Plain(g) && (g.members != map[] ==> exists u :: u in g.members && g.members[u] == Owner)
  }

  lemma PlainCount(g: Group)
    requires Plain(g)
    ensures MemberCount(g) == |g.members|
  {
    assert (set u | u in g.members && g.members[u] != Subscriber) == g.members.Keys;
  }

  lemma OwnedCount(g: Group)
    requires Owned(g)
    ensures MemberCount(g) == |g.members|
    ensures g.members != map[] ==> Owners(g) != {}
  {
    PlainCount(g);
    if g.members != map[] {
      var u :| u in g.members && g.members[u] == Owner;
      assert u in Owners(g);
    }
  }

  lemma AddKeepsOwned(g: Group, uids: seq<Uid>)
    requires Owned(g) && g.members != map[]
    ensures Owned(AddMembers(g, uids)) && Owners(AddMembers(g, uids)) == Owners(g)
  {
    var u :| u in g.members && g.members[u] == Owner;
    assert u in AddMembers(g, uids).members;
  }

  ghost predicate AllOwned(trail: seq<Group>) {
    forall i :: 0 <= i < |trail| ==> Owned(trail[i])
  }

  /** What a handler does to ownership, at every write boundary and at its end. */
  ghost predicate KeepsOwner(g: Group, o: Outcome) {
    && AllOwned(o.trail)
    && |Owners(Final(g, o))| <= (if |Owners(g)| == 0 then 1 else |Owners(g)|) + (if o.stranded then 1 else 0)
  }

  /** Queueing for review touches no member row at any of its writes, and feeds no count. */
  lemma {:induction false} PendingKeepsMembers(g: Group, inviter: Uid, uids: seq<Uid>, i: nat, fails: set<Call>)
    requires i <= |uids|
    ensures var o := InvitePending(g, inviter, uids, i, fails);
            && (forall k :: 0 <= k < |o.trail| ==> o.trail[k].members == g.members)
            && !o.stranded && o.fed.None? && Final(g, o).members == g.members
    decreases |uids| - i
  {
    if i < |uids| {
      PendingKeepsMembers(g, inviter, uids, i + 1, fails);
      PendingKeepsMembers(g.(pending := g.pending[uids[i] := inviter]), inviter, uids, i + 1, fails);
    }
  }

  lemma CreateKeepsOwner(g: Group, uid: Uid, uids: seq<Uid>, confirm: bool, gate: Option<Status>, fails: set<Call>)
    requires Owned(g)
    ensures KeepsOwner(g, HandleCreate(g, uid, uids, confirm, gate, fails))
  {
    var o := HandleCreate(g, uid, uids, confirm, gate, fails);
    if o.status.Success? && o.trail != [] {
      var h := o.trail[1];
      assert h.members[uid] == Owner;
      assert Owners(h) == {uid};
    }
  }

  lemma InviteKeepsOwner(g: Group, uid: Uid, uids: seq<Uid>, owner: Uid, gate: Option<Status>, fails: set<Call>)
    requires Owned(g)
    ensures KeepsOwner(g, HandleInvite(g, uid, uids, owner, gate, fails))
  {
    var o := HandleInvite(g, uid, uids, owner, gate, fails);
    var pending := InvitePending(g, uid, uids, 0, fails);
    var users := NotYetIn(g, uids);
    assert o == pending || (!o.stranded && (o.trail == [] || o.trail == [AddMembers(g, users)]));
    if o == pending {
      PendingKeepsMembers(g, uid, uids, 0, fails);
      assert Owners(Final(g, pending)) == Owners(g);
    } else if o.trail != [] {
      assert RoleOf(g, owner) == Owner;
      AddKeepsOwned(g, users);
    }
  }

  lemma ReviewKeepsOwner(g: Group, uid: Uid, items: seq<ReviewItem>, owner: Uid, gate: Option<Status>,
                         fails: set<Call>)
    requires Owned(g)
    ensures KeepsOwner(g, HandleReview(g, uid, items, owner, gate, fails))
  {
    if ReviewRefusal(g, uid, items, owner, gate, fails).None? {
      var inserts := ToInsert(g, items);
      AddKeepsOwned(g, Uids(inserts));
      var g1 := if inserts == [] then g else AddMembers(g, Uids(inserts));
      var g2 := DropPending(g1, Listed(items));
      assert Owned(g2) && Owners(g2) == Owners(g1);
    }
  }

  lemma KickKeepsOwner(g: Group, uid: Uid, uids: seq<Uid>, fails: set<Call>)
    requires Owned(g)
    ensures KeepsOwner(g, HandleKick(g, uid, uids, fails))
  {
    var o := HandleKick(g, uid, uids, fails);
    if o.trail != [] {
      assert uid in o.trail[0].members;
      EqualSizeSubset(Owners(o.trail[0]), Owners(g));
    }
  }

  lemma PromoteKeepsOwned(g: Group, uid: Uid, nextOwner: Uid)
    requires Owned(g) && RoleOf(g, uid) == Owner && uid != nextOwner && nextOwner in g.members
    ensures var g1 := g.(members := g.members[nextOwner := Owner]);
            var g2 := g1.(members := g1.members - {uid});
            && Owned(g1) && |Owners(g1)| <= |Owners(g)| + 1
            && Owned(g2) && |Owners(g2)| <= |Owners(g)|
  {
    var g1 := g.(members := g.members[nextOwner := Owner]);
    var g2 := g1.(members := g1.members - {uid});
    assert nextOwner in g2.members;
    assert Owners(g1) == Owners(g) + {nextOwner};
    assert Owners(g2) == Owners(g1) - {uid} && uid in Owners(g1);
  }

  lemma DepartureKeepsOwned(g: Group, uid: Uid)
    requires Owned(g) && uid in g.members && (g.members[uid] == Owner ==> |g.members| == 1)
    ensures var g2 := g.(members := g.members - {uid});
            Owned(g2) && |Owners(g2)| <= |Owners(g)|
  {
    var g2 := g.(members := g.members - {uid});
    EqualSizeSubset(Owners(g2), Owners(g));
    if g.members[uid] == Owner {
      assert g.members.Keys == {uid} + (g.members.Keys - {uid});
      assert g2.members == map[];
    } else {
      var u :| u in g.members && g.members[u] == Owner;
      assert u in g2.members;
    }
  }

  lemma LeaveKeepsOwner(g: Group, uid: Uid, nextOwner: Uid, fails: set<Call>)
    requires Owned(g)
    ensures KeepsOwner(g, HandleLeave(g, uid, nextOwner, fails))
  {
    OwnedCount(g);
    var o := HandleLeave(g, uid, nextOwner, fails);
    if o.trail != [] {
      assert uid in g.members;
      if RoleOf(g, uid) == Owner && MemberCount(g) > 1 {
        PromoteKeepsOwned(g, uid, nextOwner);
        assert uid in Owners(g);
      } else {
        DepartureKeepsOwned(g, uid);
      }
    }
  }

  /** The one step that breaks ownership: an add-me that goes through while the group row is
      there but every member has left. Everything it depends on is known before the insertion. */
  predicate Orphans(g: Group, r: Request, fails: set<Call>) {
    && r.AddMe? && g.members == map[]
    && r.gate.None? && V3(g) && r.hasQrCode && {GetGroup, GetQrCode, QueryCounter, Insert} !! fails
  }

  lemma AddMeKeepsOwner(g: Group, r: Request, fails: set<Call>)
    requires r.AddMe? && Owned(g)
    ensures var o := HandleAddMe(g, r.uid, r.hasQrCode, r.gate, fails);
            if Orphans(g, r, fails) then !AllOwned(o.trail) else KeepsOwner(g, o)
  {
    if g.members != map[] {
      AddKeepsOwned(g, [r.uid]);
    } else {
      var h := AddMembers(g, [r.uid]);
      assert r.uid in h.members && forall u :: u in h.members ==> h.members[u] == Member;
      assert !Owned(h);
      var o := HandleAddMe(g, r.uid, r.hasQrCode, r.gate, fails);
      if Orphans(g, r, fails) {
        assert o.trail[0] == h;
      }
    }
  }

  lemma StepKeepsOwner(g: Group, r: Request, fails: set<Call>)
    requires Owned(g)
    ensures var o := Handle(g, r, fails);
            if Orphans(g, r, fails) then !AllOwned(o.trail) else KeepsOwner(g, o)
  {
    match r
    case Create(uid, uids, confirm, gate) => CreateKeepsOwner(g, uid, uids, confirm, gate, fails);
    case Invite(uid, uids, owner, gate) => InviteKeepsOwner(g, uid, uids, owner, gate, fails);
    case AddMe(_, _, _) => AddMeKeepsOwner(g, r, fails);
    case Review(uid, items, owner, gate) => ReviewKeepsOwner(g, uid, items, owner, gate, fails);
    case Kick(uid, uids) => KickKeepsOwner(g, uid, uids, fails);
    case Leave(uid, nextOwner) => LeaveKeepsOwner(g, uid, nextOwner, fails);
    case Elsewhere(info, pending) =>
      assert Owners(g.(info := info, pending := pending)) == Owners(g);
  }

  /** Roles stay plain whatever happens, owner or not. */
  lemma StepKeepsPlain(g: Group, r: Request, fails: set<Call>)
    requires Plain(g)
    ensures Plain(Final(g, Handle(g, r, fails)))
  {
    match r
    case Create(uid, uids, confirm, gate) => CreateKeepsPlain(g, uid, uids, confirm, gate, fails);
    case Invite(uid, uids, owner, gate) =>
      PendingKeepsMembers(g, uid, uids, 0, fails);
      InviteCases(g, uid, uids, owner, gate, fails);
    case AddMe(_, _, _) =>
    case Review(uid, items, owner, gate) => ReviewKeepsPlain(g, uid, items, owner, gate, fails);
    case Kick(_, _) =>
    case Leave(uid, nextOwner) => LeaveKeepsPlain(g, uid, nextOwner, fails);
    case Elsewhere(_, _) =>
  }

  lemma CreateKeepsPlain(g: Group, uid: Uid, uids: seq<Uid>, confirm: bool, gate: Option<Status>, fails: set<Call>)
    requires Plain(g)
    ensures Plain(Final(g, HandleCreate(g, uid, uids, confirm, gate, fails)))
  {}

  lemma ReviewKeepsPlain(g: Group, uid: Uid, items: seq<ReviewItem>, owner: Uid, gate: Option<Status>, fails: set<Call>)
    requires Plain(g)
    ensures Plain(Final(g, HandleReview(g, uid, items, owner, gate, fails)))
  {}

  lemma LeaveKeepsPlain(g: Group, uid: Uid, nextOwner: Uid, fails: set<Call>)
    requires Plain(g)
    ensures Plain(Final(g, HandleLeave(g, uid, nextOwner, fails)))
  {}

  /** The three ways an invitation ends. */
  lemma InviteCases(g: Group, uid: Uid, uids: seq<Uid>, owner: Uid, gate: Option<Status>, fails: set<Call>)
    ensures var o, users := HandleInvite(g, uid, uids, owner, gate, fails), NotYetIn(g, uids);
            || (o.trail == [] && o.fed.None?)
            || o == InvitePending(g, uid, uids, 0, fails)
            || (Insertable(g, users) && o.trail == [AddMembers(g, users)] && o.fed == Some(MemberCount(g) + |users|))
  {}

  // ---------------------------------------------------------------- whole runs

  datatype Event = Event(request: Request, fails: set<Call>)

  ghost function After(g: Group, run: seq<Event>): Group
    decreases |run|
  {
    if run == [] then g else After(Final(g, Handle(g, run[0].request, run[0].fails)), run[1..])
  }

  /** The states at all write boundaries of a run. */
  ghost function Boundaries(g: Group, run: seq<Event>): seq<Group>
    decreases |run|
  {
    if run == [] then []
    else
      var o := Handle(g, run[0].request, run[0].fails);
      o.trail + Boundaries(Final(g, o), run[1..])
  }

  ghost function StrandedLeaves(g: Group, run: seq<Event>): nat
    decreases |run|
  {
    if run == [] then 0
    else
      var o := Handle(g, run[0].request, run[0].fails);
      (if o.stranded then 1 else 0) + StrandedLeaves(Final(g, o), run[1..])
  }

  ghost predicate EverOrphans(g: Group, run: seq<Event>)
    decreases |run|
  {
    run != [] &&
    (Orphans(g, run[0].request, run[0].fails)
     || EverOrphans(Final(g, Handle(g, run[0].request, run[0].fails)), run[1..]))
  }

  lemma AllOwnedConcat(a: seq<Group>, b: seq<Group>)
    ensures AllOwned(a + b) <==> AllOwned(a) && AllOwned(b)
  {
    assert AllOwned(a + b) ==> AllOwned(a) by {
      if AllOwned(a + b) {
        forall i | 0 <= i < |a| ensures Owned(a[i]) { assert (a + b)[i] == a[i]; }
      }
    }
    assert AllOwned(a + b) ==> AllOwned(b) by {
      if AllOwned(a + b) {
        forall i | 0 <= i < |b| ensures Owned(b[i]) { assert (a + b)[|a| + i] == b[i]; }
      }
    }
  }

  /** Over every run of non-overlapping handlers with any storage calls failing: each write
      boundary leaves a populated group owned if and only if no add-me refilled an emptied
      group, and then the owners number at most one more than the leaves whose deletion failed. */
  lemma {:induction false} OwnershipOverRuns(g: Group, run: seq<Event>)
    requires Owned(g)
    ensures AllOwned(Boundaries(g, run)) <==> !EverOrphans(g, run)
    ensures !EverOrphans(g, run) ==>
              && Owned(After(g, run))
              && |Owners(After(g, run))| <= (if |Owners(g)| == 0 then 1 else |Owners(g)|) + StrandedLeaves(g, run)
    decreases |run|
  {
    if run != [] {
      var e := run[0];
      var o := Handle(g, e.request, e.fails);
      var h := Final(g, o);
      StepKeepsOwner(g, e.request, e.fails);
      AllOwnedConcat(o.trail, Boundaries(h, run[1..]));
      if !Orphans(g, e.request, e.fails) {
        OwnershipOverRuns(h, run[1..]);
      }
    }
  }

  /** From nothing, a run in which every leave either stops before its promotion or completes
      ends with exactly one owner wherever there is a member. */
  lemma ExactlyOneOwner(run: seq<Event>)
    requires !EverOrphans(NO_GROUP, run) && StrandedLeaves(NO_GROUP, run) == 0
    ensures var g := After(NO_GROUP, run); g.members != map[] ==> |Owners(g)| == 1
  {
    OwnershipOverRuns(NO_GROUP, run);
    var g := After(NO_GROUP, run);
    OwnedCount(g);
    assert Owners(NO_GROUP) == {};
  }

  /** The failing family is inhabited: a group whose owner, alone, has left keeps its row,
      and a visitor with a QR code still valid becomes its only member, without an owner. */
  lemma EmptiedGroupRefilled(g: Group, visitor: Uid)
    requires V3(g) && g.members == map[]
    ensures var o := HandleAddMe(g, visitor, true, None, {});
            o.status == Success && Final(g, o).members == map[visitor := Member] && Owners(Final(g, o)) == {}
  {
    assert Elements([visitor]) == {visitor};
    assert AddMembers(g, [visitor]).members == map[visitor := Member];
  }

  lemma LastOwnerLeavesRow(info: Info, owner: Uid)
    requires info.v3
    ensures var g := Group(Some(info), map[owner := Owner], map[]);
            var o := HandleLeave(g, owner, "", {});
            o.status == Success && V3(Final(g, o)) && Final(g, o).members == map[]
  {
    var g := Group(Some(info), map[owner := Owner], map[]);
    assert (set u | u in g.members && g.members[u] != Subscriber) == {owner};
    assert g.members - {owner} == map[];
  }
}
