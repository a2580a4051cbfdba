/** The size bands of `sendGroupKeysUpdateRequestWhenMemberChanges`: which kind of group keys
    a change of membership asks for, and what that makes of the mode of the stored keys over
    whole runs. */
module KeyMode {
  import opened Wrappers
  import opened GroupProtocol
  import GroupReview
  import GroupEffects

  datatype Config = Config(powerGroupMin: nat, powerGroupMax: nat, normalGroupRefreshKeysMax: nat)

  /** The mode a read of the latest keys yields: one key per member, one shared key, unknown
      after a failed read, or a number that is none of these. */
  datatype Mode = OneForEach | AllTheSame | Unknown | Foreign(number: int)

  datatype Decision = Request(mode: Mode) | NoChange | ShouldNotReachHere

  function Decide(c: Config, count: nat, latest: Mode): Decision {
    if count <= c.powerGroupMin then Request(OneForEach)
    else if count > c.powerGroupMin && count <= c.powerGroupMax then
      match latest
      case OneForEach => Request(OneForEach)
      case AllTheSame => Request(AllTheSame)
      case Unknown => Request(OneForEach)
      case Foreign(_) => ShouldNotReachHere
    else if count > c.powerGroupMax && count <= c.normalGroupRefreshKeysMax then Request(AllTheSame)
    else
      match latest
      case OneForEach => Request(AllTheSame)
      case AllTheSame => NoChange
      case Unknown => Request(AllTheSame)
      case Foreign(_) => ShouldNotReachHere
  }

  /** A membership change: the count fed in, whether the mode could be read, and whether some
      client answered the request by uploading keys of the requested mode. */
  datatype Change = Change(count: nat, readOk: bool, honoured: bool)

  function Next(c: Config, mode: Mode, e: Change): Mode {
    var d := Decide(c, e.count, if e.readOk then mode else Unknown);
    if d.Request? && e.honoured then d.mode else mode
  }

  function ModeAfter(c: Config, mode: Mode, run: seq<Change>): Mode {
    if run == [] then mode
    else Next(c, ModeAfter(c, mode, run[..|run| - 1]), run[|run| - 1])
  }

  /** Uploads and creations store one of the two modes only. */
  predicate Stored(mode: Mode) { mode.OneForEach? || mode.AllTheSame? }

  lemma {:induction false} StaysStored(c: Config, mode: Mode, run: seq<Change>)
    requires Stored(mode)
    ensures Stored(ModeAfter(c, mode, run))
  {
    if run != [] {
      StaysStored(c, mode, run[..|run| - 1]);
    }
  }

  /** In no run does the decision reach its last line, for any thresholds. */
  lemma {:induction false} ExitUnreachable(c: Config, mode: Mode, run: seq<Change>, e: Change)
    requires Stored(mode)
    ensures Decide(c, e.count, if e.readOk then ModeAfter(c, mode, run) else Unknown) != ShouldNotReachHere
  {
    StaysStored(c, mode, run);
  }

  predicate Low(c: Config, count: nat) { count <= c.powerGroupMin }
  predicate High(c: Config, count: nat) { count > c.powerGroupMin && count > c.powerGroupMax }

  /** Exactly when a change turns the mode, whatever the order of the thresholds: to a shared
      key when an honoured count is above the band, back when it is below it or the mode could
      not be read inside it. */
  lemma TurnsExactly(c: Config, e: Change)
    ensures Next(c, OneForEach, e) == AllTheSame <==> e.honoured && High(c, e.count)
    ensures Next(c, AllTheSame, e) == OneForEach <==>
            e.honoured && (Low(c, e.count) || (!e.readOk && !High(c, e.count)))
  {}

  /** Exactly when no keys are requested, and which are requested otherwise, for every latest
      mode and any thresholds: up to powerGroupMin per-member keys, up to powerGroupMax whatever
      is in use (or per-member keys when that is unknown), above it shared keys, every time up to
      normalGroupRefreshKeysMax and beyond only when they are not in use. */
  lemma DecidesExactly(c: Config, n: nat, latest: Mode)
    ensures var d := Decide(c, n, latest);
            var inBand := c.powerGroupMin < n <= c.powerGroupMax;
            var huge := High(c, n) && n > c.normalGroupRefreshKeysMax;
            && (d == NoChange <==> latest == AllTheSame && huge)
            && (d == Request(OneForEach) <==> Low(c, n) || (inBand && (latest == OneForEach || latest == Unknown)))
            && (d == Request(AllTheSame) <==>
                  || (inBand && latest == AllTheSame)
                  || (High(c, n) && (!huge || latest == OneForEach || latest == Unknown)))
            && (d == ShouldNotReachHere <==> latest.Foreign? && (inBand || huge))
  {}

  datatype Side = Inside | Below | Above

  /** The side of the last count that lay outside the band. */
  function LastOutside(c: Config, run: seq<Change>): Side {
    if run == [] then Inside
    else
      var e := run[|run| - 1];
      if Low(c, e.count) then Below
      else if High(c, e.count) then Above
      else LastOutside(c, run[..|run| - 1])
  }

  /** Reads succeed where they matter and requests outside the band are honoured. */
  ghost predicate Faithful(c: Config, run: seq<Change>) {
    forall i :: 0 <= i < |run| ==>
      if Low(c, run[i].count) || High(c, run[i].count) then run[i].honoured else run[i].readOk || !run[i].honoured
  }

  /** Hysteresis over whole runs: the mode remembers only on which side the count last left
      the band (powerGroupMin, powerGroupMax]. */
  lemma {:induction false} Hysteresis(c: Config, mode: Mode, run: seq<Change>)
    requires Stored(mode) && Faithful(c, run)
    ensures ModeAfter(c, mode, run) ==
            match LastOutside(c, run) case Inside => mode case Below => OneForEach case Above => AllTheSame
  {
    if run != [] {
      var init := run[..|run| - 1];
      assert forall i :: 0 <= i < |init| ==> init[i] == run[i];
      Hysteresis(c, mode, init);
      StaysStored(c, mode, init);
    }
  }

  /** The count a kick feeds in can cross the band although the group did not: after a kick
      that names a stranger, two members remain and yet per-member keys are asked for, as if
      one did. */
  lemma UndercountTurnsEarly(c: Config)
    requires c.powerGroupMin == 1 && c.powerGroupMax >= 2
    ensures var g := Group(Some(Info(true, false)), map["o" := Owner, "a" := Member, "b" := Member], map[]);
            var o := HandleKick(g, "o", ["a", "z"], {});
            && o.fed.Some? && |Final(g, o).members| == 2
            && Next(c, AllTheSame, Change(o.fed.value, true, true)) == OneForEach
            && Next(c, AllTheSame, Change(2, true, true)) == AllTheSame
  {
    GroupReview.KickUndercounts();
    assert map["o" := Owner, "b" := Member].Keys == {"o", "b"};
  }

  // ---------------------------------------------------------------- with the group protocol

  /** A handler with its failing storage calls, and what becomes of the key decision it may
      make. */
  datatype Step = Step(request: GroupProtocol.Request, fails: set<Call>, readOk: bool, honoured: bool)

  ghost function GroupAfter(run: seq<Step>): Group {
    if run == [] then NO_GROUP else Final(GroupAfter(run[..|run| - 1]), LastOutcome(run))
  }

  ghost function LastOutcome(run: seq<Step>): Outcome
    requires run != []
    decreases run, 0
  {
    var last := run[|run| - 1];
    Handle(GroupAfter(run[..|run| - 1]), last.request, last.fails)
  }

  /** How many members there are once the run is over. */
  ghost function TrueCount(run: seq<Step>): nat { |GroupAfter(run).members| }

  /** The changes the handlers of a run feed to the key decision. */
  ghost function FedChanges(run: seq<Step>): seq<Change> {
    if run == [] then []
    else
      var init, last, fed := FedChanges(run[..|run| - 1]), run[|run| - 1], LastOutcome(run).fed;
      if fed.None? then init else init + [Change(fed.value, last.readOk, last.honoured)]
  }

  /** The same changes with the number of members there really are. */
  ghost function TrueChanges(run: seq<Step>): seq<Change> {
    if run == [] then []
    else
      var init, last := TrueChanges(run[..|run| - 1]), run[|run| - 1];
      if LastOutcome(run).fed.None? then init else init + [Change(TrueCount(run), last.readOk, last.honoured)]
  }

  /** The mode of the stored keys: a group is created with per-member keys. */
  ghost function ModeOver(c: Config, run: seq<Step>): Mode {
    ModeAfter(c, OneForEach, FedChanges(run))
  }

  /** A kick request that lists members only, and nobody twice. */
  predicate ListsMembersOnce(g: Group, uids: seq<Uid>) {
    Distinct(uids) && forall u :: u in uids ==> u in g.members
  }

  /** Every kick that goes through is such a request. */
  ghost predicate ExactKicks(run: seq<Step>) {
    run != [] ==>
      var init, r := run[..|run| - 1], run[|run| - 1].request;
      ExactKicks(init) && (r.Kick? && LastOutcome(run).fed.Some? ==> ListsMembersOnce(GroupAfter(init), r.uids))
  }

  lemma {:induction false} GroupStaysPlain(run: seq<Step>)
    ensures Plain(GroupAfter(run))
  {
    if run != [] {
      var init, last := run[..|run| - 1], run[|run| - 1];
      GroupStaysPlain(init);
      StepKeepsPlain(GroupAfter(init), last.request, last.fails);
    }
  }

  /** No handler, in any run, feeds more than the truth, and only a kick feeds less. */
  lemma {:induction false} LastFed(run: seq<Step>)
    requires run != [] && LastOutcome(run).fed.Some?
    ensures var fed, r := LastOutcome(run).fed.value, run[|run| - 1].request;
            && fed <= TrueCount(run)
            && (fed == TrueCount(run) <==> r.Kick? ==> ListsMembersOnce(GroupAfter(run[..|run| - 1]), r.uids))
  {
    var init, last := run[..|run| - 1], run[|run| - 1];
    var g := GroupAfter(init);
    GroupStaysPlain(init);
    if last.request.Kick? {
      GroupReview.KickFedCount(g, last.request.uid, last.request.uids, last.fails);
    } else {
      GroupReview.FedCountExact(g, last.request, last.fails);
    }
  }

  /** The counts fed are the true ones if and only if every kick lists members only, once. */
  lemma {:induction false} FedIsTrueExactly(run: seq<Step>)
    ensures |FedChanges(run)| == |TrueChanges(run)|
    ensures FedChanges(run) == TrueChanges(run) <==> ExactKicks(run)
  {
    if run != [] {
      var init := run[..|run| - 1];
      FedIsTrueExactly(init);
      if LastOutcome(run).fed.Some? {
        LastFed(run);
        var n := |FedChanges(init)|;
        assert FedChanges(run)[..n] == FedChanges(init) && TrueChanges(run)[..n] == TrueChanges(init);
        assert FedChanges(run)[n].count == LastOutcome(run).fed.value && TrueChanges(run)[n].count == TrueCount(run);
      }
    }
  }

  lemma {:induction false} ModeStep(c: Config, run: seq<Step>)
    requires run != []
    ensures var init, last, fed := run[..|run| - 1], run[|run| - 1], LastOutcome(run).fed;
            ModeOver(c, run) ==
            if fed.None? then ModeOver(c, init)
            else Next(c, ModeOver(c, init), Change(fed.value, last.readOk, last.honoured))
  {
    var init := run[..|run| - 1];
    if LastOutcome(run).fed.Some? {
      assert FedChanges(run)[..|FedChanges(init)|] == FedChanges(init);
    }
  }

  /** In every run, kicks of any kind and failed reads included, a group turns to shared keys
      only in a step that leaves more than powerGroupMax members. It turns back only in a step
      that leaves at most powerGroupMin, or that miscounts a kick, or that could not read the
      mode. */
  lemma {:induction false} TurnsWithTrueCount(c: Config, run: seq<Step>)
    requires run != []
    ensures var init, last := run[..|run| - 1], run[|run| - 1];
            && (ModeOver(c, init) == OneForEach && ModeOver(c, run) == AllTheSame ==>
                  TrueCount(run) > c.powerGroupMax && TrueCount(run) > c.powerGroupMin)
            && (ModeOver(c, init) == AllTheSame && ModeOver(c, run) == OneForEach ==>
                  || TrueCount(run) <= c.powerGroupMin
                  || !last.readOk
                  || (last.request.Kick? && !ListsMembersOnce(GroupAfter(init), last.request.uids)))
  {
    ModeStep(c, run);
    if LastOutcome(run).fed.Some? {
      LastFed(run);
      var last := run[|run| - 1];
      TurnsExactly(c, Change(LastOutcome(run).fed.value, last.readOk, last.honoured));
    }
  }

  /** A group with shared keys has had more than powerGroupMax members. */
  lemma {:induction false} SharedKeysMeanLargeGroup(c: Config, run: seq<Step>)
    ensures ModeOver(c, run) == AllTheSame ==> exists k :: 0 <= k <= |run| && TrueCount(run[..k]) > c.powerGroupMax
  {
    if run != [] && ModeOver(c, run) == AllTheSame {
      var init := run[..|run| - 1];
      assert run[..|run|] == run;
      StaysStored(c, OneForEach, FedChanges(init));
      if ModeOver(c, init) == AllTheSame {
        SharedKeysMeanLargeGroup(c, init);
        var k :| 0 <= k <= |init| && TrueCount(init[..k]) > c.powerGroupMax;
        assert init[..k] == run[..k];
      } else {
        TurnsWithTrueCount(c, run);
      }
    }
  }

  /** Hysteresis of the group itself: when every kick lists members only, once, the side on
      which the true member count last left the band decides the mode. */
  lemma {:induction false} TrueCountsDecide(c: Config, run: seq<Step>)
    requires ExactKicks(run) && Faithful(c, TrueChanges(run))
    ensures ModeOver(c, run) == if LastOutside(c, TrueChanges(run)) == Above then AllTheSame else OneForEach
  {
    FedIsTrueExactly(run);
    Hysteresis(c, OneForEach, TrueChanges(run));
  }

  /** What the last handler of a run asks of the clients, if it makes a decision. */
  ghost function Asked(c: Config, run: seq<Step>): Option<Decision>
    requires run != []
  {
    var last, fed := run[|run| - 1], LastOutcome(run).fed;
    if fed.None? then None
    else Some(Decide(c, fed.value, if last.readOk then ModeOver(c, run[..|run| - 1]) else Unknown))
  }

  /** A handler other than a creation that changes who is in the group makes a decision. */
  lemma {:induction false} ChangesAreFed(g: Group, r: GroupProtocol.Request, fails: set<Call>)
    requires !r.Create? && Final(g, Handle(g, r, fails)).members.Keys != g.members.Keys
    ensures Handle(g, r, fails).fed.Some?
  {
    var h := Final(g, Handle(g, r, fails));
    match r
    case Invite(uid, uids, owner, gate) =>
      GroupEffects.InviteTouches(g, uid, uids, owner, gate, fails);
      if GroupEffects.MayInvite(g, uid, uids, owner, gate, fails) && !GroupEffects.NeedsReview(g, uid, owner) {
        GroupEffects.InviteInserts(g, uid, uids, owner, gate, fails);
      }
    case AddMe(uid, hasQrCode, gate) => GroupEffects.AddMeEffect(g, uid, hasQrCode, gate, fails);
    case Review(uid, items, owner, gate) => ReviewIsFed(g, r, fails);
    case Kick(uid, uids) => GroupEffects.KickEffect(g, uid, uids, fails);
    case Leave(uid, nextOwner) => LeaveIsFed(g, uid, nextOwner, fails);
    case Elsewhere(_, _) =>
  }

  lemma {:induction false} ReviewIsFed(g: Group, r: GroupProtocol.Request, fails: set<Call>)
    requires r.Review?
    ensures Handle(g, r, fails).fed.None? ==> Final(g, Handle(g, r, fails)).members.Keys == g.members.Keys
  {
    GroupEffects.ReviewSucceeds(g, r.uid, r.items, r.owner, r.gate, fails);
    var o := Handle(g, r, fails);
    if GroupEffects.Reviews(g, r.uid, r.items, r.owner, r.gate, fails) && o.fed.None? {
      GroupEffects.ReviewLeaves(g, r.uid, r.items, r.owner, r.gate, fails);
      assert forall u :: u in Final(g, o).members <==> u in g.members;
    }
  }

  lemma LeaveIsFed(g: Group, uid: Uid, nextOwner: Uid, fails: set<Call>)
    requires Final(g, HandleLeave(g, uid, nextOwner, fails)).members.Keys != g.members.Keys
    ensures HandleLeave(g, uid, nextOwner, fails).fed.Some?
  {
    GroupEffects.LeaveEffect(g, uid, nextOwner, fails);
    var p := GroupEffects.Promoted(g, uid, nextOwner);
    if GroupEffects.NeedsHeir(g, uid) && GroupEffects.Heir(g, uid, nextOwner) {
      assert p.members.Keys == g.members.Keys;
    }
  }

  /** In every run, each step that changes who is in the group and leaves at most
      normalGroupRefreshKeysMax members requests new keys, so nobody who left keeps a key in use
      and nobody who joined is without one. Beyond that number it requests none exactly when the
      mode was read and is shared. */
  lemma {:induction false} MembershipChangeRekeys(c: Config, run: seq<Step>)
    requires run != [] && !run[|run| - 1].request.Create?
    requires GroupAfter(run).members.Keys != GroupAfter(run[..|run| - 1]).members.Keys
    ensures Asked(c, run).Some?
    ensures TrueCount(run) <= c.normalGroupRefreshKeysMax ==> Asked(c, run).value.Request?
    ensures Asked(c, run).value == NoChange <==>
            var n := LastOutcome(run).fed.value;
            && run[|run| - 1].readOk && ModeOver(c, run[..|run| - 1]) == AllTheSame
            && High(c, n) && n > c.normalGroupRefreshKeysMax
  {
    var init, last := run[..|run| - 1], run[|run| - 1];
    ChangesAreFed(GroupAfter(init), last.request, last.fails);
    LastFed(run);
    StaysStored(c, OneForEach, FedChanges(init));
    DecidesExactly(c, LastOutcome(run).fed.value, if last.readOk then ModeOver(c, init) else Unknown);
  }
}
