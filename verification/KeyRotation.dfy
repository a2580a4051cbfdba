/** Group-key versions under interleaved clients, for one group: `onCreateGroupV3`,
    `onPrepareKeyUpdateV3`, `onUploadGroupKeysV3` and `sendSwitchGroupKeysWithRetry` of
    `src/controllers/group_manager_controller_V3.cpp`, one step per storage call. The store inserts keys
    only above the latest version (`src/dao/group_keys.h`). */
module KeyRotation {
  type Client = nat

  datatype Phase = Absent | RowInserted | KeysInserted | Live | Abandoned

  /** Where a client is: past the checks of an upload, past the insertion with the switch
      message still to be sent after `tries` failures, or answered. */
  datatype Progress =
    | Idle
    | Checked(version: int, mode: int)
    | Inserted(version: int, tries: nat)
    | Answered(ok: bool)

  datatype Entry = Entry(client: Client, version: int)
  datatype Preparation = Preparation(client: Client, version: int, seen: nat)

  /** `stored`: the mode of each stored version. `accepted`: the insertions that succeeded, in
      order. `published`: the versions named by switch messages, in order. `failed`: the versions
      of the switch messages that could not be sent, once for every try. `prepared`: who was
      told by a preparation that a version is free, and after how many acceptances. */
  datatype State = State(phase: Phase, creator: Client, stored: map<int, int>, accepted: seq<Entry>,
                         published: seq<int>, failed: multiset<int>, progress: map<Client, Progress>,
                         prepared: set<Preparation>)

  const ONE_FOR_EACH := 0
  const ALL_THE_SAME := 1
  const RETRIES := 3

  datatype Event =
    | CreateRow(creator: Client, ok: bool)
    | CreateKeys(ok: bool)
    | CreateUsers(ok: bool, cleared: bool)
    | Prepare(client: Client, version: int)
    | Check(client: Client, version: int, mode: int, isMember: bool)
    | Insert(client: Client, ok: bool)
    | Publish(client: Client, ok: bool)

  function Start(): State {
    State(Absent, 0, map[], [], [], multiset{}, map[], {})
  }

  function ProgressOf(s: State, c: Client): Progress {
    if c in s.progress then s.progress[c] else Idle
  }

  function Set(s: State, c: Client, p: Progress): State {
    s.(progress := s.progress[c := p])
  }

  predicate AboveLatest(s: State, version: int) {
    forall v :: v in s.stored ==> v < version
  }

  /** One step; an event that does not apply leaves the state alone. */
  function Step(s: State, e: Event): State {
    match e
    case CreateRow(creator, ok) =>
      if s.phase.Absent? && ok then s.(phase := RowInserted, creator := creator) else s
    case CreateKeys(ok) =>
      if !s.phase.RowInserted? then s
      else if !ok then s.(phase := Abandoned)
      else s.(phase := KeysInserted, stored := s.stored[0 := ONE_FOR_EACH],
              accepted := s.accepted + [Entry(s.creator, 0)])
    case CreateUsers(ok, cleared) =>
      if !s.phase.KeysInserted? then s
      else if ok then Set(s.(phase := Live), s.creator, Inserted(0, 0))
      else s.(phase := Abandoned, stored := if cleared then map[] else s.stored)
    case Prepare(c, version) =>
      if s.phase.Live? && AboveLatest(s, version)
      then s.(prepared := s.prepared + {Preparation(c, version, |s.accepted|)}) else s
    case Check(c, version, mode, isMember) =>
      // before the users are inserted nobody is a member
      if !s.phase.Live? || !(ProgressOf(s, c).Idle? || ProgressOf(s, c).Answered?) then s
      else if !isMember || (mode != ALL_THE_SAME && mode != ONE_FOR_EACH) then Set(s, c, Answered(false))
      else Set(s, c, Checked(version, mode))
    case Insert(c, ok) =>
      var p := ProgressOf(s, c);
      if !p.Checked? then s
      else if ok && AboveLatest(s, p.version) then
        Set(s.(stored := s.stored[p.version := p.mode], accepted := s.accepted + [Entry(c, p.version)]),
            c, Inserted(p.version, 0))
      else Set(s, c, Answered(false))
    case Publish(c, ok) =>
      var p := ProgressOf(s, c);
      if !p.Inserted? then s
      else if ok then Set(s.(published := s.published + [p.version]), c, Answered(true))
      else
        Set(s.(failed := s.failed + multiset{p.version}), c,
            if p.tries + 1 < RETRIES then Inserted(p.version, p.tries + 1) else Answered(true))
  }

  function Run(s: State, events: seq<Event>): State {
    if events == [] then s else Step(Run(s, events[..|events| - 1]), events[|events| - 1])
  }

  // ---------------------------------------------------------------- the invariant

  ghost predicate Increasing(accepted: seq<Entry>) {
    forall i, j :: 0 <= i < j < |accepted| ==> accepted[i].version < accepted[j].version
  }

  function Versions(accepted: seq<Entry>): set<int> {
    set k | 0 <= k < |accepted| :: accepted[k].version
  }

  predicate KnownMode(mode: int) { mode == ONE_FOR_EACH || mode == ALL_THE_SAME }

  /** The store holds exactly the accepted versions, unless the creation was rolled back. */
  ghost predicate LogInv(s: State) {
    && Increasing(s.accepted)
    && (s.phase.Absent? || s.phase.RowInserted? ==> s.accepted == [] && s.stored == map[])
    && (s.phase.KeysInserted? ==> s.accepted == [Entry(s.creator, 0)])
    && (s.phase.KeysInserted? || s.phase.Live? ==> s.stored.Keys == Versions(s.accepted))
    && (forall v :: v in s.stored ==> KnownMode(s.stored[v]))
  }

  /** A version waiting to be announced is stored, won by its client, and not announced yet. */
  ghost predicate ProgressInv(s: State) {
    && (!s.phase.Live? ==> s.progress == map[])
    && (forall c :: c in s.progress && s.progress[c].Inserted? ==>
          && s.progress[c].version in s.stored && s.progress[c].version !in s.published
          && Entry(c, s.progress[c].version) in s.accepted)
    && (forall c :: c in s.progress && s.progress[c].Checked? ==> KnownMode(s.progress[c].mode))
  }

  ghost predicate PublishedInv(s: State) {
    && (!s.phase.Live? ==> s.published == [])
    && (forall i :: 0 <= i < |s.published| ==> s.published[i] in s.stored)
    && (forall i, j :: 0 <= i < j < |s.published| ==> s.published[i] != s.published[j])
  }

  ghost predicate Inv(s: State) { LogInv(s) && ProgressInv(s) && PublishedInv(s) }

  /** What a preparation saw: only versions below the one it found free. */
  ghost predicate PreparedInv(s: State) {
    forall p :: p in s.prepared ==>
      p.seen <= |s.accepted| && forall k :: 0 <= k < p.seen ==> s.accepted[k].version < p.version
  }

  lemma StepKeepsPrepared(s: State, e: Event)
    requires Inv(s) && PreparedInv(s)
    ensures PreparedInv(Step(s, e))
  {
    StepGrows(s, e);
    var s' := Step(s, e);
    forall p | p in s'.prepared
      ensures p.seen <= |s'.accepted| && forall k :: 0 <= k < p.seen ==> s'.accepted[k].version < p.version
    {
      if p !in s.prepared {
        assert s'.accepted == s.accepted && p.seen == |s.accepted|;
        forall k | 0 <= k < p.seen ensures s.accepted[k].version < p.version {
          assert s.accepted[k].version in Versions(s.accepted);
        }
      }
    }
  }

  lemma VersionsSnoc(accepted: seq<Entry>, e: Entry)
    ensures Versions(accepted + [e]) == Versions(accepted) + {e.version}
  {
    var b := accepted + [e];
    assert forall k :: 0 <= k < |accepted| ==> b[k] == accepted[k];
    assert b[|accepted|] == e;
    forall v | v in Versions(accepted) + {e.version} ensures v in Versions(b) {
      if v in Versions(accepted) {
        var k :| 0 <= k < |accepted| && accepted[k].version == v;
        assert b[k].version == v;
      }
    }
  }

  lemma InsertKeepsInv(s: State, e: Event)
    requires Inv(s) && e.Insert?
    ensures Inv(Step(s, e))
  {
    var p, s' := ProgressOf(s, e.client), Step(s, e);
    if p.Checked? && e.ok && AboveLatest(s, p.version) {
      var entry := Entry(e.client, p.version);
      VersionsSnoc(s.accepted, entry);
      forall k | 0 <= k < |s.accepted| ensures s.accepted[k].version < p.version {
        assert s.accepted[k].version in Versions(s.accepted);
      }
      assert s'.accepted[|s.accepted|] == entry;
      forall d | d in s'.progress && s'.progress[d].Inserted? && d != e.client
        ensures Entry(d, s'.progress[d].version) in s'.accepted
      {
        assert Entry(d, s.progress[d].version) in s.accepted;
      }
    }
  }

  lemma {:induction false} WinnersDiffer(accepted: seq<Entry>, c: Client, d: Client, v: int)
    requires Increasing(accepted) && Entry(c, v) in accepted && Entry(d, v) in accepted
    ensures c == d
  {
    var i :| 0 <= i < |accepted| && accepted[i] == Entry(c, v);
    var j :| 0 <= j < |accepted| && accepted[j] == Entry(d, v);
    if i < j {
      assert accepted[i].version < accepted[j].version;
    } else if j < i {
      assert accepted[j].version < accepted[i].version;
    }
  }

  lemma PublishKeepsInv(s: State, e: Event)
    requires Inv(s) && e.Publish?
    ensures Inv(Step(s, e))
  {
    var p := ProgressOf(s, e.client);
    if p.Inserted? && e.ok {
      forall d | d in s.progress && s.progress[d].Inserted? && d != e.client ensures s.progress[d].version != p.version {
        OthersDiffer(s.accepted, d, e.client, s.progress[d].version, p.version);
      }
    }
  }

  lemma OthersDiffer(accepted: seq<Entry>, c: Client, d: Client, v: int, w: int)
    requires Increasing(accepted) && Entry(c, v) in accepted && Entry(d, w) in accepted && c != d
    ensures v != w
  {
    if v == w {
      WinnersDiffer(accepted, c, d, v);
    }
  }

  lemma CreationKeepsInv(s: State, e: Event)
    requires Inv(s) && (e.CreateRow? || e.CreateKeys? || e.CreateUsers?)
    ensures Inv(Step(s, e))
  {
    if e.CreateKeys? && s.phase.RowInserted? {
      VersionsSnoc([], Entry(s.creator, 0));
      assert s.accepted + [Entry(s.creator, 0)] == [] + [Entry(s.creator, 0)];
      assert Versions([]) == {};
    }
    if s.phase.KeysInserted? {
      assert s.accepted[0].version in Versions(s.accepted);
    }
  }

  lemma StepKeepsInv(s: State, e: Event)
    requires Inv(s)
    ensures Inv(Step(s, e))
  {
    match e
    case Insert(_, _) => InsertKeepsInv(s, e);
    case Publish(_, _) => PublishKeepsInv(s, e);
    case Prepare(_, _) =>
    case Check(_, _, _, _) => CheckKeepsInv(s, e);
    case _ => CreationKeepsInv(s, e);
  }

  lemma CheckKeepsInv(s: State, e: Event)
    requires Inv(s) && e.Check?
    ensures Inv(Step(s, e))
  {}

  lemma StepGrows(s: State, e: Event)
    requires Inv(s)
    ensures s.accepted <= Step(s, e).accepted && s.published <= Step(s, e).published
    ensures s.phase.Live? ==> Step(s, e).phase.Live? && s.stored.Keys <= Step(s, e).stored.Keys
  {}

  // ---------------------------------------------------------------- every run

  lemma {:induction false} RunKeepsInv(events: seq<Event>)
    ensures Inv(Run(Start(), events))
  {
    if events != [] {
      var init := events[..|events| - 1];
      RunKeepsInv(init);
      StepKeepsInv(Run(Start(), init), events[|events| - 1]);
    }
  }

  /** Under every interleaving of creations, preparations and uploads: accepted versions
      strictly increase, so each version is won by at most one client however many were told it
      was free; every switch message names a version that is stored, and no version is
      announced twice; stored keys have one of the two known modes. */
  lemma RotationOverRuns(events: seq<Event>)
    ensures var s := Run(Start(), events);
            && Increasing(s.accepted)
            && (forall c, d, v :: Entry(c, v) in s.accepted && Entry(d, v) in s.accepted ==> c == d)
            && (forall i :: 0 <= i < |s.published| ==> s.published[i] in s.stored)
            && (forall i, j :: 0 <= i < j < |s.published| ==> s.published[i] != s.published[j])
            && (forall v :: v in s.stored ==> KnownMode(s.stored[v]))
  {
    RunKeepsInv(events);
    var s := Run(Start(), events);
    forall c, d, v | Entry(c, v) in s.accepted && Entry(d, v) in s.accepted ensures c == d {
      WinnersDiffer(s.accepted, c, d, v);
    }
  }

  lemma {:induction false} RunKeepsPrepared(events: seq<Event>)
    ensures PreparedInv(Run(Start(), events))
  {
    if events != [] {
      var init := events[..|events| - 1];
      RunKeepsInv(init);
      RunKeepsPrepared(init);
      StepKeepsPrepared(Run(Start(), init), events[|events| - 1]);
    }
  }

  /** A client that was told its version is free loses the compare-and-set if and only if a
      version at least as high was accepted after it was told. */
  lemma RefusedOnlyIfOvertaken(events: seq<Event>, p: Preparation, mode: int)
    requires var s := Run(Start(), events);
             p in s.prepared && ProgressOf(s, p.client) == Checked(p.version, mode)
    ensures var s := Run(Start(), events);
            ProgressOf(Step(s, Insert(p.client, true)), p.client) == Answered(false) <==>
            exists k :: p.seen <= k < |s.accepted| && s.accepted[k].version >= p.version
  {
    RunKeepsInv(events);
    RunKeepsPrepared(events);
    var s := Run(Start(), events);
    assert s.stored.Keys == Versions(s.accepted);
    if k :| p.seen <= k < |s.accepted| && s.accepted[k].version >= p.version {
      assert s.accepted[k].version in Versions(s.accepted);
      assert !AboveLatest(s, p.version);
    }
    if !AboveLatest(s, p.version) {
      var v :| v in s.stored && v >= p.version;
      var k :| 0 <= k < |s.accepted| && s.accepted[k].version == v;
      assert p.seen <= k;
    }
  }

  /** Nothing accepted, published or stored in a live group is taken back. */
  ghost predicate Extends(s: State, t: State) {
    && s.accepted <= t.accepted && s.published <= t.published
    && (s.phase.Live? ==> t.phase.Live? && s.stored.Keys <= t.stored.Keys)
  }

  lemma PrefixThrough<T>(a: seq<T>, b: seq<T>, c: seq<T>)
    requires a <= b && b <= c
    ensures a <= c
  {}

  lemma ExtendsThrough(s: State, m: State, t: State)
    requires Extends(s, m) && Extends(m, t)
    ensures Extends(s, t)
  {
    PrefixThrough(s.accepted, m.accepted, t.accepted);
    PrefixThrough(s.published, m.published, t.published);
  }

  lemma {:induction false} RunExtends(events: seq<Event>, more: seq<Event>)
    ensures Extends(Run(Start(), events), Run(Start(), events + more))
  {
    if more == [] {
      assert events + more == events;
    } else {
      var n := |more| - 1;
      var m := Run(Start(), events + more[..n]);
      assert (events + more)[..|events| + n] == events + more[..n];
      assert Run(Start(), events + more) == Step(m, more[n]);
      RunExtends(events, more[..n]);
      RunKeepsInv(events + more[..n]);
      StepGrows(m, more[n]);
      ExtendsThrough(Run(Start(), events), m, Step(m, more[n]));
    }
  }

  // ---------------------------------------------------------------- the announcements

  predicate Waits(s: State, e: Entry) {
    ProgressOf(s, e.client).Inserted? && ProgressOf(s, e.client).version == e.version
  }

  /** What became of the switch message of an accepted version: it was sent after fewer than
      three failures, or its winner is about to send it after so many, or three tries failed. */
  ghost predicate Accounted(s: State, e: Entry) {
    var tries := s.failed[e.version];
    if e.version in s.published then tries < RETRIES && !Waits(s, e)
    else if tries < RETRIES then ProgressOf(s, e.client) == Inserted(e.version, tries)
    else tries == RETRIES && !Waits(s, e)
  }

  ghost predicate AllAccounted(s: State) {
    s.phase.Live? ==> forall k :: 0 <= k < |s.accepted| ==> Accounted(s, s.accepted[k])
  }

  ghost predicate OnlyAcceptedFail(s: State) {
    forall v :: v in s.failed ==> s.phase.Live? && v in Versions(s.accepted)
  }

  /** A step leaves the account of a version alone, unless its winner sends or is made to. */
  lemma AccountKept(s: State, s': State, e: Entry)
    requires Accounted(s, e)
    requires s'.failed[e.version] == s.failed[e.version] && (e.version in s'.published <==> e.version in s.published)
    requires ProgressOf(s', e.client) == ProgressOf(s, e.client) || (!Waits(s, e) && !Waits(s', e))
    ensures Accounted(s', e)
  {}

  lemma PublishAccount(s: State, e: Event, x: Entry)
    requires Increasing(s.accepted) && e.Publish? && x in s.accepted && Accounted(s, x)
    requires ProgressOf(s, e.client).Inserted? ==> Entry(e.client, ProgressOf(s, e.client).version) in s.accepted
    ensures Accounted(Step(s, e), x)
  {
    var p := ProgressOf(s, e.client);
    if p.Inserted? {
      var own := Entry(e.client, p.version);
      SameVersionSameEntry(s.accepted, x, own);
      if x != own {
        AccountKept(s, Step(s, e), x);
      }
    }
  }

  lemma SameVersionSameEntry(accepted: seq<Entry>, x: Entry, y: Entry)
    requires Increasing(accepted) && x in accepted && y in accepted
    ensures x.version == y.version ==> x == y
  {
    if x.version == y.version {
      WinnersDiffer(accepted, x.client, y.client, x.version);
    }
  }

  lemma InsertAccount(s: State, e: Event, x: Entry)
    requires e.Insert? && Accounted(s, x) && x.version in s.stored
    ensures Accounted(Step(s, e), x)
  {
    if ProgressOf(s, e.client).Checked? {
      AccountKept(s, Step(s, e), x);
    }
  }

  lemma NewAccount(s: State, e: Event)
    requires Inv(s) && OnlyAcceptedFail(s) && s.phase.Live? && e.Insert? && Step(s, e).accepted != s.accepted
    ensures Accounted(Step(s, e), Entry(e.client, ProgressOf(s, e.client).version))
  {
    NewVersionUntouched(s, ProgressOf(s, e.client).version);
  }

  lemma NewVersionUntouched(s: State, version: int)
    requires Inv(s) && OnlyAcceptedFail(s) && s.phase.Live? && AboveLatest(s, version)
    ensures version !in s.published && s.failed[version] == 0
  {
    assert forall i :: 0 <= i < |s.published| ==> s.published[i] != version;
  }

  lemma OtherAccount(s: State, e: Event, x: Entry)
    requires !e.Insert? && !e.Publish? && s.phase.Live? && Accounted(s, x)
    ensures Accounted(Step(s, e), x)
  {
    AccountKept(s, Step(s, e), x);
  }

  lemma FirstAccount(s: State, e: Event)
    requires Inv(s) && OnlyAcceptedFail(s) && !s.phase.Live? && Step(s, e).phase.Live?
    ensures AllAccounted(Step(s, e))
  {
    var s' := Step(s, e);
    assert s.accepted == [Entry(s.creator, 0)] && s.failed[0] == 0;
    assert ProgressOf(s', s.creator) == Inserted(0, 0);
  }

  lemma StepKeepsAccounts(s: State, e: Event)
    requires Inv(s) && AllAccounted(s) && OnlyAcceptedFail(s)
    ensures AllAccounted(Step(s, e))
  {
    var s' := Step(s, e);
    if !s.phase.Live? {
      if s'.phase.Live? {
        FirstAccount(s, e);
      }
    } else {
      StepGrows(s, e);
      forall k | 0 <= k < |s'.accepted| ensures Accounted(s', s'.accepted[k]) {
        if k == |s.accepted| {
          NewAccount(s, e);
        } else {
          OldAccount(s, e, k);
        }
      }
    }
  }

  lemma OldAccount(s: State, e: Event, k: nat)
    requires Inv(s) && s.phase.Live? && k < |s.accepted| && Accounted(s, s.accepted[k])
    ensures Accounted(Step(s, e), s.accepted[k])
  {
    var x := s.accepted[k];
    assert x.version in Versions(s.accepted);
    match e
    case Insert(_, _) => InsertAccount(s, e, x);
    case Publish(_, _) => PublishAccount(s, e, x);
    case _ => OtherAccount(s, e, x);
  }

  lemma StepKeepsFailed(s: State, e: Event)
    requires Inv(s) && OnlyAcceptedFail(s)
    ensures OnlyAcceptedFail(Step(s, e))
  {
    var s' := Step(s, e);
    StepGrows(s, e);
    forall v | v in s'.failed ensures s'.phase.Live? && v in Versions(s'.accepted) {
      var k: nat := if v in s.failed then AcceptedAt(s.accepted, v) else AcceptedAt(s.accepted, ProgressOf(s, e.client).version);
      assert s'.accepted[k] == s.accepted[k];
    }
  }

  ghost function AcceptedAt(accepted: seq<Entry>, v: int): (k: nat)
    requires v in Versions(accepted)
    ensures k < |accepted| && accepted[k].version == v
  {
    var k :| 0 <= k < |accepted| && accepted[k].version == v;
    k
  }

  lemma {:induction false} RunKeepsAccount(events: seq<Event>)
    ensures AllAccounted(Run(Start(), events)) && OnlyAcceptedFail(Run(Start(), events))
  {
    if events != [] {
      var s, e := Run(Start(), events[..|events| - 1]), events[|events| - 1];
      RunKeepsInv(events[..|events| - 1]);
      RunKeepsAccount(events[..|events| - 1]);
      StepKeepsAccounts(s, e);
      StepKeepsFailed(s, e);
    }
  }

  /** Over every run of a live group each accepted version is accounted for: its switch message
      was sent, or its winner is still at it, or exactly three tries failed. So once nobody is
      at it and no try has failed, the versions announced are exactly those accepted. */
  lemma {:induction false} EveryVersionAnnounced(events: seq<Event>)
    ensures var s := Run(Start(), events);
            s.phase.Live? ==>
              && (forall k :: 0 <= k < |s.accepted| ==> Accounted(s, s.accepted[k]))
              && (s.failed == multiset{} && (forall c :: c in s.progress ==> !s.progress[c].Inserted?) ==>
                    (set v | v in s.published) == Versions(s.accepted))
  {
    RunKeepsInv(events);
    RunKeepsAccount(events);
    var s := Run(Start(), events);
    if s.phase.Live? && s.failed == multiset{} && (forall c :: c in s.progress ==> !s.progress[c].Inserted?) {
      forall v | v in Versions(s.accepted) ensures v in s.published {
        var k :| 0 <= k < |s.accepted| && s.accepted[k].version == v;
        assert Accounted(s, s.accepted[k]) && s.failed[v] == 0;
      }
      forall v | v in s.published ensures v in Versions(s.accepted) {
        var i :| 0 <= i < |s.published| && s.published[i] == v;
      }
    }
  }

  /** Failures are counted from failing tries only. */
  lemma {:induction false} NoFailureNoneFailed(events: seq<Event>)
    requires forall i :: 0 <= i < |events| ==> events[i].Publish? ==> events[i].ok
    ensures Run(Start(), events).failed == multiset{}
  {
    if events != [] {
      NoFailureNoneFailed(events[..|events| - 1]);
    }
  }

  // ---------------------------------------------------------------- where versions come from

  /** The client passed the checks of an upload of that version, as a member, with that mode. */
  ghost predicate Uploaded(events: seq<Event>, c: Client, version: int, mode: int) {
    Check(c, version, mode, true) in events
  }

  ghost predicate CheckedSource(s: State, events: seq<Event>) {
    forall c :: c in s.progress && s.progress[c].Checked? ==>
      Uploaded(events, c, s.progress[c].version, s.progress[c].mode)
  }

  /** A version came with the creation, in per-member mode, or from a member whose upload of it
      passed the checks, in the mode it was checked with. */
  ghost predicate Sourced(s: State, events: seq<Event>, e: Entry) {
    e.version in s.stored ==>
      || (e == Entry(s.creator, 0) && s.stored[0] == ONE_FOR_EACH)
      || Uploaded(events, e.client, e.version, s.stored[e.version])
  }

  ghost predicate AcceptedSource(s: State, events: seq<Event>) {
    forall k :: 0 <= k < |s.accepted| ==> Sourced(s, events, s.accepted[k])
  }

  /** That is so of every version accepted, in every run. */
  lemma {:induction false} StoredWasUploaded(events: seq<Event>)
    ensures CheckedSource(Run(Start(), events), events) && AcceptedSource(Run(Start(), events), events)
  {
    if events != [] {
      var init, e := events[..|events| - 1], events[|events| - 1];
      var s := Run(Start(), init);
      RunKeepsInv(init);
      StoredWasUploaded(init);
      assert events == init + [e];
      StepKeepsChecked(s, e, init);
      if e.Insert? {
        InsertKeepsSource(s, e, init);
      } else {
        OthersKeepSource(s, e, init);
      }
    }
  }

  lemma StepKeepsChecked(s: State, e: Event, init: seq<Event>)
    requires CheckedSource(s, init)
    ensures CheckedSource(Step(s, e), init + [e])
  {
    assert e in init + [e] && forall x :: x in init ==> x in init + [e];
  }

  lemma InsertKeepsSource(s: State, e: Event, init: seq<Event>)
    requires Inv(s) && CheckedSource(s, init) && AcceptedSource(s, init) && e.Insert?
    ensures AcceptedSource(Step(s, e), init + [e])
  {
    var s' := Step(s, e);
    assert forall x :: x in init ==> x in init + [e];
    forall k | 0 <= k < |s.accepted| ensures Sourced(s', init + [e], s.accepted[k]) {
      assert Sourced(s, init, s.accepted[k]);
      assert s.accepted[k].version in Versions(s.accepted);
    }
  }

  lemma OthersKeepSource(s: State, e: Event, init: seq<Event>)
    requires Inv(s) && AcceptedSource(s, init) && !e.Insert?
    ensures AcceptedSource(Step(s, e), init + [e])
  {
    var s' := Step(s, e);
    assert forall x :: x in init ==> x in init + [e];
    forall k | 0 <= k < |s'.accepted| ensures Sourced(s', init + [e], s'.accepted[k]) {
      if k < |s.accepted| {
        assert Sourced(s, init, s.accepted[k]);
      }
    }
  }

  // ---------------------------------------------------------------- what each step does

  /** Nothing of this is idle: a creation whose calls succeed goes live with version 0 to be
      announced by its creator. */
  lemma CreationGoesLive(creator: Client, cleared: bool)
    ensures var s := Run(Start(), [CreateRow(creator, true), CreateKeys(true), CreateUsers(true, cleared)]);
            && s.phase.Live? && s.accepted == [Entry(creator, 0)] && s.stored == map[0 := ONE_FOR_EACH]
            && s.progress == map[creator := Inserted(0, 0)]
  {
    var es := [CreateRow(creator, true), CreateKeys(true), CreateUsers(true, cleared)];
    assert es[..3] == es && es[..2][..1] == es[..1] && es[..1][..0] == [];
    assert Run(Start(), es[..1]) == Step(Start(), es[0]);
    assert Run(Start(), es[..2]) == Step(Run(Start(), es[..1]), es[1]);
    assert Run(Start(), es) == Step(Run(Start(), es[..2]), es[2]);
  }

  /** In a live group a version is found free exactly when it is above all accepted ones; an
      upload passes the checks exactly when a member sends a known mode; the store accepts it
      exactly when the call succeeds and the version is still above all accepted ones; and a
      switch message that is sent names the version its client inserted. */
  lemma {:induction false} StepsOfUploads(events: seq<Event>, c: Client, version: int, mode: int, flag: bool)
    requires Run(Start(), events).phase.Live?
    ensures var s := Run(Start(), events);
            var free := forall k :: 0 <= k < |s.accepted| ==> s.accepted[k].version < version;
            && (Step(s, Prepare(c, version)).prepared ==
                  if free then s.prepared + {Preparation(c, version, |s.accepted|)} else s.prepared)
            && (ProgressOf(s, c).Idle? || ProgressOf(s, c).Answered? ==>
                  ProgressOf(Step(s, Check(c, version, mode, flag)), c) ==
                  if flag && KnownMode(mode) then Checked(version, mode) else Answered(false))
            && (ProgressOf(s, c) == Checked(version, mode) ==>
                  var t := Step(s, Insert(c, flag));
                  if flag && free
                  then t.accepted == s.accepted + [Entry(c, version)] && ProgressOf(t, c) == Inserted(version, 0)
                  else t.accepted == s.accepted && t.stored == s.stored && ProgressOf(t, c) == Answered(false))
            && (ProgressOf(s, c).Inserted? && ProgressOf(s, c).version == version ==>
                  Step(s, Publish(c, true)).published == s.published + [version])
  {
    RunKeepsInv(events);
    var s := Run(Start(), events);
    assert s.stored.Keys == Versions(s.accepted);
    FreeIsAbove(s, version);
  }

  lemma FreeIsAbove(s: State, version: int)
    requires s.stored.Keys == Versions(s.accepted)
    ensures AboveLatest(s, version) <==> forall k :: 0 <= k < |s.accepted| ==> s.accepted[k].version < version
  {
    if AboveLatest(s, version) {
      forall k | 0 <= k < |s.accepted| ensures s.accepted[k].version < version {
        assert s.accepted[k].version in Versions(s.accepted);
      }
    }
  }

  // ---------------------------------------------------------------- continuations

  /** Nothing is taken back: an announced version stays stored and an accepted one accepted,
      in place, in every continuation of a run. */
  lemma AnnouncedForGood(events: seq<Event>, more: seq<Event>, i: nat)
    requires i < |Run(Start(), events).published|
    ensures var s, t := Run(Start(), events), Run(Start(), events + more);
            s.accepted <= t.accepted && s.published <= t.published && s.published[i] in t.stored
  {
    RunKeepsInv(events);
    RunExtends(events, more);
    assert Run(Start(), events).phase.Live?;
  }
}
