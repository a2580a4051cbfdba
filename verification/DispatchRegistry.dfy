/** The dispatcher registry of `src/dispatcher/dispatch_manager.cpp` under interleaved
    `subscribe`, `unsubscribe` and `kick`: one step per critical section of the registry's
    mutex, and one for the notification each operation sends after leaving it. */
module DispatchRegistry {
  import opened Wrappers

  type Address = string
  type Identity = nat
  type Thread = nat

  const UINT64_MAX: nat := 0xffff_ffff_ffff_ffff

  // ---------------------------------------------------------------- critical sections

  function Lookup(m: map<Address, Identity>, a: Address): Option<Identity> {
    if a in m then Some(m[a]) else None
  }

  /** Whether a deletion that carries `id` removes the dispatcher registered at `a`. */
  predicate Matches(m: map<Address, Identity>, a: Address, id: nat) {
    a in m && (id == UINT64_MAX || id == m[a])
  }

  /** The map and the mutex-guarded operations on it. A dispatcher is its identity. */
  class Registry {
    var dispatchers: map<Address, Identity>

    constructor ()
      ensures dispatchers == map[]
    {
      dispatchers := map[];
    }

    method ReplaceDispatcher(a: Address, dispatcher: Identity) returns (old_: Option<Identity>)
      modifies this
      ensures old_ == Lookup(old(dispatchers), a)
      ensures dispatchers == old(dispatchers)[a := dispatcher]
    {
      old_ := None;
      if a in dispatchers {
        old_ := Some(dispatchers[a]);
      }
      dispatchers := dispatchers[a := dispatcher];
    }

    method DelDispatcher(a: Address, id: nat) returns (gone: Option<Identity>)
      modifies this
      ensures if Matches(old(dispatchers), a, id)
              then gone == Some(old(dispatchers)[a]) && dispatchers == old(dispatchers) - {a}
              else gone == None && dispatchers == old(dispatchers)
    {
      if a !in dispatchers {
        return None;
      }
      var dispatcher := dispatchers[a];
      if id != UINT64_MAX && id != dispatcher {
        return None;
      }
      dispatchers := dispatchers - {a};
      return Some(dispatcher);
    }
  }

  // ---------------------------------------------------------------- interleavings

  /** `onDispatchUnsubscribed(kicking)` received by a dispatcher. */
  datatype Notice = Notice(dispatcher: Identity, kicking: bool)

  /** `home`: the address each dispatcher was made for. `owed`: the notice a thread has still
      to deliver, between its critical section and its return. */
  datatype State = State(dispatchers: map<Address, Identity>, home: map<Identity, Address>,
                         owed: map<Thread, Notice>, delivered: seq<Notice>)

  datatype Event =
    | Subscribe(thread: Thread, address: Address, identity: Identity)
    | Unsubscribe(thread: Thread, address: Address, identity: nat)
    | Kick(thread: Thread, address: Address)
    | Deliver(thread: Thread)

  function Start(): State { State(map[], map[], map[], []) }

  function Owe(s: State, t: Thread, d: Option<Identity>, kicking: bool): State {
    match d
    case None => s
    case Some(id) => s.(owed := s.owed[t := Notice(id, kicking)])
  }

  /** A new dispatcher's identity is its address in memory: never the wildcard, and distinct
      from those of all dispatchers made before. */
  predicate FreshIdentity(s: State, id: Identity) {
    id < UINT64_MAX && id !in s.home
  }

  function Step(s: State, e: Event): State {
    match e
    case Subscribe(t, a, id) =>
      if t in s.owed || !FreshIdentity(s, id) then s
      else Owe(s.(dispatchers := s.dispatchers[a := id], home := s.home[id := a]),
               t, Lookup(s.dispatchers, a), true)
    case Unsubscribe(t, a, id) =>
      if t in s.owed || !Matches(s.dispatchers, a, id) then s
      else Owe(s.(dispatchers := s.dispatchers - {a}), t, Lookup(s.dispatchers, a), false)
    case Kick(t, a) =>
      if t in s.owed || !Matches(s.dispatchers, a, UINT64_MAX) then s
      else Owe(s.(dispatchers := s.dispatchers - {a}), t, Lookup(s.dispatchers, a), true)
    case Deliver(t) =>
      if t !in s.owed then s
      else s.(delivered := s.delivered + [s.owed[t]], owed := s.owed - {t})
  }

  function Run(events: seq<Event>): State {
    if events == [] then Start() else Step(Run(events[..|events| - 1]), events[|events| - 1])
  }

  // ---------------------------------------------------------------- conservation

  /** Where a dispatcher can be: registered, owed its notice by a thread, or notified. */
  function RegisteredCount(s: State, id: Identity): nat {
    if id in s.home && Lookup(s.dispatchers, s.home[id]) == Some(id) then 1 else 0
  }

  function OwedThreads(s: State, id: Identity): set<Thread> {
    set t | t in s.owed && s.owed[t].dispatcher == id
  }

  function OwedCount(s: State, id: Identity): nat { |OwedThreads(s, id)| }

  function DeliveredCount(delivered: seq<Notice>, id: Identity): nat {
    if delivered == [] then 0
    else
      DeliveredCount(delivered[..|delivered| - 1], id)
      + if delivered[|delivered| - 1].dispatcher == id then 1 else 0
  }

  function Total(s: State, id: Identity): nat {
    RegisteredCount(s, id) + OwedCount(s, id) + DeliveredCount(s.delivered, id)
  }

  /** Every registered dispatcher stands at its own address and no identity is the wildcard. */
  ghost predicate AtHome(s: State) {
    && (forall a :: a in s.dispatchers ==> s.dispatchers[a] in s.home && s.home[s.dispatchers[a]] == a)
    && (forall id :: id in s.home ==> id < UINT64_MAX)
  }

  ghost predicate Inv(s: State) {
    AtHome(s) && forall id :: Total(s, id) == if id in s.home then 1 else 0
  }

  lemma OweAdds(s: State, t: Thread, d: Option<Identity>, kicking: bool, id: Identity)
    requires t !in s.owed
    ensures OwedCount(Owe(s, t, d, kicking), id) == OwedCount(s, id) + if d == Some(id) then 1 else 0
  {
    var was, now := OwedThreads(s, id), OwedThreads(Owe(s, t, d, kicking), id);
    if d == Some(id) {
      forall u ensures u in now <==> u == t || u in was {}
      assert t !in was && now == was + {t};
    } else {
      forall u ensures u in now <==> u in was {}
      assert now == was;
    }
  }

  lemma DeliverMoves(s: State, t: Thread, id: Identity)
    requires t in s.owed
    ensures var s' := Step(s, Deliver(t));
            OwedCount(s', id) + DeliveredCount(s'.delivered, id) == OwedCount(s, id) + DeliveredCount(s.delivered, id)
  {
    var s' := Step(s, Deliver(t));
    assert OwedThreads(s', id) == OwedThreads(s, id) - {t};
    assert s'.delivered[..|s.delivered|] == s.delivered;
  }

  /** Taking out the dispatcher at `a` and owing it its notice. */
  lemma RemovalConserves(s: State, t: Thread, a: Address, kicking: bool, id: Identity)
    requires AtHome(s) && t !in s.owed && a in s.dispatchers
    ensures var s' := Owe(s.(dispatchers := s.dispatchers - {a}), t, Lookup(s.dispatchers, a), kicking);
            AtHome(s') && Total(s', id) == Total(s, id)
  {
    var s1 := s.(dispatchers := s.dispatchers - {a});
    OweAdds(s1, t, Lookup(s.dispatchers, a), kicking, id);
    assert OwedThreads(s1, id) == OwedThreads(s, id);
    assert RegisteredCount(s1, id) == RegisteredCount(s, id) - if s.dispatchers[a] == id then 1 else 0;
  }

  lemma SubscribeConserves(s: State, t: Thread, a: Address, i: Identity, id: Identity)
    requires AtHome(s) && t !in s.owed && FreshIdentity(s, i)
    ensures var s' := Step(s, Subscribe(t, a, i));
            AtHome(s') && Total(s', id) == Total(s, id) + if id == i then 1 else 0
  {
    var s1 := s.(dispatchers := s.dispatchers[a := i], home := s.home[i := a]);
    OweAdds(s1, t, Lookup(s.dispatchers, a), true, id);
    assert OwedThreads(s1, id) == OwedThreads(s, id);
    assert RegisteredCount(s1, id) == RegisteredCount(s, id) + (if id == i then 1 else 0)
                                      - if Lookup(s.dispatchers, a) == Some(id) then 1 else 0;
  }

  /** Subscribing makes one dispatcher; no other step makes, loses or doubles one. */
  lemma StepConserves(s: State, e: Event, id: Identity)
    requires AtHome(s)
    ensures AtHome(Step(s, e))
    ensures s.home.Keys <= Step(s, e).home.Keys
    ensures Total(Step(s, e), id) ==
            Total(s, id) + if id in Step(s, e).home && id !in s.home then 1 else 0
  {
    match e
    case Subscribe(t, a, i) =>
      if t !in s.owed && FreshIdentity(s, i) {
        SubscribeConserves(s, t, a, i, id);
      }
    case Unsubscribe(t, a, i) =>
      if t !in s.owed && Matches(s.dispatchers, a, i) {
        RemovalConserves(s, t, a, false, id);
      }
    case Kick(t, a) =>
      if t !in s.owed && Matches(s.dispatchers, a, UINT64_MAX) {
        RemovalConserves(s, t, a, true, id);
      }
    case Deliver(t) =>
      if t in s.owed {
        DeliverMoves(s, t, id);
      }
  }

  lemma {:induction false} RunKeepsInv(events: seq<Event>)
    ensures Inv(Run(events))
  {
    if events == [] {
      forall id ensures Total(Start(), id) == 0 {
        assert OwedThreads(Start(), id) == {};
      }
    } else {
      var s, e := Run(events[..|events| - 1]), events[|events| - 1];
      RunKeepsInv(events[..|events| - 1]);
      forall id ensures Total(Step(s, e), id) == if id in Step(s, e).home then 1 else 0 {
        StepConserves(s, e, id);
      }
      StepConserves(s, e, 0);
    }
  }

  /** In every interleaving a dispatcher ever made is in exactly one place: still registered
      at its own address, or gone with its notice owed by exactly one thread, or notified
      exactly once. */
  lemma NotifiedExactlyOnce(events: seq<Event>, id: Identity)
    ensures var s := Run(events);
            && DeliveredCount(s.delivered, id) <= 1
            && (id in s.home ==>
                  (RegisteredCount(s, id) == 1 <==> OwedCount(s, id) + DeliveredCount(s.delivered, id) == 0))
            && (id in s.home && s.owed == map[] && RegisteredCount(s, id) == 0 ==>
                  DeliveredCount(s.delivered, id) == 1)
  {
    RunKeepsInv(events);
    var s := Run(events);
    assert Total(s, id) <= 1;
    if s.owed == map[] {
      assert OwedThreads(s, id) == {};
    }
  }

  /** An unsubscribe removes the dispatcher registered at its address if and only if it
      carries that dispatcher's identity or the wildcard. In particular one carrying the
      identity of an older dispatcher leaves the newer one registered and unnotified. */
  lemma StaleUnsubscribeHarmless(events: seq<Event>, t: Thread, a: Address, stale: Identity, current: Identity)
    requires var s := Run(events); t !in s.owed && Lookup(s.dispatchers, a) == Some(current)
    ensures var s := Run(events); var s' := Run(events + [Unsubscribe(t, a, stale)]);
            && (Lookup(s'.dispatchers, a) != Some(current) <==> stale == current || stale == UINT64_MAX)
            && (stale in s.home && stale != current ==> s' == s)
  {
    RunKeepsInv(events);
    var e := Unsubscribe(t, a, stale);
    assert (events + [e])[..|events|] == events;
    assert Run(events + [e]) == Step(Run(events), e);
  }

  // ---------------------------------------------------------------- what each call does

  /** In every state reached, a thread with nothing left to deliver: a subscription registers
      its fresh dispatcher and owes the one it displaced a notice of being kicked; an
      unsubscription that matches, and a kick, empty the address and owe its dispatcher a
      notice, of a kick only in the latter case; no other address is touched. */
  lemma CallEffects(events: seq<Event>, t: Thread, a: Address, id: Identity)
    requires t !in Run(events).owed
    ensures var s := Run(events);
            var was := Lookup(s.dispatchers, a);
            && (FreshIdentity(s, id) ==>
                  var s' := Step(s, Subscribe(t, a, id));
                  && Lookup(s'.dispatchers, a) == Some(id) && Owes(s, s', t, was, true) && SameElsewhere(s, s', a))
            && (was.Some? && (id == was.value || id == UINT64_MAX) ==>
                  var s' := Step(s, Unsubscribe(t, a, id));
                  && Lookup(s'.dispatchers, a) == None && Owes(s, s', t, was, false) && SameElsewhere(s, s', a))
            && (var s' := Step(s, Kick(t, a));
                && Lookup(s'.dispatchers, a) == None && Owes(s, s', t, was, true) && SameElsewhere(s, s', a))
  {
    RunKeepsInv(events);
  }

  predicate Owes(s: State, s': State, t: Thread, was: Option<Identity>, kicking: bool) {
    && s'.delivered == s.delivered
    && s'.owed == if was.None? then s.owed else s.owed[t := Notice(was.value, kicking)]
  }

  ghost predicate SameElsewhere(s: State, s': State, a: Address) {
    forall b :: b != a ==> Lookup(s'.dispatchers, b) == Lookup(s.dispatchers, b)
  }

  /** A dispatcher told that it was not kicked was unsubscribed, by its identity or by the
      wildcard; one told that it was, was displaced at its address or kicked there. */
  ghost predicate Explained(s: State, events: seq<Event>, n: Notice) {
    && n.dispatcher in s.home
    && var a := s.home[n.dispatcher];
       if n.kicking
       then exists i :: 0 <= i < |events| && ((events[i].Subscribe? || events[i].Kick?) && events[i].address == a)
       else exists i :: 0 <= i < |events| && events[i].Unsubscribe? && events[i].address == a
                        && (events[i].identity == n.dispatcher || events[i].identity == UINT64_MAX)
  }

  ghost predicate AllExplained(s: State, events: seq<Event>) {
    && (forall t :: t in s.owed ==> Explained(s, events, s.owed[t]))
    && (forall i :: 0 <= i < |s.delivered| ==> Explained(s, events, s.delivered[i]))
  }

  lemma StillExplained(s: State, s': State, events: seq<Event>, e: Event, n: Notice)
    requires Explained(s, events, n) && n.dispatcher in s'.home && s'.home[n.dispatcher] == s.home[n.dispatcher]
    ensures Explained(s', events + [e], n)
  {
    var all := events + [e];
    assert forall i :: 0 <= i < |events| ==> all[i] == events[i];
    if n.kicking {
      var i :| 0 <= i < |events| && ((events[i].Subscribe? || events[i].Kick?) && events[i].address == s.home[n.dispatcher]);
      assert all[i] == events[i];
    } else {
      var i :| 0 <= i < |events| && events[i].Unsubscribe? && events[i].address == s.home[n.dispatcher]
               && (events[i].identity == n.dispatcher || events[i].identity == UINT64_MAX);
      assert all[i] == events[i];
    }
  }

  lemma StepExplains(s: State, events: seq<Event>, e: Event)
    requires AtHome(s) && AllExplained(s, events)
    ensures AllExplained(Step(s, e), events + [e])
  {
    var s', all := Step(s, e), events + [e];
    assert all[|events|] == e;
    forall n | Explained(s, events, n) ensures Explained(s', all, n) {
      StillExplained(s, s', events, e, n);
    }
    forall t | t in s'.owed ensures Explained(s', all, s'.owed[t]) {
      if t in s.owed && s'.owed[t] == s.owed[t] {
        assert Explained(s, events, s.owed[t]);
      } else {
        assert s'.owed[t].dispatcher == s.dispatchers[e.address];
      }
    }
    forall i | 0 <= i < |s'.delivered| ensures Explained(s', all, s'.delivered[i]) {
      if i < |s.delivered| {
        assert Explained(s, events, s.delivered[i]);
      } else {
        assert Explained(s, events, s.owed[e.thread]);
      }
    }
  }

  lemma {:induction false} NoticesTellWhy(events: seq<Event>)
    ensures AllExplained(Run(events), events)
  {
    if events != [] {
      var init, e := events[..|events| - 1], events[|events| - 1];
      RunKeepsInv(init);
      NoticesTellWhy(init);
      StepExplains(Run(init), init, e);
      assert events == init + [e];
    }
  }
}
