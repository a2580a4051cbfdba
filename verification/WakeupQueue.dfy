/** The queues that notify only when they were empty: `ConcurrentQueue` of
    `metrics_sdk/include/concurrent_queue.h`, whose consumers pop one entry at a time, and
    the message queue of `src/dispatcher/dispatch_manager.cpp`, whose consumer swaps it out whole. */
module WakeupQueue {
  // ---------------------------------------------------------------- critical sections

  class ConcurrentQueue<T> {
    /** Zero means no bound. */
    const size: nat
    var queue: seq<T>

    constructor (size: nat)
      ensures this.size == size && queue == []
    {
      this.size := size;
      queue := [];
    }

    /** `notify` tells whether the call signals the condition variable. */
    method TryEnqueue(entry: T) returns (ok: bool, notify: bool)
      modifies this
      ensures ok == (size == 0 || |old(queue)| < size)
      ensures queue == if ok then old(queue) + [entry] else old(queue)
      ensures notify == (ok && old(queue) == [])
    {
      if size != 0 && |queue| >= size {
        return false, false;
      }
      notify := |queue| == 0;
      queue := queue + [entry];
      return true, notify;
    }

    method Enqueue(entry: T) returns (notify: bool)
      modifies this
      ensures queue == old(queue) + [entry] && notify == (old(queue) == [])
    {
      notify := |queue| == 0;
      queue := queue + [entry];
    }

    method TryPop(blank: T) returns (ok: bool, entry: T)
      modifies this
      ensures ok == (old(queue) != [])
      ensures if ok then [entry] + queue == old(queue) else queue == old(queue)
    {
      if |queue| == 0 {
        return false, blank;
      }
      entry := queue[0];
      queue := queue[1..];
      return true, entry;
    }
  }

  // ---------------------------------------------------------------- interleavings

  type Consumer = nat
  datatype Take = One | All

  /** `asleep`: consumers blocked in the wait. `woken`: notified, or awake spuriously, and on
      their way back to the mutex. All others are running. */
  datatype State<T> = State(queue: seq<T>, asleep: set<Consumer>, woken: set<Consumer>,
                            enqueued: seq<T>, consumed: seq<T>)

  datatype Event<T> =
    | Enqueue(entries: seq<T>, wakes: Consumer)
    | Arrive(consumer: Consumer)
    | Spurious(consumer: Consumer)
    | Resume(consumer: Consumer)
    | TryPop

  function Start<T>(): State<T> { State([], {}, {}, [], []) }

  /** `notify_one`: some sleeper, if there is one. */
  function Notify<T>(s: State<T>, c: Consumer): State<T>
    requires s.asleep == {} || c in s.asleep
  {
    if s.asleep == {} then s else s.(asleep := s.asleep - {c}, woken := s.woken + {c})
  }

  function Consume<T>(s: State<T>, take: Take): State<T>
    requires s.queue != []
  {
    match take
    case One => s.(queue := s.queue[1..], consumed := s.consumed + [s.queue[0]])
    case All => s.(queue := [], consumed := s.consumed + s.queue)
  }

  /** The predicate of the wait under the mutex: sleep on an empty queue, else take. */
  function Enter<T>(s: State<T>, take: Take, c: Consumer): State<T> {
    if s.queue == [] then s.(asleep := s.asleep + {c}) else Consume(s, take)
  }

  /** One critical section, or one wakeup; an event that does not apply changes nothing. */
  function Step<T>(s: State<T>, take: Take, consumers: set<Consumer>, e: Event<T>): State<T> {
    match e
    case Enqueue(entries, c) =>
      var s1 := s.(queue := s.queue + entries, enqueued := s.enqueued + entries);
      if |s.queue| != 0 then s1
      else if s.asleep == {} || c in s.asleep then Notify(s1, c)
      else s
    case Arrive(c) =>
      if c !in consumers || c in s.asleep || c in s.woken then s else Enter(s, take, c)
    case Spurious(c) =>
      if c in s.asleep then s.(asleep := s.asleep - {c}, woken := s.woken + {c}) else s
    case Resume(c) =>
      if c in s.woken then Enter(s.(woken := s.woken - {c}), take, c) else s
    case TryPop =>
      if s.queue == [] then s else Consume(s, One)
  }

  function Run<T>(take: Take, consumers: set<Consumer>, events: seq<Event<T>>): State<T> {
    if events == [] then Start()
    else Step(Run(take, consumers, events[..|events| - 1]), take, consumers, events[|events| - 1])
  }

  /** A consumer that sleeps beside a non-empty queue has a wakeup on its way. */
  predicate NoLostWakeup<T>(s: State<T>) {
    s.queue != [] && s.asleep != {} ==> s.woken != {}
  }

  ghost predicate Sound<T>(s: State<T>, consumers: set<Consumer>) {
    && s.asleep <= consumers && s.woken <= consumers && s.asleep !! s.woken
    && s.consumed + s.queue == s.enqueued
  }

  lemma StepSound<T>(s: State<T>, take: Take, consumers: set<Consumer>, e: Event<T>)
    requires Sound(s, consumers)
    ensures Sound(Step(s, take, consumers, e), consumers)
  {
    if s.queue != [] {
      assert s.queue == [s.queue[0]] + s.queue[1..];
    }
    if e.Enqueue? {
      assert s.consumed + (s.queue + e.entries) == s.enqueued + e.entries;
    }
  }

  /** An enqueuing names a consumer to wake exactly when it has to. */
  predicate Wakes<T>(s: State<T>, c: Consumer) {
    s.queue != [] || s.asleep == {} || c in s.asleep
  }

  ghost predicate Takes<T>(s: State<T>, s': State<T>, take: Take, c: Consumer) {
    if s.queue == [] then c in s'.asleep && s'.queue == [] && s'.consumed == s.consumed
    else
      && c !in s'.asleep && c !in s'.woken
      && match take
         case One => s'.consumed == s.consumed + [s.queue[0]] && [s.queue[0]] + s'.queue == s.queue
         case All => s'.consumed == s.consumed + s.queue && s'.queue == []
  }

  /** In every run: an enqueuing appends its entries and, on an empty queue, wakes one sleeper; a
      consumer that arrives, or comes back from its wait, sleeps on an empty queue and else takes
      the front entry, or all of them. */
  lemma {:induction false} QueueSteps<T>(take: Take, consumers: set<Consumer>, events: seq<Event<T>>, entries: seq<T>,
                                         c: Consumer)
    ensures var s := Run(take, consumers, events);
            && (Wakes(s, c) ==>
                  var s' := Step(s, take, consumers, Enqueue(entries, c));
                  && s'.queue == s.queue + entries && s'.enqueued == s.enqueued + entries && s'.consumed == s.consumed
                  && (s.queue == [] && c in s.asleep ==> c in s'.woken && s'.asleep == s.asleep - {c}))
            && (c in consumers && c !in s.asleep && c !in s.woken ==>
                  Takes(s, Step(s, take, consumers, Arrive(c)), take, c))
            && (c in s.woken ==> Takes(s, Step(s, take, consumers, Resume(c)), take, c))
            && (var s' := Step(s, take, consumers, TryPop);
                if s.queue == [] then s' == s
                else s'.consumed == s.consumed + [s.queue[0]] && [s.queue[0]] + s'.queue == s.queue)
  {
    RunSound(take, consumers, events);
    var s := Run(take, consumers, events);
    if s.queue != [] {
      assert s.queue == [s.queue[0]] + s.queue[1..];
    }
  }

  lemma StepKeepsWakeup<T>(s: State<T>, take: Take, consumers: set<Consumer>, e: Event<T>)
    requires Sound(s, consumers) && NoLostWakeup(s) && (take.All? || |consumers| <= 1)
    ensures NoLostWakeup(Step(s, take, consumers, e))
  {
    if e.Resume? && e.consumer in s.woken && take.One? {
      assert {e.consumer} <= consumers;
      OnlyOne(consumers, e.consumer);
      assert s.asleep == {};
    }
  }

  lemma OnlyOne<T>(s: set<T>, x: T)
    requires x in s && |s| <= 1
    ensures s == {x}
  {
    assert s == {x} + (s - {x});
  }

  /** Nothing is lost, doubled or reordered: in every run the entries consumed, in order,
      followed by the queue are the entries enqueued. */
  lemma {:induction false} RunSound<T>(take: Take, consumers: set<Consumer>, events: seq<Event<T>>)
    ensures Sound(Run(take, consumers, events), consumers)
  {
    if events != [] {
      var init := events[..|events| - 1];
      RunSound(take, consumers, init);
      StepSound(Run(take, consumers, init), take, consumers, events[|events| - 1]);
    }
  }

  lemma {:induction false} WakeupsOverRuns<T>(take: Take, consumers: set<Consumer>, events: seq<Event<T>>)
    requires take.All? || |consumers| <= 1
    ensures NoLostWakeup(Run(take, consumers, events))
  {
    if events != [] {
      var init := events[..|events| - 1];
      WakeupsOverRuns(take, consumers, init);
      RunSound(take, consumers, init);
      StepKeepsWakeup(Run(take, consumers, init), take, consumers, events[|events| - 1]);
    }
  }

  /** The run that strands a second consumer of a queue popped one entry at a time: both
      sleep, two entries arrive, only the first wakes anybody, and its consumer takes one. */
  function StrandingRun<T>(c: Consumer, d: Consumer, x: T, y: T): seq<Event<T>> {
    [Arrive(c), Arrive(d), Enqueue([x], c), Enqueue([y], c), Resume(c)]
  }

  lemma SecondConsumerStranded<T>(consumers: set<Consumer>, c: Consumer, d: Consumer, x: T, y: T)
    requires c in consumers && d in consumers && c != d
    ensures !NoLostWakeup(Run(One, consumers, StrandingRun(c, d, x, y)))
  {
    var es := StrandingRun(c, d, x, y);
    assert es[..4][..3] == es[..3] && es[..3][..2] == es[..2] && es[..2][..1] == es[..1] && es[..1][..0] == es[..0];
    var s0: State<T> := Run(One, consumers, es[..0]);
    assert s0 == Start();
    var s1 := Run(One, consumers, es[..1]);
    assert s1 == Step(s0, One, consumers, es[0]);
    var s2 := Run(One, consumers, es[..2]);
    assert s2 == Step(s1, One, consumers, es[1]) && s2.asleep == {c, d};
    var s3 := Run(One, consumers, es[..3]);
    assert s3 == Step(s2, One, consumers, es[2]) && s3.asleep == {d} && s3.queue == [x];
    var s4 := Run(One, consumers, es[..4]);
    assert s4 == Step(s3, One, consumers, es[3]) && s4.asleep == {d} && s4.queue == [x, y];
    assert es == es[..5] && es[..5][..4] == es[..4];
    var s5 := Run(One, consumers, es);
    assert s5 == Step(s4, One, consumers, es[4]);
    assert s5.queue == [y] && s5.asleep == {d} && s5.woken == {};
  }

  /** Popping one entry at a time, no run loses a wakeup if and only if at most one consumer
      waits on the queue. */
  lemma WakeupsSafeExactly<T(!new)>(consumers: set<Consumer>, x: T)
    ensures (forall events: seq<Event<T>> :: NoLostWakeup(Run(One, consumers, events))) <==> |consumers| <= 1
  {
    if |consumers| <= 1 {
      forall events: seq<Event<T>> ensures NoLostWakeup(Run(One, consumers, events)) {
        WakeupsOverRuns(One, consumers, events);
      }
    } else {
      var c :| c in consumers;
      assert |consumers - {c}| > 0;
      var d :| d in consumers - {c};
      SecondConsumerStranded(consumers, c, d, x, x);
    }
  }
}
