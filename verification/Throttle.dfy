/** The quota throttle of `metrics_sdk/src/throttle_control.cpp`: callers subtract their size
    from a quota and are admitted while it stays non-negative; a refused caller waits and
    subtracts again at every wakeup, whatever caused it; a timer thread refills. */
module Throttle {
  type Thread = nat
  datatype Kind = Read | Write

  /** One quota with what happened since its last refill: the level it was refilled to, the
      sizes admitted, whether somebody was refused, and the subtractions made. */
  datatype Gauge = Gauge(level: int, quota: int, admitted: nat, refused: bool, attempts: nat)

  const MAX_SIZE: nat := 0xffff_ffff

  /** One pass of the retry loop, under the mutex. */
  function Attempt(g: Gauge, n: nat): Gauge {
    var quota := g.quota - n;
    if quota >= 0 then g.(quota := quota, admitted := g.admitted + n, attempts := g.attempts + 1)
    else g.(quota := quota, refused := true, attempts := g.attempts + 1)
  }

  predicate Admits(g: Gauge, n: nat) { g.quota - n >= 0 }

  function Refilled(threshold: int): Gauge { Gauge(threshold, threshold, 0, false, 0) }

  datatype Waiting = Waiting(kind: Kind, size: nat)

  /** `waiting`: the callers blocked in the wait, with what they ask for. */
  datatype State = State(read: Gauge, write: Gauge, waiting: map<Thread, Waiting>)

  datatype Event =
    | Request(thread: Thread, kind: Kind, size: nat)
    | Wake(thread: Thread)
    | Refill

  datatype Thresholds = Thresholds(read: int, write: int)

  /** Both quotas are zero until the timer thread starts. */
  function Start(): State { State(Refilled(0), Refilled(0), map[]) }

  function GaugeOf(s: State, kind: Kind): Gauge {
    if kind.Read? then s.read else s.write
  }

  function Try(s: State, t: Thread, kind: Kind, n: nat): State {
    var g := GaugeOf(s, kind);
    var s1 := if kind.Read? then s.(read := Attempt(g, n)) else s.(write := Attempt(g, n));
    if Admits(g, n) then s1.(waiting := s1.waiting - {t})
    else s1.(waiting := s1.waiting[t := Waiting(kind, n)])
  }

  function Step(s: State, th: Thresholds, e: Event): State {
    match e
    case Request(t, kind, n) => if t in s.waiting || n > MAX_SIZE then s else Try(s, t, kind, n)
    case Wake(t) => if t in s.waiting then Try(s, t, s.waiting[t].kind, s.waiting[t].size) else s
    case Refill => s.(read := Refilled(th.read), write := Refilled(th.write))
  }

  function Run(th: Thresholds, events: seq<Event>): State {
    if events == [] then Start() else Step(Run(th, events[..|events| - 1]), th, events[|events| - 1])
  }

  // ---------------------------------------------------------------- what a gauge keeps

  ghost predicate GaugeInv(g: Gauge) {
    && (g.refused ==> g.quota < 0)
    && (!g.refused ==> g.quota == g.level - g.admitted)
    && (g.admitted > 0 ==> g.admitted <= g.level)
    && g.level - MAX_SIZE * g.attempts <= g.quota <= g.level
  }

  ghost predicate Inv(s: State) {
    && GaugeInv(s.read) && GaugeInv(s.write)
    && forall t :: t in s.waiting ==> s.waiting[t].size <= MAX_SIZE
  }

  lemma AttemptKeeps(g: Gauge, n: nat)
    requires GaugeInv(g) && n <= MAX_SIZE
    ensures GaugeInv(Attempt(g, n))
    ensures g.refused ==> !Admits(g, n) && Attempt(g, n).admitted == g.admitted && Attempt(g, n).refused
  {
    assert MAX_SIZE * (g.attempts + 1) == MAX_SIZE * g.attempts + MAX_SIZE;
  }

  lemma {:induction false} RunKeepsInv(th: Thresholds, events: seq<Event>)
    ensures Inv(Run(th, events))
  {
    if events != [] {
      RunKeepsInv(th, events[..|events| - 1]);
      StepKeepsInv(Run(th, events[..|events| - 1]), th, events[|events| - 1]);
    }
  }

  lemma StepKeepsInv(s: State, th: Thresholds, e: Event)
    requires Inv(s)
    ensures Inv(Step(s, th, e))
  {
    match e
    case Request(t, kind, n) => if n <= MAX_SIZE { AttemptKeeps(GaugeOf(s, kind), n); }
    case Wake(t) => if t in s.waiting { AttemptKeeps(GaugeOf(s, s.waiting[t].kind), s.waiting[t].size); }
    case Refill =>
  }

  predicate LevelOf(th: Thresholds, kind: Kind, level: int) {
    level == 0 || level == if kind.Read? then th.read else th.write
  }

  lemma {:induction false} RunLevels(th: Thresholds, events: seq<Event>, kind: Kind)
    ensures LevelOf(th, kind, GaugeOf(Run(th, events), kind).level)
  {
    if events != [] {
      RunLevels(th, events[..|events| - 1], kind);
    }
  }

  /** For any threads, wakeups and refills: the sizes admitted since the last refill, or since
      the start, never exceed the threshold, and nothing is admitted under a threshold that is not positive. */
  lemma AdmittedBounded(th: Thresholds, events: seq<Event>, kind: Kind)
    ensures var threshold := if kind.Read? then th.read else th.write;
            GaugeOf(Run(th, events), kind).admitted <= if threshold > 0 then threshold else 0
  {
    RunKeepsInv(th, events);
    RunLevels(th, events, kind);
  }

  ghost predicate NoRefill(events: seq<Event>) {
    forall i :: 0 <= i < |events| ==> !events[i].Refill?
  }

  /** After one refusal nothing more is admitted, not even a request of size zero, until the
      next refill. */
  lemma {:induction false} RefusalIsFinal(th: Thresholds, events: seq<Event>, more: seq<Event>, kind: Kind)
    requires GaugeOf(Run(th, events), kind).refused && NoRefill(more)
    ensures var before, after := GaugeOf(Run(th, events), kind), GaugeOf(Run(th, events + more), kind);
            after.refused && after.admitted == before.admitted
  {
    if more == [] {
      assert events + more == events;
    } else {
      var n := |more| - 1;
      assert (events + more)[..|events| + n] == events + more[..n];
      RefusalIsFinal(th, events, more[..n], kind);
      RunKeepsInv(th, events + more[..n]);
      StepStaysRefused(Run(th, events + more[..n]), th, more[n], kind);
    }
  }

  lemma StepStaysRefused(s: State, th: Thresholds, e: Event, kind: Kind)
    requires Inv(s) && GaugeOf(s, kind).refused && !e.Refill?
    ensures var after := GaugeOf(Step(s, th, e), kind); after.refused && after.admitted == GaugeOf(s, kind).admitted
  {
    match e
    case Request(t, k, size) => if size <= MAX_SIZE { AttemptKeeps(GaugeOf(s, k), size); }
    case Wake(t) => if t in s.waiting { AttemptKeeps(GaugeOf(s, s.waiting[t].kind), s.waiting[t].size); }
  }

  /** The sizes that still fit: none once somebody was refused. */
  predicate Fits(g: Gauge, n: nat) { !g.refused && n <= g.level - g.admitted }

  /** What one pass of a caller leads to: admission exactly when its size still fits, else
      waiting and a refused period. */
  ghost predicate Served(s: State, s': State, t: Thread, kind: Kind, n: nat) {
    var g, g' := GaugeOf(s, kind), GaugeOf(s', kind);
    && g'.level == g.level
    && (Fits(g, n) ==> g'.admitted == g.admitted + n && !g'.refused && s'.waiting == s.waiting - {t})
    && (!Fits(g, n) ==> g'.admitted == g.admitted && g'.refused && s'.waiting == s.waiting[t := Waiting(kind, n)])
    && GaugeOf(s', if kind.Read? then Write else Read) == GaugeOf(s, if kind.Read? then Write else Read)
  }

  /** In every run: a caller, at its request and at every wakeup, is admitted exactly when its
      size fits in what the period has left, and a refill opens a period at the threshold. */
  lemma {:induction false} AdmittedExactly(th: Thresholds, events: seq<Event>, t: Thread, kind: Kind, n: nat)
    ensures var s := Run(th, events);
            && (t !in s.waiting && n <= MAX_SIZE ==> Served(s, Step(s, th, Request(t, kind, n)), t, kind, n))
            && (t in s.waiting ==>
                  Served(s, Step(s, th, Wake(t)), t, s.waiting[t].kind, s.waiting[t].size))
            && (var s' := Step(s, th, Refill);
                && s'.waiting == s.waiting && GaugeOf(s', kind).level == (if kind.Read? then th.read else th.write)
                && forall m: nat :: Fits(GaugeOf(s', kind), m) <==> m <= GaugeOf(s', kind).level)
  {
    RunKeepsInv(th, events);
  }

  /** A request above the threshold is never admitted: its caller waits for ever. */
  lemma OversizeNeverAdmitted(th: Thresholds, events: seq<Event>, kind: Kind, n: nat)
    requires n > 0 && n > if kind.Read? then th.read else th.write
    ensures !Admits(GaugeOf(Run(th, events), kind), n)
  {
    RunKeepsInv(th, events);
    RunLevels(th, events, kind);
  }

  /** The 64-bit quota cannot overflow within 2^31 subtractions of one refill period. */
  lemma QuotaFits(th: Thresholds, events: seq<Event>, kind: Kind)
    requires 0 <= th.read < 0x8000_0000_0000_0000 && 0 <= th.write < 0x8000_0000_0000_0000
    requires GaugeOf(Run(th, events), kind).attempts <= 0x8000_0000
    ensures -0x8000_0000_0000_0000 <= GaugeOf(Run(th, events), kind).quota < 0x8000_0000_0000_0000
  {
    RunKeepsInv(th, events);
    RunLevels(th, events, kind);
    var g := GaugeOf(Run(th, events), kind);
    assert MAX_SIZE * g.attempts <= MAX_SIZE * 0x8000_0000;
  }

  // ---------------------------------------------------------------- the loop of one caller

  class ThrottleControl {
    var quota: int

    constructor ()
      ensures quota == 0
    {
      quota := 0;
    }

    /** `checkReadQuota` and `checkWriteQuota`: `found[i]` is the quota as other threads left it
        when wait `i` returns. The caller is admitted at the first quota that holds its size,
        each earlier one having been lowered by it; otherwise it is still waiting. */
    method CheckQuota(n: nat, found: seq<int>) returns (admitted: bool, waits: nat)
      modifies this
      ensures waits <= |found|
      ensures var seen := [old(quota)] + found;
              && quota == seen[waits] - n
              && (forall i :: 0 <= i < waits ==> seen[i] < n)
              && (if admitted then seen[waits] >= n else waits == |found| && seen[waits] < n)
    {
      waits := 0;
      while true
        invariant waits <= |found|
        invariant quota == ([old(quota)] + found)[waits]
        invariant forall i :: 0 <= i < waits ==> ([old(quota)] + found)[i] < n
        decreases |found| - waits
      {
        quota := quota - n;
        if quota >= 0 {
          return true, waits;
        }
        if waits == |found| {
          return false, waits;
        }
        quota := found[waits];
        waits := waits + 1;
      }
    }
  }
}
