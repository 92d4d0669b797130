/** What one CPU's pair of scheduling queues does over time, as a history of events. */
module RunQueue {

  /** For the threads on the active and on the passive queue the list they are on, named by its priority, the
      threads that may run at that moment, and the priority every thread has. */
  datatype Snap = Snap(active: map<nat, nat>, passive: map<nat, nat>, ready: set<nat>, prio: map<nat, nat>)

  datatype Event =
    | Got(thread: nat, prio: nat)   // `next` returned the thread, from the list of this priority
    | Nothing                       // `next` found no thread that may run
    | Put(thread: nat)              // a thread was put on the passive queue
    | Change                        // the states of threads changed

  ghost predicate Flips(s: Snap, e: Event) {
    e.Nothing? || (e.Got? && s.active.Keys !! s.ready)
  }

  ghost predicate AtMost(lists: map<nat, nat>, prio: nat) {
    forall u {:trigger lists[u]} :: u in lists ==> lists[u] <= prio
  }

  /** Threads that are on both maps are on the same list. */
  ghost predicate SameLists(lists: map<nat, nat>, lists': map<nat, nat>) {
    forall u {:trigger lists'[u]} :: u in lists && u in lists' ==> lists'[u] == lists[u]
  }

  /** These threads are on the list of the priority they have. */
  ghost predicate ByPriority(lists: map<nat, nat>, prio: map<nat, nat>, moved: set<nat>) {
    forall u {:trigger lists[u]} :: u in moved && u in lists ==> u in prio && lists[u] == prio[u]
  }

  /** One event. `next` looks through the active queue and, only if nothing there may run, through
      the passive one; what it passes over lands on the then passive queue, on the list of its priority.
      The thread it returns was on the list it is recorded with, and no thread left on that queue is on a
      list above. */
  ghost predicate Step(s: Snap, e: Event, s': Snap) {
    match e
    case Change =>
      s'.active == s.active && s'.passive == s.passive
    case Put(t) =>
      && t !in s.active && t !in s.passive && t in s.prio && s'.prio == s.prio
      && s'.active == s.active && s'.passive == s.passive[t := s.prio[t]]
    case Nothing =>
      && s.active.Keys + s.passive.Keys !! s.ready && s'.prio == s.prio
      && s'.active == map[] && s'.passive.Keys == s.active.Keys + s.passive.Keys
      && ByPriority(s'.passive, s.prio, s'.passive.Keys)
    case Got(t, prio) =>
      var flip := s.active.Keys !! s.ready;
      var queue := if flip then s.passive else s.active;
      var from := if flip then s.active.Keys + s.passive.Keys else s.active.Keys;
      var other := if flip then {} else s.passive.Keys;
      var over := from - s'.active.Keys - {t};
      && t in queue && queue[t] == prio && t in s.ready && s'.prio == s.prio
      && s'.active.Keys <= from - {t} && SameLists(queue, s'.active) && AtMost(s'.active, prio)
      && over !! s.ready
      && s'.passive.Keys == other + over && ByPriority(s'.passive, s.prio, over)
      && (if flip then ByPriority(s'.active, s.prio, s.active.Keys) else SameLists(s.passive, s'.passive))
  }

  /** A history: `snaps[i + 1]` is what event `i` made of `snaps[i]`. */
  ghost predicate History(snaps: seq<Snap>, events: seq<Event>) {
    && |snaps| == |events| + 1
    && forall i :: 0 <= i < |events| ==> Step(snaps[i], events[i], snaps[i + 1])
  }

  ghost predicate SameQueues(s: Snap, s': Snap) {
    s'.active == s.active && s'.passive == s.passive
  }

  datatype Log = Log(snaps: seq<Snap>, events: seq<Event>)

  /** The history starts with empty queues and ends with queues like those of `now`. */
  ghost predicate UpTo(log: Log, now: Snap) {
    && History(log.snaps, log.events)
    && log.snaps[0].active == log.snaps[0].passive == map[]
    && SameQueues(log.snaps[|log.snaps| - 1], now)
  }

  /** The log with an event: first what may have changed since the last one, then the event. */
  function Recorded(log: Log, s: Snap, e: Event, s': Snap): Log {
    Log(log.snaps + [s] + [s'], log.events + [Change] + [e])
  }

  lemma Record(log: Log, s: Snap, e: Event, s': Snap)
    requires UpTo(log, s) && Step(s, e, s')
    ensures UpTo(Recorded(log, s, e, s'), s')
  {
  }

  /** In every history that starts with empty queues the two queues are disjoint throughout. */
  lemma {:induction false} AlwaysDisjoint(snaps: seq<Snap>, events: seq<Event>, i: nat)
    requires History(snaps, events) && snaps[0].active == snaps[0].passive == map[] && i < |snaps|
    ensures Disjoint(snaps[i])
    decreases i
  {
    if i > 0 {
      AlwaysDisjoint(snaps, events, i - 1);
      assert Step(snaps[i - 1], events[i - 1], snaps[i]);
    }
  }

  ghost predicate Disjoint(s: Snap) { s.active.Keys !! s.passive.Keys }

  ghost predicate Returns(e: Event, u: nat) { e.Got? && e.thread == u }

  /** How often `next` returned `u`. */
  ghost function Returned(events: seq<Event>, u: nat): nat {
    if events == [] then 0
    else (if Returns(events[0], u) then 1 else 0) + Returned(events[1..], u)
  }

  /** How often `u` can still be returned before the waiting thread `x` is. */
  ghost function Ahead(s: Snap, x: nat, u: nat): nat {
    (if x in s.active then 0 else 1) + (if u in s.active then 1 else 0)
  }

  ghost predicate Waits(s: Snap, x: nat) {
    (x in s.active || x in s.passive) && x in s.ready
  }

  lemma AheadShrinks(s: Snap, e: Event, s': Snap, x: nat, u: nat)
    requires Step(s, e, s') && Disjoint(s) && Waits(s, x) && !Returns(e, x) && u != x
    ensures (x in s'.active || x in s'.passive) && Disjoint(s')
    ensures Ahead(s', x, u) + (if Returns(e, u) then 1 else 0) <= Ahead(s, x, u)
  {
  }

  /** Bounded bypass: while `x` waits and may run, no other thread is returned more than twice. */
  lemma {:induction false} BoundedBypass(snaps: seq<Snap>, events: seq<Event>, x: nat, u: nat)
    requires History(snaps, events) && Disjoint(snaps[0]) && u != x
    requires forall i :: 0 <= i < |events| ==> Waits(snaps[i], x) && !Returns(events[i], x)
    ensures Returned(events, u) <= Ahead(snaps[0], x, u) <= 2
    decreases |events|
  {
    if events != [] {
      assert Waits(snaps[0], x);
      AheadShrinks(snaps[0], events[0], snaps[1], x, u);
      var snaps', events' := snaps[1..], events[1..];
      forall i | 0 <= i < |events'|
        ensures Waits(snaps'[i], x) && !Returns(events'[i], x) && Step(snaps'[i], events'[i], snaps'[i + 1])
      {
        assert Waits(snaps[i + 1], x);
        assert Step(snaps[i + 1], events[i + 1], snaps[i + 2]);
      }
      BoundedBypass(snaps', events', x, u);
    }
  }

  /** Between two flips, threads come from lists of non-increasing priority: the list a thread is taken from,
      and every list that still has threads, is no higher than the one served before. */
  lemma {:induction false} PriorityOrder(snaps: seq<Snap>, events: seq<Event>, i: nat, j: nat)
    requires History(snaps, events) && i < j < |events| && events[i].Got? && events[j].Got?
    requires forall k :: i < k <= j ==> !Flips(snaps[k], events[k])
    ensures AtMost(snaps[j].active, events[i].prio) && events[j].thread in snaps[j].active
    ensures snaps[j].active[events[j].thread] == events[j].prio <= events[i].prio
  {
    LevelFalls(snaps, events, i, j);
    assert Step(snaps[j], events[j], snaps[j + 1]);
    assert snaps[j].active[events[j].thread] == events[j].prio;
  }

  /** Until the next flip every thread on the active queue stays on a list no higher than the last one served. */
  lemma {:induction false} LevelFalls(snaps: seq<Snap>, events: seq<Event>, i: nat, j: nat)
    requires History(snaps, events) && i < j < |events| && events[i].Got?
    requires forall k :: i < k < j ==> !Flips(snaps[k], events[k])
    ensures AtMost(snaps[j].active, events[i].prio)
    decreases j
  {
    assert Step(snaps[j - 1], events[j - 1], snaps[j]);
    if i + 1 < j {
      LevelFalls(snaps, events, i, j - 1);
      assert !Flips(snaps[j - 1], events[j - 1]);
      forall u | u in snaps[j].active ensures snaps[j].active[u] <= events[i].prio {
        assert u in snaps[j - 1].active && snaps[j].active[u] == snaps[j - 1].active[u];
      }
    }
  }

  // ---- Priorities ----

  /** If `u` is queued, it is on the list of the priority it has. */
  ghost predicate Honest(s: Snap, u: nat) {
    && (u in s.active ==> u in s.prio && s.active[u] == s.prio[u])
    && (u in s.passive ==> u in s.prio && s.passive[u] == s.prio[u])
  }

  ghost predicate SamePrio(s: Snap, s': Snap, u: nat) {
    u in s.prio && u in s'.prio && s'.prio[u] == s.prio[u]
  }

  lemma HonestStep(s: Snap, e: Event, s': Snap, u: nat)
    requires Step(s, e, s') && Honest(s, u) && SamePrio(s, s', u)
    ensures Honest(s', u)
  {
  }

  /** A thread whose priority does not change is on the list of its priority, as long as it is queued. */
  lemma {:induction false} StaysHonest(snaps: seq<Snap>, events: seq<Event>, u: nat, i: nat, j: nat)
    requires History(snaps, events) && i <= j < |snaps| && Honest(snaps[i], u)
    requires forall k {:trigger snaps[k]} :: i <= k <= j ==> SamePrio(snaps[i], snaps[k], u)
    ensures Honest(snaps[j], u)
    decreases j
  {
    if i < j {
      StaysHonest(snaps, events, u, i, j - 1);
      assert Step(snaps[j - 1], events[j - 1], snaps[j]);
      assert SamePrio(snaps[i], snaps[j - 1], u) && SamePrio(snaps[i], snaps[j], u);
      HonestStep(snaps[j - 1], events[j - 1], snaps[j], u);
    }
  }

  /** Priorities are served: the thread `next` returns has a priority no lower than any thread it leaves on that
      queue, among threads whose priority did not change since a moment when they were not queued. */
  lemma PriorityServed(snaps: seq<Snap>, events: seq<Event>, t: nat, i: nat, u: nat, k: nat, j: nat)
    requires History(snaps, events) && i <= j < |events| && k <= j && Returns(events[j], t) && u in snaps[j + 1].active
    requires t !in snaps[i].active && t !in snaps[i].passive && u !in snaps[k].active && u !in snaps[k].passive
    requires forall l {:trigger snaps[l]} :: i <= l <= j ==> SamePrio(snaps[i], snaps[l], t)
    requires forall l {:trigger snaps[l]} :: k <= l <= j ==> SamePrio(snaps[k], snaps[l], u)
    ensures t in snaps[j].prio && u in snaps[j].prio && snaps[j].prio[u] <= snaps[j].prio[t]
  {
    assert Step(snaps[j], events[j], snaps[j + 1]);
    StaysHonest(snaps, events, t, i, j);
    StaysHonest(snaps, events, u, k, j);
    assert SamePrio(snaps[i], snaps[j], t) && SamePrio(snaps[k], snaps[j], u);
    HonestStep(snaps[j], events[j], snaps[j + 1], u);
  }
}
