/** Threads, the scheduling queues of every CPU and the migration of threads between CPUs.

    Every step of the machine runs on one CPU with interrupts off and is atomic here. Thread
    identifiers start at 1, so that 0 is the empty link. */
module Scheduler {
  import opened Collections
  import opened Chains
  import opened RunQueue

  const MAX_PRIO: nat := 15
  const U32: nat := 0x1_0000_0000

  datatype ThreadState = Running | Runnable | Paused | Waiting | Idle | Rebalanced

  type Priority = p: nat | p <= MAX_PRIO

  datatype Thread = Thread(state: ThreadState, priority: Priority, affinity: nat, rebalance: bool)

  /** One of the two queues of a CPU: `which` tells `active_queue` from `passive_queue`. */
  datatype QueueId = QueueId(cpu: nat, which: bool)

  /** A list of threads: one priority of a queue, or the rebalance queue of a CPU. */
  datatype Slot = Prio(q: QueueId, prio: Priority) | Moving(cpu: nat)

  /** Where a thread is. */
  datatype Loc = OnList(slot: Slot) | Current(cpu: nat) | IdleFor(cpu: nat) | InHand

  ghost predicate IsOn(loc: map<nat, Loc>, q: QueueId, t: nat) {
    t in loc && loc[t].OnList? && loc[t].slot.Prio? && loc[t].slot.q == q
  }

  ghost function On(loc: map<nat, Loc>, q: QueueId): set<nat> {
    set t | t in loc && IsOn(loc, q, t)
  }

  /** The list each thread of a queue is on. */
  ghost function Lists(loc: map<nat, Loc>, q: QueueId): (m: map<nat, nat>)
    ensures m.Keys == On(loc, q)
  {
    map t | t in loc && IsOn(loc, q, t) :: loc[t].slot.prio
  }

  predicate Eligible(s: ThreadState) { s.Runnable? || s.Rebalanced? }

  ghost function Ready(threads: map<nat, Thread>): set<nat> {
    set t | t in threads && Eligible(threads[t].state)
  }

  ghost function Prios(threads: map<nat, Thread>): map<nat, nat> {
    map t | t in threads :: threads[t].priority
  }

  ghost predicate HasLists(slots: set<Slot>, queues: set<QueueId>, cpus: nat) {
    && (forall c: nat, w {:trigger QueueId(c, w) in queues} :: QueueId(c, w) in queues <==> c < cpus)
    && (forall q, p: Priority {:trigger Prio(q, p) in slots} :: q in queues ==> Prio(q, p) in slots)
    && (forall c: nat {:trigger Moving(c) in slots} :: Moving(c) in slots <==> c < cpus)
  }

  /** The lists agree with `loc`: every list holds exactly the threads located on it. */
  ghost predicate Agree(lists: map<Slot, seq<nat>>, loc: map<nat, Loc>) {
    && 0 !in loc
    && (forall s, t :: s in lists ==> (t in lists[s] <==> t in loc && loc[t] == OnList(s)))
    && (forall t :: t in loc && loc[t].OnList? ==> loc[t].slot in lists)
  }

  /** Lists above the highest non-empty one are empty. */
  ghost predicate Capped(lists: map<Slot, seq<nat>>, highest: map<QueueId, Priority>) {
    forall q, p: Priority :: Prio(q, p) in lists && q in highest && p > highest[q] ==> lists[Prio(q, p)] == []
  }

  lemma AgreePush(lists: map<Slot, seq<nat>>, loc: map<nat, Loc>, s: Slot, t: nat)
    requires Agree(lists, loc) && s in lists && t in loc && loc[t] == InHand
    ensures Agree(lists[s := [t] + lists[s]], loc[t := OnList(s)])
    ensures forall u :: u in lists ==> t !in lists[u]
  {
  }

  lemma AgreePop(lists: map<Slot, seq<nat>>, loc: map<nat, Loc>, s: Slot)
    requires Agree(lists, loc) && s in lists && lists[s] != [] && Distinct(lists[s])
    ensures lists[s][0] in loc && loc[lists[s][0]] == OnList(s)
    ensures Agree(lists[s := lists[s][1..]], loc[lists[s][0] := InHand])
  {
  }

  /** The maps differ at `k` only. */
  ghost predicate SameBut<K, V>(m: map<K, V>, m': map<K, V>, k: K) {
    m'.Keys == m.Keys && forall j :: j in m && j != k ==> m'[j] == m[j]
  }

  lemma CappedPush(lists: map<Slot, seq<nat>>, highest: map<QueueId, Priority>, q: QueueId, p: Priority, t: nat)
    requires Capped(lists, highest) && Prio(q, p) in lists && q in highest
    ensures Capped(lists[Prio(q, p) := [t] + lists[Prio(q, p)]], highest[q := if highest[q] < p then p else highest[q]])
  {
  }

  lemma CappedPop(lists: map<Slot, seq<nat>>, highest: map<QueueId, Priority>, s: Slot)
    requires Capped(lists, highest) && s in lists && lists[s] != []
    ensures Capped(lists[s := lists[s][1..]], highest)
  {
  }

  lemma CappedLower(lists: map<Slot, seq<nat>>, highest: map<QueueId, Priority>, q: QueueId, p: Priority)
    requires Capped(lists, highest) && q in highest && p < MAX_PRIO && highest[q] == p + 1
    requires Prio(q, p + 1) in lists && lists[Prio(q, p + 1)] == []
    ensures Capped(lists, highest[q := p])
  {
  }

  /** Threads of a queue are on lists up to its highest one. */
  lemma CappedOn(lists: map<Slot, seq<nat>>, loc: map<nat, Loc>, highest: map<QueueId, Priority>, q: QueueId)
    requires Agree(lists, loc) && Capped(lists, highest) && q in highest
    ensures AtMost(Lists(loc, q), highest[q])
  {
    forall u | u in Lists(loc, q) ensures Lists(loc, q)[u] <= highest[q] {
      assert loc[u].slot in lists && u in lists[loc[u].slot];
    }
  }

  lemma NoneOn(lists: map<Slot, seq<nat>>, loc: map<nat, Loc>, highest: map<QueueId, Priority>, q: QueueId)
    requires Agree(lists, loc) && Capped(lists, highest) && q in highest && highest[q] == 0
    requires Prio(q, 0) in lists && lists[Prio(q, 0)] == []
    ensures On(loc, q) == {}
  {
  }

  /** Thread `u` stayed where it was, or was passed over: it may not run and went from `qa` to `qp`, on the list
      of its priority. */
  ghost predicate SiftedAt(loc: map<nat, Loc>, loc': map<nat, Loc>, qa: QueueId, qp: QueueId,
                           threads: map<nat, Thread>, u: nat)
    requires u in loc && u in loc'
  {
    || loc'[u] == loc[u]
    || (&& IsOn(loc, qa, u) && u !in Ready(threads)
        && u in threads && loc'[u] == OnList(Prio(qp, threads[u].priority)))
  }

  ghost predicate Sifted(loc: map<nat, Loc>, loc': map<nat, Loc>, qa: QueueId, qp: QueueId, threads: map<nat, Thread>,
                         t: nat) {
    && loc'.Keys == loc.Keys
    && forall u {:trigger SiftedAt(loc, loc', qa, qp, threads, u)} :: u in loc && u != t ==>
          SiftedAt(loc, loc', qa, qp, threads, u)
  }

  /** Passing over one more thread. */
  lemma SiftMore(loc: map<nat, Loc>, mid: map<nat, Loc>, loc': map<nat, Loc>, qa: QueueId, qp: QueueId,
                 threads: map<nat, Thread>, t: nat, p: Priority)
    requires Sifted(loc, mid, qa, qp, threads, 0) && qa != qp && IsOn(mid, qa, t) && t !in Ready(threads)
    requires t in threads && p == threads[t].priority && loc' == mid[t := InHand][t := OnList(Prio(qp, p))]
    ensures Sifted(loc, loc', qa, qp, threads, 0)
    ensures On(loc', qa) == On(mid, qa) - {t}
  {
    forall u | u in loc && u != 0 ensures SiftedAt(loc, loc', qa, qp, threads, u) {
      assert SiftedAt(loc, mid, qa, qp, threads, u);
    }
  }

  /** ... and then finding one that may run. */
  lemma SiftFound(loc: map<nat, Loc>, mid: map<nat, Loc>, qa: QueueId, qp: QueueId, threads: map<nat, Thread>, t: nat)
    requires Sifted(loc, mid, qa, qp, threads, 0) && qa != qp && IsOn(mid, qa, t) && 0 !in loc
    ensures Sifted(loc, mid[t := InHand], qa, qp, threads, t) && IsOn(loc, qa, t) && loc[t] == mid[t]
  {
    assert SiftedAt(loc, mid, qa, qp, threads, t);
    var loc' := mid[t := InHand];
    forall u | u in loc && u != t && u != 0 ensures SiftedAt(loc, loc', qa, qp, threads, u) {
      assert SiftedAt(loc, mid, qa, qp, threads, u);
    }
  }

  ghost function SnapFor(loc: map<nat, Loc>, threads: map<nat, Thread>, qa: QueueId, qp: QueueId): Snap {
    Snap(Lists(loc, qa), Lists(loc, qp), Ready(threads), Prios(threads))
  }

  /** Where the threads of the two queues are after a round of `get_next`. */
  lemma SiftSets(loc: map<nat, Loc>, loc': map<nat, Loc>, qa: QueueId, qp: QueueId, threads: map<nat, Thread>, t: nat)
    requires Sifted(loc, loc', qa, qp, threads, t) && qa != qp && 0 !in loc
    requires t != 0 ==> IsOn(loc, qa, t) && t in loc' && loc'[t] == InHand
    ensures On(loc', qa) <= On(loc, qa) - {t}
    ensures On(loc, qa) - On(loc', qa) - {t} !! Ready(threads)
    ensures On(loc', qp) == On(loc, qp) + (On(loc, qa) - On(loc', qa) - {t})
  {
    forall u | u in loc && u != t
      ensures IsOn(loc', qa, u) ==> IsOn(loc, qa, u)
      ensures IsOn(loc, qa, u) && !IsOn(loc', qa, u) ==> u !in Ready(threads) && IsOn(loc', qp, u)
      ensures IsOn(loc, qp, u) ==> IsOn(loc', qp, u)
      ensures IsOn(loc', qp, u) ==> IsOn(loc, qp, u) || (IsOn(loc, qa, u) && !IsOn(loc', qa, u))
    {
      assert SiftedAt(loc, loc', qa, qp, threads, u);
    }
  }

  /** A round of `get_next` leaves threads on their lists, apart from those it moves. */
  lemma SiftLists(loc: map<nat, Loc>, loc': map<nat, Loc>, qa: QueueId, qp: QueueId, threads: map<nat, Thread>, t: nat,
                  q: QueueId)
    requires Sifted(loc, loc', qa, qp, threads, t) && qa != qp && (q == qa || q == qp)
    requires t in loc' ==> loc'[t] == InHand
    ensures SameLists(Lists(loc, q), Lists(loc', q))
  {
    forall u | u in Lists(loc, q) && u in Lists(loc', q) ensures Lists(loc', q)[u] == Lists(loc, q)[u] {
      assert SiftedAt(loc, loc', qa, qp, threads, u);
    }
  }

  /** What a round of `get_next` moves to the other queue goes to the lists of their priorities. */
  lemma SiftOver(loc: map<nat, Loc>, loc': map<nat, Loc>, qa: QueueId, qp: QueueId, threads: map<nat, Thread>, t: nat)
    requires Sifted(loc, loc', qa, qp, threads, t) && qa != qp
    requires t in loc' ==> loc'[t] == InHand
    ensures ByPriority(Lists(loc', qp), Prios(threads), On(loc, qa))
  {
    forall u | u in On(loc, qa) && u in Lists(loc', qp)
      ensures u in Prios(threads) && Lists(loc', qp)[u] == Prios(threads)[u]
    {
      assert SiftedAt(loc, loc', qa, qp, threads, u);
    }
  }

  lemma SiftMine(loc: map<nat, Loc>, loc': map<nat, Loc>, qa: QueueId, qp: QueueId, threads: map<nat, Thread>, t: nat,
                 cpu: nat)
    requires Sifted(loc, loc', qa, qp, threads, t) && qa.cpu == qp.cpu == cpu
    ensures OnlyMine(loc, loc', cpu, t)
  {
    forall u | u in loc && u != t ensures MineAt(loc, loc', cpu, u) {
      assert SiftedAt(loc, loc', qa, qp, threads, u);
    }
  }

  lemma MineTwice(loc: map<nat, Loc>, mid: map<nat, Loc>, loc': map<nat, Loc>, cpu: nat, t: nat)
    requires OnlyMine(loc, mid, cpu, 0) && OnlyMine(mid, loc', cpu, t) && 0 !in loc
    ensures OnlyMine(loc, loc', cpu, t)
    ensures t in loc && Queued(mid[t], cpu) ==> Queued(loc[t], cpu)
  {
    forall u | u in loc && u != t ensures MineAt(loc, loc', cpu, u) {
      assert MineAt(loc, mid, cpu, u) && MineAt(mid, loc', cpu, u);
    }
    if t in loc { assert MineAt(loc, mid, cpu, t); }
  }

  /** `next` served from the active queue. */
  lemma NextActive(loc: map<nat, Loc>, loc': map<nat, Loc>, threads: map<nat, Thread>,
                   qa: QueueId, qp: QueueId, t: nat, p: Priority, e: Event)
    requires Sifted(loc, loc', qa, qp, threads, t) && qa != qp && 0 !in loc && t in Ready(threads)
    requires t in loc && loc[t] == OnList(Prio(qa, p)) && t in loc' && loc'[t] == InHand && t != 0
    requires AtMost(Lists(loc', qa), p) && e == Got(t, p)
    ensures Step(SnapFor(loc, threads, qa, qp), e, SnapFor(loc', threads, qa, qp))
  {
    SiftSets(loc, loc', qa, qp, threads, t);
    SiftLists(loc, loc', qa, qp, threads, t, qa);
    SiftLists(loc, loc', qa, qp, threads, t, qp);
    SiftOver(loc, loc', qa, qp, threads, t);
    assert t in On(loc, qa) && Lists(loc, qa)[t] == p;
  }

  /** `next` found nothing on the active queue, flipped, and then served from the other. */
  lemma NextFlipped(loc: map<nat, Loc>, mid: map<nat, Loc>, loc': map<nat, Loc>, threads: map<nat, Thread>,
                    qa: QueueId, qp: QueueId, t: nat, p: Priority, e: Event)
    requires e == if t == 0 then Nothing else Got(t, p)
    requires Sifted(loc, mid, qa, qp, threads, 0) && On(mid, qa) == {} && Sifted(mid, loc', qp, qa, threads, t)
    requires qa != qp && 0 !in loc
    requires t != 0 ==>
               t in mid && mid[t] == OnList(Prio(qp, p)) && t in loc' && loc'[t] == InHand && t in Ready(threads)
    requires t != 0 ==> AtMost(Lists(loc', qp), p)
    requires t == 0 ==> On(loc', qp) == {}
    ensures Step(SnapFor(loc, threads, qa, qp), e, SnapFor(loc', threads, qp, qa))
  {
    SiftSets(loc, mid, qa, qp, threads, 0);
    SiftSets(mid, loc', qp, qa, threads, t);
    assert 0 !in On(loc, qa) && 0 !in On(mid, qp);
    assert On(mid, qp) == On(loc, qa) + On(loc, qp);
    assert On(loc, qa) !! Ready(threads);
    SiftOver(mid, loc', qp, qa, threads, t);
    if t != 0 {
      assert t in On(mid, qp) && t !in On(loc, qa);
      SiftOver(loc, mid, qa, qp, threads, 0);
      OverTwice(loc, mid, loc', qa, qp, threads, t);
      SiftLists(loc, mid, qa, qp, threads, 0, qp);
      SiftLists(mid, loc', qp, qa, threads, t, qp);
      FlippedLists(loc, mid, loc', qp);
      assert Lists(mid, qp)[t] == p;
    }
  }

  /** What the first search moved, and the second left, is on the lists of their priorities. */
  lemma OverTwice(loc: map<nat, Loc>, mid: map<nat, Loc>, loc': map<nat, Loc>, qa: QueueId, qp: QueueId,
                  threads: map<nat, Thread>, t: nat)
    requires Sifted(mid, loc', qp, qa, threads, t) && qa != qp && (t in loc' ==> loc'[t] == InHand)
    requires ByPriority(Lists(mid, qp), Prios(threads), On(loc, qa)) && On(loc', qp) <= On(mid, qp)
    ensures ByPriority(Lists(loc', qp), Prios(threads), On(loc, qa))
  {
    SiftLists(mid, loc', qp, qa, threads, t, qp);
    forall u | u in On(loc, qa) && u in Lists(loc', qp)
      ensures u in Prios(threads) && Lists(loc', qp)[u] == Prios(threads)[u]
    {
      assert u in Lists(mid, qp) && Lists(loc', qp)[u] == Lists(mid, qp)[u];
    }
  }

  /** A thread that may run was not moved by the search through the other queue. */
  lemma SameInFlip(loc: map<nat, Loc>, mid: map<nat, Loc>, qa: QueueId, qp: QueueId, threads: map<nat, Thread>, t: nat)
    requires Sifted(loc, mid, qa, qp, threads, 0) && t in loc && t != 0 && t in Ready(threads)
    ensures mid[t] == loc[t]
  {
    assert SiftedAt(loc, mid, qa, qp, threads, t);
  }

  lemma FlippedLists(loc: map<nat, Loc>, mid: map<nat, Loc>, loc': map<nat, Loc>, q: QueueId)
    requires SameLists(Lists(loc, q), Lists(mid, q)) && SameLists(Lists(mid, q), Lists(loc', q))
    requires On(loc, q) <= On(mid, q) && On(loc', q) <= On(mid, q)
    ensures SameLists(Lists(loc, q), Lists(loc', q))
  {
    forall u | u in Lists(loc, q) && u in Lists(loc', q) ensures Lists(loc', q)[u] == Lists(loc, q)[u] {
      assert u in Lists(mid, q) && Lists(mid, q)[u] == Lists(loc, q)[u];
    }
  }

  // ---- Placement ----

  /** Everything about threads except the lists they are on. */
  datatype World = World(threads: map<nat, Thread>, loc: map<nat, Loc>, current: seq<nat>, idle: seq<nat>,
                         signal: seq<bool>, idleOf: seq<nat>, nextId: nat)

  /** A thread is the current thread or the idle thread of the CPU it is placed on; only idle threads
      are in state Idle; a thread waiting to migrate has been announced to its new CPU. */
  ghost predicate ThreadAt(w: World, hand: nat, t: nat)
    requires t in w.loc && t in w.threads
  {
    && (w.loc[t].InHand? ==> t == hand)
    && (w.loc[t].IdleFor? ==> w.loc[t].cpu < |w.idleOf| && w.idleOf[w.loc[t].cpu] == t)
    && (w.loc[t].Current? ==> w.loc[t].cpu < |w.current| && w.current[w.loc[t].cpu] == t)
    && (w.loc[t].OnList? && w.loc[t].slot.Moving? ==> w.loc[t].slot.cpu < |w.signal| && w.signal[w.loc[t].slot.cpu])
    && (w.threads[t].state.Idle? <==> w.loc[t].IdleFor?)
    && (w.threads[t].state.Rebalanced? ==> w.threads[t].rebalance)
    && w.threads[t].affinity < |w.current| && t < w.nextId
  }

  /** A CPU has an idle thread and a current thread, and its idle slot is filled unless the idle
      thread is current. */
  ghost predicate CpuAt(w: World, c: nat)
    requires c < |w.current| == |w.idle| == |w.idleOf|
  {
    && w.idleOf[c] in w.loc && w.loc[w.idleOf[c]] == IdleFor(c)
    && w.current[c] in w.loc && (w.loc[w.current[c]] == Current(c) || w.current[c] == w.idleOf[c])
    && (w.idle[c] == w.idleOf[c] || (w.idle[c] == 0 && w.current[c] == w.idleOf[c]))
  }

  /** Every thread and every CPU is in order; at most `hand` is on its way from one place to another. */
  ghost predicate Placed(w: World, hand: nat) {
    && w.threads.Keys == w.loc.Keys && |w.current| == |w.idle| == |w.idleOf| == |w.signal| && w.nextId > 0
    && (forall t {:trigger ThreadAt(w, hand, t)} :: t in w.loc ==> ThreadAt(w, hand, t))
    && (forall c {:trigger CpuAt(w, c)} :: 0 <= c < |w.current| ==> CpuAt(w, c))
  }

  ghost predicate Queued(l: Loc, cpu: nat) {
    l.OnList? && l.slot.Prio? && l.slot.q.cpu == cpu
  }

  /** The list `put_thread_in_passive` puts a thread on: that of its priority, on the passive queue. */
  ghost function Home(threads: map<nat, Thread>, active: seq<bool>, cpu: nat, t: nat): Loc
    requires t in threads && cpu < |active|
  {
    OnList(Prio(QueueId(cpu, !active[cpu]), threads[t].priority))
  }

  ghost predicate MineAt(loc: map<nat, Loc>, loc': map<nat, Loc>, cpu: nat, u: nat)
    requires u in loc && u in loc'
  {
    loc'[u] == loc[u] || (Queued(loc[u], cpu) && Queued(loc'[u], cpu))
  }

  /** Threads other than `t` stayed where they were, or on the queues of `cpu`. */
  ghost predicate OnlyMine(loc: map<nat, Loc>, loc': map<nat, Loc>, cpu: nat, t: nat) {
    && loc'.Keys == loc.Keys
    && forall u {:trigger MineAt(loc, loc', cpu, u)} :: u in loc && u != t ==> MineAt(loc, loc', cpu, u)
  }

  /** Moving queued threads of one CPU, and taking `t` from its queue or putting it there. */
  lemma PlacedMine(w: World, loc': map<nat, Loc>, cpu: nat, t: nat, hand: nat, hand': nat)
    requires Placed(w, hand) && OnlyMine(w.loc, loc', cpu, t) && (hand == 0 || hand == t) && 0 !in w.loc
    requires t in w.loc ==> Loose(w.loc[t], cpu) && Loose(loc'[t], cpu) && (loc'[t].InHand? ==> t == hand')
    ensures Placed(w.(loc := loc'), hand')
  {
    var w' := w.(loc := loc');
    forall u | u in loc' ensures ThreadAt(w', hand', u) {
      assert ThreadAt(w, hand, u);
      if u != t { assert MineAt(w.loc, loc', cpu, u); }
    }
    forall c | 0 <= c < |w.current| ensures CpuAt(w', c) {
      assert CpuAt(w, c);
      if w.current[c] != t { assert MineAt(w.loc, loc', cpu, w.current[c]); }
      if w.idleOf[c] != t { assert MineAt(w.loc, loc', cpu, w.idleOf[c]); }
    }
  }

  ghost predicate Loose(l: Loc, cpu: nat) { Queued(l, cpu) || l.InHand? }

  /** The history of every CPU leads up to its queues as they are. */
  ghost predicate Logged(logs: seq<Log>, loc: map<nat, Loc>, threads: map<nat, Thread>, active: seq<bool>) {
    && |logs| == |active|
    && forall c {:trigger LoggedAt(logs, loc, threads, active, c)} :: 0 <= c < |active| ==>
         LoggedAt(logs, loc, threads, active, c)
  }

  ghost predicate LoggedAt(logs: seq<Log>, loc: map<nat, Loc>, threads: map<nat, Thread>, active: seq<bool>, c: nat)
    requires c < |active| == |logs|
  {
    UpTo(logs[c], SnapFor(loc, threads, QueueId(c, active[c]), QueueId(c, !active[c])))
  }

  /** What is kept for every CPU is unchanged for the others. */
  ghost predicate OthersKept<T>(s: seq<T>, s': seq<T>, cpu: nat) {
    |s'| == |s| && (forall c {:trigger s'[c]} :: 0 <= c < |s| && c != cpu ==> s'[c] == s[c])
  }

  lemma OtherQueues(loc: map<nat, Loc>, loc': map<nat, Loc>, cpu: nat, t: nat, q: QueueId)
    requires OnlyMine(loc, loc', cpu, t) && q.cpu != cpu
    requires t in loc ==> !IsOn(loc, q, t) && !IsOn(loc', q, t)
    ensures Lists(loc', q) == Lists(loc, q)
  {
    forall u | u in loc
      ensures (IsOn(loc', q, u) <==> IsOn(loc, q, u)) && (IsOn(loc, q, u) ==> loc'[u] == loc[u])
    {
      if u != t { assert MineAt(loc, loc', cpu, u); }
    }
  }

  /** Recording an event on the queues of one CPU. */
  lemma LogEvent(logs: seq<Log>, loc: map<nat, Loc>, loc': map<nat, Loc>, threads: map<nat, Thread>,
                 active: seq<bool>, active': seq<bool>, cpu: nat, t: nat, s: Snap, e: Event, s': Snap)
    requires Logged(logs, loc, threads, active) && cpu < |active|
    requires OnlyMine(loc, loc', cpu, t) && OthersKept(active, active', cpu)
    requires t in loc ==> Loose(loc[t], cpu) && Loose(loc'[t], cpu)
    requires s == SnapFor(loc, threads, QueueId(cpu, active[cpu]), QueueId(cpu, !active[cpu]))
    requires s' == SnapFor(loc', threads, QueueId(cpu, active'[cpu]), QueueId(cpu, !active'[cpu]))
    requires Step(s, e, s')
    ensures Logged(logs[cpu := Recorded(logs[cpu], s, e, s')], loc', threads, active')
  {
    assert LoggedAt(logs, loc, threads, active, cpu);
    Record(logs[cpu], s, e, s');
    var logs' := logs[cpu := Recorded(logs[cpu], s, e, s')];
    forall c | 0 <= c < |active| ensures LoggedAt(logs', loc', threads, active', c) {
      if c != cpu {
        assert LoggedAt(logs, loc, threads, active, c);
        OtherQueues(loc, loc', cpu, t, QueueId(c, true));
        OtherQueues(loc, loc', cpu, t, QueueId(c, false));
      }
    }
  }

  /** Putting a thread on the passive queue. */
  lemma PutStep(loc: map<nat, Loc>, loc': map<nat, Loc>, threads: map<nat, Thread>, qa: QueueId, qp: QueueId, t: nat,
                p: Priority)
    requires t in loc && loc[t] == InHand && loc' == loc[t := OnList(Prio(qp, p))]
    requires qa != qp && qa.cpu == qp.cpu && t in threads && p == threads[t].priority
    ensures Step(SnapFor(loc, threads, qa, qp), Put(t), SnapFor(loc', threads, qa, qp))
    ensures OnlyMine(loc, loc', qa.cpu, t)
  {
    assert Lists(loc', qa) == Lists(loc, qa);
    assert Lists(loc', qp) == Lists(loc, qp)[t := p];
  }

  /** After `next` found nothing, nothing queued on the CPU may run. */
  lemma NothingReady(loc: map<nat, Loc>, loc': map<nat, Loc>, threads: map<nat, Thread>, cpu: nat, w: bool, w': bool)
    requires Step(SnapFor(loc, threads, QueueId(cpu, w), QueueId(cpu, !w)), Nothing,
                  SnapFor(loc', threads, QueueId(cpu, w'), QueueId(cpu, !w')))
    ensures NoneReady(loc', threads, cpu, 0)
  {
    forall u | u in loc' && u in threads && u != 0 && Queued(loc'[u], cpu)
      ensures !threads[u].state.Runnable? && !threads[u].state.Rebalanced?
    {
      var q := loc'[u].slot.q;
      assert q == QueueId(cpu, w') || q == QueueId(cpu, !w');
      assert u in On(loc', q);
    }
  }

  lemma AgreeMove(lists: map<Slot, seq<nat>>, loc: map<nat, Loc>, t: nat, l: Loc)
    requires Agree(lists, loc) && t in loc && !loc[t].OnList? && !l.OnList?
    ensures Agree(lists, loc[t := l])
  {
  }

  ghost predicate Scheduled(l: Loc) { l.OnList? && l.slot.Prio? }

  lemma ListsKept(loc: map<nat, Loc>, loc': map<nat, Loc>, t: nat, q: QueueId)
    requires t in loc' && loc' == loc[t := loc'[t]] && !Scheduled(loc'[t]) && (t in loc ==> !Scheduled(loc[t]))
    ensures Lists(loc', q) == Lists(loc, q)
  {
  }

  /** Moves that do not touch the scheduling queues, and changes of thread records, log nothing. */
  lemma LoggedMove(logs: seq<Log>, loc: map<nat, Loc>, loc': map<nat, Loc>,
                   threads: map<nat, Thread>, threads': map<nat, Thread>, active: seq<bool>, t: nat)
    requires Logged(logs, loc, threads, active)
    requires t in loc' && loc' == loc[t := loc'[t]] && !Scheduled(loc'[t]) && (t in loc ==> !Scheduled(loc[t]))
    ensures Logged(logs, loc', threads', active)
  {
    forall c | 0 <= c < |active| ensures LoggedAt(logs, loc', threads', active, c) {
      assert LoggedAt(logs, loc, threads, active, c);
      ListsKept(loc, loc', t, QueueId(c, true));
      ListsKept(loc, loc', t, QueueId(c, false));
    }
  }

  /** Changing the record or the place of one thread that is neither current nor an idle thread. */
  lemma PlacedSet(w: World, t: nat, th: Thread, l: Loc, hand: nat, hand': nat)
    requires Placed(w, hand) && t in w.loc && (hand == t || hand == hand' || hand !in w.loc)
    requires !w.loc[t].Current? && !w.loc[t].IdleFor?
    requires var w' := w.(loc := w.loc[t := l], threads := w.threads[t := th]); ThreadAt(w', hand', t)
    ensures Placed(w.(loc := w.loc[t := l], threads := w.threads[t := th]), hand')
  {
    var w' := w.(loc := w.loc[t := l], threads := w.threads[t := th]);
    forall u | u in w'.loc ensures ThreadAt(w', hand', u) {
      assert ThreadAt(w, hand, u);
    }
    forall c | 0 <= c < |w.current| ensures CpuAt(w', c) {
      assert CpuAt(w, c);
    }
  }

  /** Changing the record of any thread without making it or unmaking it an idle one. */
  lemma PlacedRecord(w: World, t: nat, th: Thread, hand: nat)
    requires Placed(w, hand) && t in w.loc && th.affinity < |w.current|
    requires th.state.Idle? <==> w.threads[t].state.Idle?
    requires th.state.Rebalanced? ==> th.rebalance
    ensures Placed(w.(threads := w.threads[t := th]), hand)
  {
    var w' := w.(threads := w.threads[t := th]);
    forall u | u in w'.loc ensures ThreadAt(w', hand, u) {
      assert ThreadAt(w, hand, u);
    }
    forall c | 0 <= c < |w.current| ensures CpuAt(w', c) {
      assert CpuAt(w, c);
    }
  }

  lemma LoggedThreads(logs: seq<Log>, loc: map<nat, Loc>, threads: map<nat, Thread>, threads': map<nat, Thread>,
                      active: seq<bool>)
    requires Logged(logs, loc, threads, active)
    ensures Logged(logs, loc, threads', active)
  {
    forall c | 0 <= c < |active| ensures LoggedAt(logs, loc, threads', active, c) {
      assert LoggedAt(logs, loc, threads, active, c);
    }
  }

  /** Queueing a thread for another CPU and announcing it there. */
  lemma PlacedSent(w: World, c: nat, t: nat)
    requires Placed(w, t) && c < |w.signal| && t in w.loc && w.loc[t] == InHand
    ensures Placed(w.(loc := w.loc[t := OnList(Moving(c))], signal := w.signal[c := true]), 0)
  {
    var w' := w.(loc := w.loc[t := OnList(Moving(c))], signal := w.signal[c := true]);
    forall u | u in w'.loc ensures ThreadAt(w', 0, u) {
      assert ThreadAt(w, t, u);
    }
    forall d | 0 <= d < |w.current| ensures CpuAt(w', d) {
      assert CpuAt(w, d);
    }
  }

  ghost function Arriving(loc: map<nat, Loc>, cpu: nat): set<nat> {
    set t | t in loc && loc[t] == OnList(Moving(cpu))
  }

  ghost function QueuedOn(loc: map<nat, Loc>, cpu: nat): set<nat> {
    set t | t in loc && Queued(loc[t], cpu)
  }

  /** A thread that was waiting to migrate to the CPU of `q` is on `q`, runnable, on the list of its priority;
      others are untouched. */
  ghost predicate ArrivedAt(loc: map<nat, Loc>, threads: map<nat, Thread>, loc': map<nat, Loc>,
                            threads': map<nat, Thread>, q: QueueId, t: nat)
    requires t in loc && t in threads && t in loc' && t in threads'
  {
    || (loc'[t] == loc[t] && threads'[t] == threads[t])
    || (&& loc[t] == OnList(Moving(q.cpu)) && loc'[t] == OnList(Prio(q, threads[t].priority))
        && threads'[t] == threads[t].(state := Runnable, rebalance := false))
  }

  ghost predicate Arrived(loc: map<nat, Loc>, threads: map<nat, Thread>, loc': map<nat, Loc>,
                          threads': map<nat, Thread>, q: QueueId) {
    && loc'.Keys == loc.Keys == threads.Keys == threads'.Keys
    && forall t {:trigger ArrivedAt(loc, threads, loc', threads', q, t)} :: t in loc ==>
          ArrivedAt(loc, threads, loc', threads', q, t)
  }

  lemma ArrivedSame(loc: map<nat, Loc>, threads: map<nat, Thread>, q: QueueId)
    requires loc.Keys == threads.Keys
    ensures Arrived(loc, threads, loc, threads, q)
  {
  }

  lemma ArriveOne(loc: map<nat, Loc>, threads: map<nat, Thread>, loc': map<nat, Loc>, threads': map<nat, Thread>,
                  loc'': map<nat, Loc>, threads'': map<nat, Thread>, q: QueueId, t: nat)
    requires Arrived(loc, threads, loc', threads', q) && t in loc' && loc'[t] == OnList(Moving(q.cpu))
    requires loc'' == loc'[t := OnList(Prio(q, threads'[t].priority))]
    requires threads'' == threads'[t := threads'[t].(state := Runnable, rebalance := false)]
    ensures Arrived(loc, threads, loc'', threads'', q)
  {
    forall u | u in loc ensures ArrivedAt(loc, threads, loc'', threads'', q, u) {
      assert ArrivedAt(loc, threads, loc', threads', q, u);
    }
  }

  lemma MovedTwice(loc: map<nat, Loc>, t: nat, l: Loc)
    ensures loc[t := InHand][t := l] == loc[t := l]
  {
  }

  lemma NoneArriving(lists: map<Slot, seq<nat>>, loc: map<nat, Loc>, cpu: nat)
    requires Agree(lists, loc) && Moving(cpu) in lists && lists[Moving(cpu)] == []
    ensures Arriving(loc, cpu) == {}
  {
    forall u | u in loc ensures loc[u] != OnList(Moving(cpu)) { assert u !in lists[Moving(cpu)]; }
  }

  lemma FewerArriving(loc: map<nat, Loc>, loc': map<nat, Loc>, cpu: nat, t: nat)
    requires t in loc && loc[t] == OnList(Moving(cpu)) && t in loc' && Queued(loc'[t], cpu) && loc' == loc[t := loc'[t]]
    ensures Arriving(loc', cpu) < Arriving(loc, cpu)
  {
    assert t in Arriving(loc, cpu) && t !in Arriving(loc', cpu);
  }

  lemma PlacedClear(w: World, c: nat, hand: nat)
    requires Placed(w, hand) && c < |w.signal| && Arriving(w.loc, c) == {}
    ensures Placed(w.(signal := w.signal[c := false]), hand)
  {
    var w' := w.(signal := w.signal[c := false]);
    forall u | u in w'.loc ensures ThreadAt(w', hand, u) {
      assert ThreadAt(w, hand, u);
      assert u !in Arriving(w.loc, c);
    }
    forall d | 0 <= d < |w.current| ensures CpuAt(w', d) {
      assert CpuAt(w, d);
    }
  }

  /** Sending one queued thread away shrinks the queues of the CPU. */
  lemma QueuedShrinks(loc: map<nat, Loc>, loc': map<nat, Loc>, cpu: nat, t: nat)
    requires OnlyMine(loc, loc', cpu, t) && t in loc && Queued(loc[t], cpu) && !Queued(loc'[t], cpu)
    ensures QueuedOn(loc', cpu) < QueuedOn(loc, cpu)
  {
    forall u | u in loc && u != t ensures Queued(loc'[u], cpu) <==> Queued(loc[u], cpu) {
      assert MineAt(loc, loc', cpu, u);
    }
    assert t in QueuedOn(loc, cpu);
  }

  /** Making the thread in hand current, when the idle thread was: it goes back to its slot. */
  lemma PlacedFromIdle(w: World, c: nat, t: nat)
    requires Placed(w, t) && c < |w.current| && t in w.loc && w.loc[t] == InHand && w.current[c] == w.idleOf[c]
    ensures Placed(w.(loc := w.loc[t := Current(c)], current := w.current[c := t],
                      idle := w.idle[c := w.current[c]]), 0)
  {
    assert CpuAt(w, c);
    var w' := w.(loc := w.loc[t := Current(c)], current := w.current[c := t], idle := w.idle[c := w.current[c]]);
    forall u | u in w'.loc ensures ThreadAt(w', 0, u) {
      assert ThreadAt(w, t, u);
    }
    forall d | 0 <= d < |w.current| ensures CpuAt(w', d) {
      assert CpuAt(w, d);
    }
  }

  /** Making the thread in hand current, when another thread was: that one is in hand now. */
  lemma PlacedSwitch(w: World, c: nat, t: nat)
    requires Placed(w, t) && c < |w.current| && t in w.loc && w.loc[t] == InHand && w.current[c] != w.idleOf[c]
    ensures w.current[c] in w.loc && w.current[c] != t
    ensures Placed(w.(loc := w.loc[t := Current(c)][w.current[c] := InHand], current := w.current[c := t]),
                   w.current[c])
  {
    assert CpuAt(w, c);
    var w' := w.(loc := w.loc[t := Current(c)][w.current[c] := InHand], current := w.current[c := t]);
    forall u | u in w'.loc ensures ThreadAt(w', w.current[c], u) {
      assert ThreadAt(w, t, u);
    }
    forall d | 0 <= d < |w.current| ensures CpuAt(w', d) {
      assert CpuAt(w, d);
    }
  }

  /** Switching to the idle thread, taken from its slot, which is filled. */
  lemma PlacedToIdle(w: World, c: nat)
    requires Placed(w, 0) && 0 !in w.loc && c < |w.current| && w.current[c] != w.idleOf[c]
    ensures w.idle[c] == w.idleOf[c] != 0 && w.current[c] in w.loc && w.loc[w.current[c]] == Current(c)
    ensures Placed(w.(loc := w.loc[w.current[c] := InHand], current := w.current[c := w.idle[c]],
                      idle := w.idle[c := 0]), w.current[c])
  {
    assert CpuAt(w, c);
    var w' := w.(loc := w.loc[w.current[c] := InHand], current := w.current[c := w.idle[c]], idle := w.idle[c := 0]);
    forall u | u in w'.loc ensures ThreadAt(w', w.current[c], u) {
      assert ThreadAt(w, 0, u);
    }
    forall d | 0 <= d < |w.current| ensures CpuAt(w', d) {
      assert CpuAt(w, d);
    }
  }

  lemma SentAway(loc: map<nat, Loc>, mid: map<nat, Loc>, loc': map<nat, Loc>, cpu: nat, t: nat)
    requires OnlyMine(loc, mid, cpu, t) && t in loc && Queued(loc[t], cpu) && t in loc'
    requires loc' == mid[t := loc'[t]] && !Queued(loc'[t], cpu)
    ensures QueuedOn(loc', cpu) < QueuedOn(loc, cpu)
  {
    forall u | u in loc && u != t ensures MineAt(loc, loc', cpu, u) {
      assert MineAt(loc, mid, cpu, u);
    }
    QueuedShrinks(loc, loc', cpu, t);
  }

  /** A new thread, in the hands of its creator. */
  lemma PlacedNew(w: World, t: nat, th: Thread)
    requires Placed(w, 0) && t == w.nextId && th.state.Runnable? && th.affinity < |w.current| && 0 !in w.loc
    ensures t !in w.loc
    ensures Placed(w.(loc := w.loc[t := InHand], threads := w.threads[t := th], nextId := t + 1), t)
  {
    var w' := w.(loc := w.loc[t := InHand], threads := w.threads[t := th], nextId := t + 1);
    forall u | u in w.loc ensures u < t {
      assert ThreadAt(w, 0, u);
    }
    forall u | u in w'.loc ensures ThreadAt(w', t, u) {
      if u != t { assert ThreadAt(w, 0, u); }
    }
    forall c | 0 <= c < |w.current| ensures CpuAt(w', c) {
      assert CpuAt(w, c);
    }
  }

  lemma AgreeNew(lists: map<Slot, seq<nat>>, loc: map<nat, Loc>, t: nat)
    requires Agree(lists, loc) && t !in loc && t != 0
    ensures Agree(lists, loc[t := InHand])
  {
  }

  /** No thread queued on `cpu`, other than `c`, may run. */
  ghost predicate NoneReady(loc: map<nat, Loc>, threads: map<nat, Thread>, cpu: nat, c: nat) {
    forall u {:trigger Queued(loc[u], cpu)} :: u in loc && u in threads && u != c && Queued(loc[u], cpu) ==>
      !threads[u].state.Runnable? && !threads[u].state.Rebalanced?
  }

  lemma StillNone(loc: map<nat, Loc>, mid: map<nat, Loc>, loc': map<nat, Loc>, threads: map<nat, Thread>, cpu: nat,
                  c: nat)
    requires NoneReady(loc, threads, cpu, 0) && 0 !in loc && c in loc
    requires mid == loc[c := InHand] && c in loc' && loc' == mid[c := loc'[c]]
    ensures NoneReady(loc', threads, cpu, c)
  {
  }

  // ---- What one CPU leaves alone ----

  ghost predicate Foreign(l: Loc, cpu: nat) { Scheduled(l) && l.slot.q.cpu != cpu }

  ghost predicate ElsewhereAt(loc: map<nat, Loc>, loc': map<nat, Loc>, cpu: nat, t: nat)
    requires t in loc && t in loc'
  {
    Foreign(loc[t], cpu) || Foreign(loc'[t], cpu) ==> loc'[t] == loc[t]
  }

  /** Every list of the scheduling queues of the other CPUs holds the threads it held. */
  ghost predicate Elsewhere(loc: map<nat, Loc>, loc': map<nat, Loc>, cpu: nat) {
    && loc'.Keys == loc.Keys
    && forall t {:trigger ElsewhereAt(loc, loc', cpu, t)} :: t in loc ==> ElsewhereAt(loc, loc', cpu, t)
  }

  lemma ElsewhereCompose(a: map<nat, Loc>, b: map<nat, Loc>, c: map<nat, Loc>, cpu: nat)
    requires Elsewhere(a, b, cpu) && Elsewhere(b, c, cpu)
    ensures Elsewhere(a, c, cpu)
  {
    forall t | t in a ensures ElsewhereAt(a, c, cpu, t) {
      assert ElsewhereAt(a, b, cpu, t) && ElsewhereAt(b, c, cpu, t);
    }
  }

  lemma ElsewhereArrived(loc: map<nat, Loc>, threads: map<nat, Thread>, loc': map<nat, Loc>,
                         threads': map<nat, Thread>, q: QueueId)
    requires Arrived(loc, threads, loc', threads', q)
    ensures Elsewhere(loc, loc', q.cpu)
  {
    forall t | t in loc ensures ElsewhereAt(loc, loc', q.cpu, t) {
      assert ArrivedAt(loc, threads, loc', threads', q, t);
    }
  }

  // ---- Where one CPU moves threads ----

  ghost predicate Here(l: Loc, cpu: nat) { Queued(l, cpu) || l == Current(cpu) }

  ghost predicate Mine(l: Loc, cpu: nat) { Here(l, cpu) || l.InHand? }

  /** Thread `t` stayed where it was, or it was with this CPU and still is, or it was sent to the CPU it is to
      run on because it was marked to be moved. */
  ghost predicate WentAt(loc: map<nat, Loc>, loc': map<nat, Loc>, threads: map<nat, Thread>, cpu: nat, t: nat)
    requires t in loc && t in loc'
  {
    || loc'[t] == loc[t]
    || (Mine(loc[t], cpu) && Mine(loc'[t], cpu))
    || (&& Mine(loc[t], cpu) && t in threads && threads[t].rebalance
        && loc'[t] == OnList(Moving(threads[t].affinity)))
  }

  ghost predicate Went(loc: map<nat, Loc>, loc': map<nat, Loc>, threads: map<nat, Thread>, cpu: nat) {
    && loc'.Keys == loc.Keys
    && forall t {:trigger WentAt(loc, loc', threads, cpu, t)} :: t in loc ==> WentAt(loc, loc', threads, cpu, t)
  }

  lemma WentSame(loc: map<nat, Loc>, threads: map<nat, Thread>, cpu: nat)
    ensures Went(loc, loc, threads, cpu)
  {
  }

  lemma WentCompose(a: map<nat, Loc>, b: map<nat, Loc>, c: map<nat, Loc>, threads: map<nat, Thread>, cpu: nat)
    requires Went(a, b, threads, cpu) && Went(b, c, threads, cpu)
    ensures Went(a, c, threads, cpu)
  {
    forall t | t in a ensures WentAt(a, c, threads, cpu, t) {
      assert WentAt(a, b, threads, cpu, t) && WentAt(b, c, threads, cpu, t);
    }
  }

  lemma WentMine(loc: map<nat, Loc>, loc': map<nat, Loc>, threads: map<nat, Thread>, cpu: nat, t: nat)
    requires OnlyMine(loc, loc', cpu, t) && (t in loc ==> Mine(loc[t], cpu) && Mine(loc'[t], cpu))
    ensures Went(loc, loc', threads, cpu)
  {
    forall u | u in loc ensures WentAt(loc, loc', threads, cpu, u) {
      if u != t { assert MineAt(loc, loc', cpu, u); }
    }
  }

  /** Moving one thread. */
  lemma WentMove(loc: map<nat, Loc>, loc': map<nat, Loc>, threads: map<nat, Thread>, cpu: nat, t: nat, l: Loc)
    requires t in loc && loc' == loc[t := l] && WentAt(loc, loc', threads, cpu, t)
    ensures Went(loc, loc', threads, cpu)
  {
  }

  lemma WentTwo(loc: map<nat, Loc>, loc': map<nat, Loc>, threads: map<nat, Thread>, cpu: nat, t: nat, c: nat, l: Loc)
    requires t in loc && c in loc && loc[t] == InHand && loc[c] == Current(cpu) && Queued(l, cpu) && t != c
    requires loc' == loc[t := Current(cpu)][c := InHand][c := l]
    ensures Went(loc, loc', threads, cpu)
  {
  }

  lemma WentVia(loc: map<nat, Loc>, mid: map<nat, Loc>, loc': map<nat, Loc>, threads: map<nat, Thread>, cpu: nat,
                c: nat, l: Loc)
    requires c in loc && mid == loc[c := InHand] && loc' == mid[c := l] && Mine(loc[c], cpu) && Mine(l, cpu)
    ensures Went(loc, loc', threads, cpu)
  {
  }

  lemma WentElsewhere(loc: map<nat, Loc>, loc': map<nat, Loc>, threads: map<nat, Thread>, cpu: nat)
    requires Went(loc, loc', threads, cpu)
    ensures Elsewhere(loc, loc', cpu)
  {
    forall t | t in loc ensures ElsewhereAt(loc, loc', cpu, t) { assert WentAt(loc, loc', threads, cpu, t); }
  }

  /** What a whole `schedule` on `cpu` does to a thread. One that was sent to this CPU is accepted: it is
      Runnable, and current or queued here. The record of any other is untouched; it stays where it is, or with
      this CPU, or it was marked to be moved and is sent to the CPU it is to run on. */
  ghost predicate ScheduledAt(loc: map<nat, Loc>, threads: map<nat, Thread>, loc': map<nat, Loc>,
                              threads': map<nat, Thread>, cpu: nat, t: nat)
    requires t in loc && t in threads && t in loc' && t in threads'
  {
    if loc[t] == OnList(Moving(cpu)) then
      threads'[t] == threads[t].(state := Runnable, rebalance := false) && Here(loc'[t], cpu)
    else
      && threads'[t] == threads[t]
      && (|| loc'[t] == loc[t]
          || (Here(loc[t], cpu) && Here(loc'[t], cpu))
          || (Here(loc[t], cpu) && threads[t].rebalance && loc'[t] == OnList(Moving(threads[t].affinity))))
  }

  /** `schedule` moved every thread as it may, and changed no record but those of threads it accepted. */
  ghost predicate AllScheduled(loc: map<nat, Loc>, threads: map<nat, Thread>, loc': map<nat, Loc>,
                               threads': map<nat, Thread>, cpu: nat) {
    && loc'.Keys == loc.Keys == threads.Keys == threads'.Keys
    && forall t {:trigger ScheduledAt(loc, threads, loc', threads', cpu, t)} :: t in loc ==>
         ScheduledAt(loc, threads, loc', threads', cpu, t)
  }

  ghost predicate NoneInHand(loc: map<nat, Loc>) {
    forall t {:trigger loc[t]} :: t in loc ==> !loc[t].InHand?
  }

  lemma AcceptedThenWent(loc: map<nat, Loc>, threads: map<nat, Thread>, mid: map<nat, Loc>, loc': map<nat, Loc>,
                         threads': map<nat, Thread>, q: QueueId, cpu: nat)
    requires q.cpu == cpu && Arrived(loc, threads, mid, threads', q) && Arriving(mid, cpu) == {}
    requires Went(mid, loc', threads', cpu) && NoneInHand(loc) && NoneInHand(loc')
    ensures AllScheduled(loc, threads, loc', threads', cpu)
  {
    forall t | t in loc ensures ScheduledAt(loc, threads, loc', threads', cpu, t) {
      assert ArrivedAt(loc, threads, mid, threads', q, t) && WentAt(mid, loc', threads', cpu, t);
      assert t !in Arriving(mid, cpu);
    }
  }

  lemma EmptyHands(w: World)
    requires Placed(w, 0) && 0 !in w.loc
    ensures NoneInHand(w.loc)
  {
    forall t | t in w.loc ensures !w.loc[t].InHand? { assert ThreadAt(w, 0, t); }
  }

  /** A CPU that is not signalled has no thread waiting for it. */
  lemma Unsignalled(w: World, cpu: nat)
    requires Placed(w, 0) && cpu < |w.signal| && !w.signal[cpu]
    ensures Arriving(w.loc, cpu) == {}
  {
    forall t | t in w.loc ensures w.loc[t] != OnList(Moving(cpu)) { assert ThreadAt(w, 0, t); }
  }

  /** The current thread of a CPU is in state Idle exactly when it is the idle thread. */
  lemma IsIdle(w: World, hand: nat, c: nat)
    requires Placed(w, hand) && c < |w.current|
    ensures w.current[c] in w.threads && w.idleOf[c] in w.threads
    ensures w.threads[w.current[c]].state.Idle? <==> w.current[c] == w.idleOf[c]
    ensures w.threads[w.idleOf[c]].state.Idle?
  {
    assert CpuAt(w, c);
    assert ThreadAt(w, hand, w.current[c]) && ThreadAt(w, hand, w.idleOf[c]);
  }

  function EmptyHighest(n: nat): (m: map<QueueId, Priority>)
    ensures forall q :: q in m <==> q.cpu < n
    ensures forall q :: q in m ==> m[q] == 0
  {
    if n == 0 then map[]
    else EmptyHighest(n - 1)[QueueId(n - 1, true) := 0][QueueId(n - 1, false) := 0]
  }

  predicate SlotOf(s: Slot, n: nat) {
    match s case Prio(q, _) => q.cpu < n case Moving(c) => c < n
  }

  function EmptyHeads(n: nat): (m: map<Slot, nat>)
    ensures forall s :: s in m <==> SlotOf(s, n)
    ensures forall s :: s in m ==> m[s] == 0
  {
    if n == 0 then map[]
    else EmptyHeads(n - 1) + PrioHeads(QueueId(n - 1, true), MAX_PRIO) + PrioHeads(QueueId(n - 1, false), MAX_PRIO)
         + map[Moving(n - 1) := 0]
  }

  /** The idle threads 1 to n. */
  function IdleThreads(n: nat): (m: map<nat, Thread>)
    ensures forall t: nat :: t in m <==> 1 <= t <= n
    ensures forall t :: t in m ==> m[t] == Thread(Idle, 0, 0, false)
  {
    if n == 0 then map[] else IdleThreads(n - 1)[n := Thread(Idle, 0, 0, false)]
  }

  function IdleWorld(n: nat): World {
    World(IdleThreads(n), map t | t in IdleThreads(n) :: IdleFor(t - 1), seq(n, c => c + 1), seq(n, c => c + 1),
          seq(n, _ => false), seq(n, c => c + 1), n + 1)
  }

  lemma IdlePlaced(n: nat)
    ensures Placed(IdleWorld(n), 0)
  {
  }

  function NewLogs(n: nat): seq<Log> { seq(n, _ => Log([Snap(map[], map[], {}, map[])], [])) }

  lemma IdleLogged(n: nat, active: seq<bool>)
    requires |active| == n && forall c :: 0 <= c < n ==> active[c]
    ensures Logged(NewLogs(n), IdleWorld(n).loc, IdleThreads(n), active)
  {
    var w, logs := IdleWorld(n), NewLogs(n);
    forall c | 0 <= c < n ensures LoggedAt(logs, w.loc, w.threads, active, c) {
      assert Lists(w.loc, QueueId(c, true)) == map[] && Lists(w.loc, QueueId(c, false)) == map[];
    }
  }

  function PrioHeads(q: QueueId, p: Priority): (m: map<Slot, nat>)
    ensures forall s :: s in m <==> s.Prio? && s.q == q && s.prio <= p
    ensures forall s :: s in m ==> m[s] == 0
  {
    if p == 0 then map[Prio(q, 0) := 0] else PrioHeads(q, p - 1)[Prio(q, p) := 0]
  }

  function EmptyLists(slots: set<Slot>): map<Slot, seq<nat>> { map s | s in slots :: [] }

  lemma EmptyInOrder(slots: set<Slot>, highest: map<QueueId, Priority>, loc: map<nat, Loc>, n: nat)
    requires (forall s :: s in slots <==> SlotOf(s, n)) && (forall q :: q in highest <==> q.cpu < n)
    requires 0 !in loc && forall t :: t in loc ==> !loc[t].OnList?
    ensures HasLists(slots, highest.Keys, n) && Agree(EmptyLists(slots), loc) && Capped(EmptyLists(slots), highest)
  {
  }

  class Kernel {
    const cpus: nat
    var threads: map<nat, Thread>
    /** The `next` field of every thread. */
    var next: map<nat, nat>
    var heads: map<Slot, nat>
    var highest: map<QueueId, Priority>
    var active: seq<bool>
    var idle: seq<nat>
    var current: seq<nat>
    var signal: seq<bool>

    /** The next thread identifier. */
    var nextId: nat

    ghost var lists: map<Slot, seq<nat>>
    ghost var loc: map<nat, Loc>
    /** The idle thread of every CPU. */
    ghost var idleOf: seq<nat>
    /** What happened to the queues of every CPU so far. */
    ghost var logs: seq<Log>

    /** Every CPU with its scheduler created and `init_threads` run: CPU `c` has idle thread `c + 1`,
        which is current and also in the idle slot. */
    constructor (n: nat)
      ensures Inv(0) && cpus == n && |idleOf| == n && (forall t: nat :: t in threads <==> 1 <= t <= n)
      ensures forall c :: 0 <= c < n ==> current[c] == idle[c] == idleOf[c] == c + 1
    {
      cpus := n;
      nextId := n + 1;
      var w := IdleWorld(n);
      threads := w.threads;
      next := map t | t in w.threads :: 0;
      heads := EmptyHeads(n);
      highest := EmptyHighest(n);
      active := seq(n, _ => true);
      idle, current, signal := w.idle, w.current, w.signal;
      lists := EmptyLists(EmptyHeads(n).Keys);
      loc, idleOf := w.loc, w.idleOf;
      logs := NewLogs(n);
      new;
      EmptyInOrder(heads.Keys, highest, loc, n);
      IdlePlaced(n);
      IdleLogged(n, active);
      assert W() == w;
    }

    ghost predicate Links()
      reads `next, `heads, `lists, `loc
    {
      && lists.Keys == heads.Keys
      && (forall s :: s in lists ==> Chain(next, heads[s], lists[s]))
      && Agree(lists, loc)
    }

    /** `push_thread` and `rb_push_thread`. */
    method Push(s: Slot, t: nat)
      requires Links() && s in heads && t in loc && loc[t] == InHand
      modifies `next, `heads, `lists, `loc
      ensures Links()
      ensures lists == old(lists)[s := [t] + old(lists)[s]] && loc == old(loc)[t := OnList(s)]
    {
      AgreePush(lists, loc, s, t);
      ghost var before := next;
      next := next[t := heads[s]];
      forall u | u in lists ensures Chain(next, heads[u], lists[u]) {
        Unaffected(before, next, heads[u], lists[u]);
      }
      heads := heads[s := t];
      ghost var grown := [t] + lists[s];
      assert grown[1..] == lists[s];
      lists, loc := lists[s := grown], loc[t := OnList(s)];
    }

    /** `pop_thread` and `rb_pop_thread`: the head of the list, or 0. */
    method Pop(s: Slot) returns (t: nat)
      requires Links() && s in heads
      modifies `next, `heads, `lists, `loc
      ensures Links()
      ensures t == 0 ==> old(lists)[s] == [] && lists == old(lists) && loc == old(loc)
      ensures t != 0 ==> old(lists)[s] != [] && t == old(lists)[s][0] && t in old(loc) && old(loc)[t] == OnList(s)
                         && lists == old(lists)[s := old(lists)[s][1..]] && loc == old(loc)[t := InHand]
    {
      t := heads[s];
      if t != 0 {
        Acyclic(next, heads[s], lists[s]);
        AgreePop(lists, loc, s);
        heads := heads[s := next[t]];
        lists, loc := lists[s := lists[s][1..]], loc[t := InHand];
        ghost var before := next;
        next := next[t := 0];
        forall u | u in lists ensures Chain(next, heads[u], lists[u]) {
          Unaffected(before, next, heads[u], lists[u]);
        }
      }
    }

    /** Every CPU has its lists and counters, and every thread a priority and a CPU to be on. */
    ghost predicate Shape()
      reads `heads, `highest, `threads, `loc, `active, `idle, `current, `signal
    {
      && HasLists(heads.Keys, highest.Keys, cpus)
      && |active| == |idle| == |current| == |signal| == cpus
      && loc.Keys == threads.Keys
    }

    /** The queues are well formed; `InHand` threads are on their way from one place to another. */
    ghost predicate Core()
      reads `next, `heads, `lists, `loc, `highest, `threads, `active, `idle, `current, `signal
    {
      Shape() && Links() && Capped(lists, highest)
    }

    /** `put_thread`: on the list of the priority the thread has now. */
    method PutThread(q: QueueId, t: nat)
      requires Core() && q in highest && t in loc && loc[t] == InHand
      modifies `next, `heads, `lists, `loc, `highest
      ensures Core()
      ensures loc == old(loc)[t := OnList(Prio(q, threads[t].priority))]
      ensures SameBut(old(highest), highest, q)
    {
      var prio := threads[t].priority;
      CappedPush(lists, highest, q, prio, t);
      Push(Prio(q, prio), t);
      if highest[q] < prio {
        highest := highest[q := prio];
      }
    }

    /** Take the head of the list that `highest` points at, or 0. */
    method PopHighest(q: QueueId, level: Priority) returns (t: nat)
      requires Core() && q in highest && highest[q] == level
      modifies `next, `heads, `lists, `loc
      ensures Core()
      ensures t == 0 ==>
                Prio(q, level) in lists && lists[Prio(q, level)] == [] && lists == old(lists) && loc == old(loc)
      ensures t != 0 ==> t in old(loc) && old(loc)[t] == OnList(Prio(q, level)) && loc == old(loc)[t := InHand]
    {
      var s := Prio(q, level);
      t := Pop(s);
      if t != 0 { CappedPop(old(lists), highest, s); }
    }

    method LowerHighest(q: QueueId, level: Priority)
      requires Core() && level < MAX_PRIO && q in highest && highest[q] == level + 1
      requires Prio(q, level + 1) in lists && lists[Prio(q, level + 1)] == []
      modifies `highest
      ensures Core() && SameBut(old(highest), highest, q) && highest[q] == level
    {
      CappedLower(lists, highest, q, level);
      highest := highest[q := level];
    }

    /** `get_highest`: the head of the highest non-empty list of a queue, or 0. */
    method GetHighest(q: QueueId) returns (t: nat)
      requires Core() && q in highest
      modifies `next, `heads, `lists, `loc, `highest
      ensures Core() && SameBut(old(highest), highest, q) && highest[q] <= old(highest)[q]
      ensures t == 0 ==> loc == old(loc) && On(loc, q) == {}
      ensures t != 0 ==> t in old(loc) && old(loc)[t] == OnList(Prio(q, highest[q])) && loc == old(loc)[t := InHand]
    {
      var level := highest[q];
      while true
        invariant Core() && SameBut(old(highest), highest, q)
        invariant highest[q] == level <= old(highest)[q] && loc == old(loc)
        decreases level
      {
        t := PopHighest(q, level);
        if t != 0 { return; }
        if level == 0 {
          NoneOn(lists, loc, highest, q);
          return;
        }
        level := level - 1;
        LowerHighest(q, level);
      }
    }

    ghost predicate OnlyThese(before: map<QueueId, Priority>, qa: QueueId, qp: QueueId)
      reads `highest
    {
      && highest.Keys == before.Keys && qa in before && highest[qa] <= before[qa]
      && forall q :: q in highest && q != qa && q != qp ==> highest[q] == before[q]
    }

    /** One round of `get_next`, which started from `first`: `more` if it passed over a thread. */
    method TryNext(qa: QueueId, qp: QueueId, ghost first: map<nat, Loc>, ghost high: map<QueueId, Priority>)
      returns (t: nat, more: bool)
      requires Core() && qa in highest && qp in highest && qa != qp && OnlyThese(high, qa, qp)
      requires Sifted(first, loc, qa, qp, threads, 0)
      modifies `next, `heads, `lists, `loc, `highest
      ensures Core() && OnlyThese(high, qa, qp)
      ensures more ==> Sifted(first, loc, qa, qp, threads, 0) && On(loc, qa) < On(old(loc), qa)
      ensures !more && t == 0 ==> Sifted(first, loc, qa, qp, threads, 0) && On(loc, qa) == {}
      ensures !more && t != 0 ==>
                Sifted(first, loc, qa, qp, threads, t) && IsOn(first, qa, t) && t in loc && loc[t] == InHand
                                  && t in Ready(threads) && first[t] == OnList(Prio(qa, highest[qa]))
    {
      ghost var before := loc;
      t := GetHighest(qa);
      more := false;
      if t != 0 {
        if Eligible(threads[t].state) {
          SiftFound(first, before, qa, qp, threads, t);
        } else {
          more := true;
          PutThread(qp, t);
          SiftMore(first, before, loc, qa, qp, threads, t, threads[t].priority);
        }
      }
    }

    /** `get_next`: the first thread of queue `qa`, from its highest list down, that may run. Threads
        that may not are moved to `qp`. */
    method GetNext(qa: QueueId, qp: QueueId) returns (t: nat)
      requires Core() && qa in highest && qp in highest && qa != qp
      modifies `next, `heads, `lists, `loc, `highest
      ensures Core() && OnlyThese(old(highest), qa, qp)
      ensures Sifted(old(loc), loc, qa, qp, threads, t)
      ensures t == 0 ==> On(loc, qa) == {}
      ensures t != 0 ==>
                t in loc && loc[t] == InHand && t in Ready(threads) && old(loc)[t] == OnList(Prio(qa, highest[qa]))
    {
      assert forall u :: u in loc ==> SiftedAt(loc, loc, qa, qp, threads, u);
      var more := true;
      t := 0;
      while more
        invariant Core() && OnlyThese(old(highest), qa, qp)
        invariant more ==> Sifted(old(loc), loc, qa, qp, threads, 0)
        invariant !more ==> Sifted(old(loc), loc, qa, qp, threads, t)
        invariant !more && t == 0 ==> On(loc, qa) == {}
        invariant !more && t != 0 ==>
                    t in loc && loc[t] == InHand && t in Ready(threads) && old(loc)[t] == OnList(Prio(qa, highest[qa]))
        decreases more, On(loc, qa)
      {
        t, more := TryNext(qa, qp, old(loc), old(highest));
      }
    }

    ghost function SnapOf(cpu: nat): Snap
      requires cpu < |active|
      reads `loc, `threads, `active
    {
      SnapFor(loc, threads, QueueId(cpu, active[cpu]), QueueId(cpu, !active[cpu]))
    }

    /** `flip_queues`. */
    method Flip(cpu: nat)
      requires Core() && cpu < cpus
      modifies `active
      ensures Core() && active == old(active)[cpu := !old(active)[cpu]]
    {
      active := active[cpu := !active[cpu]];
    }

    /** `next`: a thread that may run, from the active queue or, if it has none, after flipping the
        queues; 0 when neither queue holds one. The event `e` says that the thread was on the list of
        priority `p`, and that no list above that has threads left. */
    method Next(cpu: nat) returns (t: nat, ghost p: Priority, ghost e: Event)
      requires Core() && cpu < cpus
      modifies `next, `heads, `lists, `loc, `highest, `active
      ensures Core() && OnlyMine(old(loc), loc, cpu, t) && OthersKept(old(active), active, cpu)
      ensures e == (if t == 0 then Nothing else Got(t, p)) && Step(old(SnapOf(cpu)), e, SnapOf(cpu))
      ensures t != 0 ==> t in loc && loc[t] == InHand && t in old(loc) && Queued(old(loc)[t], cpu)
                         && old(loc)[t] == OnList(Prio(QueueId(cpu, active[cpu]), p))
    {
      var qa, qp := QueueId(cpu, active[cpu]), QueueId(cpu, !active[cpu]);
      t := GetNext(qa, qp);
      p := highest[qa];
      SiftMine(old(loc), loc, qa, qp, threads, t, cpu);
      if t != 0 {
        e := Got(t, p);
        CappedOn(lists, loc, highest, qa);
        NextActive(old(loc), loc, threads, qa, qp, t, p, e);
      } else {
        t, p, e := FlipAndGet(cpu, qa, qp, old(loc));
      }
    }

    /** The second half of `next`, after nothing on the queue `qa` may run. */
    method FlipAndGet(cpu: nat, qa: QueueId, qp: QueueId, ghost first: map<nat, Loc>)
      returns (t: nat, ghost p: Priority, ghost e: Event)
      requires Core() && cpu < cpus && qa == QueueId(cpu, active[cpu]) && qp == QueueId(cpu, !active[cpu])
      requires Sifted(first, loc, qa, qp, threads, 0) && On(loc, qa) == {}
      requires OnlyMine(first, loc, cpu, 0) && 0 !in first
      modifies `next, `heads, `lists, `loc, `highest, `active
      ensures Core() && OnlyMine(first, loc, cpu, t) && active == old(active)[cpu := !old(active)[cpu]]
      ensures e == (if t == 0 then Nothing else Got(t, p)) && Step(SnapFor(first, threads, qa, qp), e, SnapOf(cpu))
      ensures t != 0 ==> t in loc && loc[t] == InHand && t in first && first[t] == OnList(Prio(qp, p))
    {
      ghost var mid := loc;
      Flip(cpu);
      t := GetNext(qp, qa);
      p := highest[qp];
      e := if t == 0 then Nothing else Got(t, p);
      SiftMine(mid, loc, qp, qa, threads, t, cpu);
      MineTwice(first, mid, loc, cpu, t);
      CappedOn(lists, loc, highest, qp);
      assert SnapOf(cpu) == SnapFor(loc, threads, qp, qa);
      NextFlipped(first, mid, loc, threads, qa, qp, t, p, e);
      if t != 0 { SameInFlip(first, mid, qa, qp, threads, t); }
    }

    ghost function W(): World
      reads `threads, `loc, `current, `idle, `signal, `idleOf, `nextId
    {
      World(threads, loc, current, idle, signal, idleOf, nextId)
    }

    /** The machine between two steps, with at most thread `hand` on its way somewhere. */
    ghost predicate Inv(hand: nat)
      reads this
    {
      && Core()
      && Placed(W(), hand)
      && Logged(logs, loc, threads, active)
    }

    /** `next`, with what it does to the placement of threads, as an event. */
    method PlacedNext(cpu: nat) returns (t: nat, ghost e: Event)
      requires Core() && Placed(W(), 0) && cpu < cpus
      modifies `next, `heads, `lists, `loc, `highest, `active
      ensures Core() && Placed(W(), t)
      ensures OnlyMine(old(loc), loc, cpu, t) && OthersKept(old(active), active, cpu)
      ensures Step(old(SnapOf(cpu)), e, SnapOf(cpu))
      ensures t == 0 ==> NoneReady(loc, threads, cpu, 0)
      ensures t != 0 ==> e.Got? && t in loc && loc[t] == InHand && Queued(old(loc)[t], cpu) && t in Ready(threads)
    {
      ghost var w, p := W(), 0;
      t, p, e := Next(cpu);
      PlacedMine(w, loc, cpu, t, 0, t);
      assert W() == w.(loc := loc);
      if t == 0 { NothingReady(old(loc), loc, threads, cpu, old(active)[cpu], active[cpu]); }
    }

    ghost method KeepLog(logs': seq<Log>, hand: nat)
      requires Core() && Placed(W(), hand) && Logged(logs', loc, threads, active)
      modifies `logs
      ensures Inv(hand)
    {
      logs := logs';
    }

    /** `next`, recorded. */
    method TakeNext(cpu: nat) returns (t: nat)
      requires Inv(0) && cpu < cpus
      modifies `next, `heads, `lists, `loc, `highest, `active, `logs
      ensures Inv(t) && OnlyMine(old(loc), loc, cpu, t) && OthersKept(old(active), active, cpu)
      ensures t == 0 ==> NoneReady(loc, threads, cpu, 0)
      ensures t != 0 ==> t in loc && loc[t] == InHand && Queued(old(loc)[t], cpu) && t in Ready(threads)
    {
      ghost var s, e := SnapOf(cpu), Change;
      t, e := PlacedNext(cpu);
      ghost var s' := SnapOf(cpu);
      LogEvent(logs, old(loc), loc, threads, old(active), active, cpu, t, s, e, s');
      KeepLog(logs[cpu := Recorded(logs[cpu], s, e, s')], t);
    }

    /** `put_thread_in_passive`, with what it does to the placement of threads. */
    method PlacedPut(cpu: nat, t: nat)
      requires Core() && Placed(W(), t) && cpu < cpus && t in loc && loc[t] == InHand
      modifies `next, `heads, `lists, `loc, `highest
      ensures Core() && Placed(W(), 0) && loc == old(loc)[t := Home(threads, active, cpu, t)]
      ensures OnlyMine(old(loc), loc, cpu, t) && OthersKept(active, active, cpu)
      ensures Step(old(SnapOf(cpu)), Put(t), SnapOf(cpu))
    {
      ghost var w := W();
      var qa, qp := QueueId(cpu, active[cpu]), QueueId(cpu, !active[cpu]);
      PutThread(qp, t);
      PutStep(old(loc), loc, threads, qa, qp, t, threads[t].priority);
      PlacedMine(w, loc, cpu, t, t, 0);
      assert W() == w.(loc := loc);
    }

    /** `put_thread_in_passive`, recorded: on the passive queue, on the list of the thread's priority. */
    method PutInPassive(cpu: nat, t: nat)
      requires Inv(t) && cpu < cpus && t in loc && loc[t] == InHand
      modifies `next, `heads, `lists, `loc, `highest, `logs
      ensures Inv(0) && loc == old(loc)[t := Home(threads, active, cpu, t)]
    {
      ghost var s := SnapOf(cpu);
      PlacedPut(cpu, t);
      ghost var s' := SnapOf(cpu);
      LogEvent(logs, old(loc), loc, threads, active, active, cpu, t, s, Put(t), s');
      KeepLog(logs[cpu := Recorded(logs[cpu], s, Put(t), s')], 0);
    }

    /** Overwrite the record of a thread: the body of the three setters. */
    method SetThread(t: nat, th: Thread, ghost hand: nat)
      requires Inv(hand) && t in threads && th.affinity < cpus && (th.state.Idle? <==> threads[t].state.Idle?)
      requires th.state.Rebalanced? ==> th.rebalance
      modifies `threads
      ensures Inv(hand) && threads == old(threads)[t := th]
    {
      ghost var w := W();
      PlacedRecord(w, t, th, hand);
      LoggedThreads(logs, loc, threads, threads[t := th], active);
      threads := threads[t := th];
      assert W() == w.(threads := threads);
    }

    /** `rb_pop_thread`. */
    method TakeMoving(cpu: nat) returns (t: nat)
      requires Inv(0) && cpu < cpus
      modifies `next, `heads, `lists, `loc
      ensures Inv(t)
      ensures t == 0 ==> loc == old(loc) && Moving(cpu) in lists && lists[Moving(cpu)] == []
      ensures t != 0 ==>
                t in loc && loc[t] == InHand && old(loc)[t] == OnList(Moving(cpu)) && loc == old(loc)[t := InHand]
    {
      ghost var w := W();
      t := Pop(Moving(cpu));
      if t != 0 {
        CappedPop(old(lists), highest, Moving(cpu));
        assert ThreadAt(w, 0, t);
        PlacedSet(w, t, threads[t], InHand, 0, t);
        assert threads[t := threads[t]] == threads;
        LoggedMove(logs, old(loc), loc, threads, threads, active, t);
        assert W() == w.(loc := loc, threads := threads);
      }
    }

    /** `rb_push_thread`. */
    method PushMoving(cpu: nat, t: nat)
      requires Core() && Moving(cpu) in heads && t in loc && loc[t] == InHand
      modifies `next, `heads, `lists, `loc
      ensures Core() && loc == old(loc)[t := OnList(Moving(cpu))]
    {
      Push(Moving(cpu), t);
    }

    /** `rebalance_thread`: queue the thread for the CPU it is to run on and announce it. */
    method RebalanceThread(t: nat)
      requires Inv(t) && t in loc && loc[t] == InHand
      modifies `next, `heads, `lists, `loc, `signal
      ensures Inv(0) && loc == old(loc)[t := OnList(Moving(threads[t].affinity))]
    {
      ghost var w := W();
      assert ThreadAt(w, t, t);
      var cpu := threads[t].affinity;
      ghost var loc', signal' := loc[t := OnList(Moving(cpu))], signal[cpu := true];
      ghost var w' := w.(loc := loc', signal := signal');
      PlacedSent(w, cpu, t);
      LoggedMove(logs, loc, loc', threads, threads, active, t);
      PushMoving(cpu, t);
      signal := signal[cpu := true];
      assert W() == w';
    }

    /** Queue a thread that was moved to `cpu`, runnable. */
    method AcceptMoving(cpu: nat, t: nat)
      requires Inv(t) && cpu < cpus && t in loc && loc[t] == InHand
      modifies `next, `heads, `lists, `loc, `highest, `threads, `logs
      ensures Inv(0) && threads == old(threads)[t := old(threads)[t].(state := Runnable, rebalance := false)]
      ensures loc == old(loc)[t := Home(threads, active, cpu, t)]
    {
      assert ThreadAt(W(), t, t);
      SetThread(t, threads[t].(state := Runnable, rebalance := false), t);
      PutInPassive(cpu, t);
    }

    /** Take one thread off the rebalance queue of `cpu`, if there is one, and queue it, runnable. */
    method AcceptNext(cpu: nat) returns (t: nat)
      requires Inv(0) && cpu < cpus
      modifies `next, `heads, `lists, `loc, `highest, `threads, `logs
      ensures Inv(0)
      ensures t == 0 ==> loc == old(loc) && threads == old(threads) && Arriving(loc, cpu) == {}
      ensures t != 0 ==>
                && t in old(loc) && old(loc)[t] == OnList(Moving(cpu))
                && t in threads && loc == old(loc)[t := Home(threads, active, cpu, t)]
                && threads == old(threads)[t := old(threads)[t].(state := Runnable, rebalance := false)]
    {
      t := TakeMoving(cpu);
      if t != 0 {
        AcceptMoving(cpu, t);
        MovedTwice(old(loc), t, Home(threads, active, cpu, t));
      } else {
        NoneArriving(lists, loc, cpu);
      }
    }

    /** One turn of `process_rb_queue`, which started from `loc0` and `threads0`. */
    method AcceptOne(cpu: nat, ghost q: QueueId, ghost loc0: map<nat, Loc>, ghost threads0: map<nat, Thread>)
      returns (more: bool)
      requires Inv(0) && cpu < cpus && q == QueueId(cpu, !active[cpu]) && Arrived(loc0, threads0, loc, threads, q)
      modifies `next, `heads, `lists, `loc, `highest, `threads, `logs
      ensures Inv(0) && Arrived(loc0, threads0, loc, threads, q)
      ensures more ==> Arriving(loc, cpu) < Arriving(old(loc), cpu)
      ensures !more ==> Arriving(loc, cpu) == {}
    {
      ghost var before, records := loc, threads;
      var t := AcceptNext(cpu);
      more := t != 0;
      if more {
        ArriveOne(loc0, threads0, before, records, loc, threads, q, t);
        FewerArriving(before, loc, cpu, t);
      }
    }

    /** `process_rb_queue`: accept every thread that was sent to this CPU. */
    method ProcessRbQueue(cpu: nat, ghost q: QueueId)
      requires Inv(0) && cpu < cpus && q == QueueId(cpu, !active[cpu])
      modifies `next, `heads, `lists, `loc, `highest, `threads, `signal, `logs
      ensures Inv(0) && Arrived(old(loc), old(threads), loc, threads, q) && Arriving(loc, cpu) == {}
      ensures |signal| == cpus && !signal[cpu]
    {
      ArrivedSame(loc, threads, q);
      var more := true;
      while more
        invariant Inv(0) && Arrived(old(loc), old(threads), loc, threads, q)
        invariant !more ==> Arriving(loc, cpu) == {}
        decreases more, Arriving(loc, cpu)
      {
        more := AcceptOne(cpu, q, old(loc), old(threads));
      }
      ghost var w := W();
      PlacedClear(w, cpu, 0);
      signal := signal[cpu := false];
      assert W() == w.(signal := signal);
    }

    /** One round of the loop of `schedule`: take the next thread and send it away if it is to move. */
    method PickOne(cpu: nat) returns (t: nat, again: bool)
      requires Inv(0) && cpu < cpus
      modifies `next, `heads, `lists, `loc, `highest, `active, `signal, `logs
      ensures Inv(if again then 0 else t) && Went(old(loc), loc, threads, cpu) && OthersKept(old(active), active, cpu)
      ensures again ==> QueuedOn(loc, cpu) < QueuedOn(old(loc), cpu)
      ensures !again && t == 0 ==> NoneReady(loc, threads, cpu, 0)
      ensures !again && t != 0 ==> t in loc && loc[t] == InHand && threads[t].state.Runnable? && !threads[t].rebalance
    {
      t := TakeNext(cpu);
      ghost var taken := loc;
      WentMine(old(loc), taken, threads, cpu, t);
      again := false;
      if t != 0 {
        assert ThreadAt(W(), t, t);
        again := threads[t].rebalance;
        if again {
          RebalanceThread(t);
          SentAway(old(loc), taken, loc, cpu, t);
          WentMove(taken, loc, threads, cpu, t, OnList(Moving(threads[t].affinity)));
          WentCompose(old(loc), taken, loc, threads, cpu);
        }
        // `next` returns no waiting thread, so there is none to put back here.
        assert !threads[t].state.Waiting?;
      }
    }

    /** The loop of `schedule`: the next thread to run on this CPU, or 0. Threads that are to move to
        another CPU are sent there on the way. */
    method Pick(cpu: nat) returns (t: nat)
      requires Inv(0) && cpu < cpus
      modifies `next, `heads, `lists, `loc, `highest, `active, `signal, `logs
      ensures Inv(t) && Went(old(loc), loc, threads, cpu) && OthersKept(old(active), active, cpu)
      ensures t == 0 ==> NoneReady(loc, threads, cpu, 0)
      ensures t != 0 ==> t in loc && loc[t] == InHand && threads[t].state.Runnable? && !threads[t].rebalance
    {
      WentSame(loc, threads, cpu);
      var again := true;
      t := 0;
      while again
        invariant Inv(if again then 0 else t) && Went(old(loc), loc, threads, cpu)
        invariant OthersKept(old(active), active, cpu)
        invariant !again && t == 0 ==> NoneReady(loc, threads, cpu, 0)
        invariant !again && t != 0 ==>
                    t in loc && loc[t] == InHand && threads[t].state.Runnable? && !threads[t].rebalance
        decreases again, QueuedOn(loc, cpu)
      {
        ghost var before := loc;
        t, again := PickOne(cpu);
        WentCompose(old(loc), before, loc, threads, cpu);
      }
    }

    /** Make the thread in hand current; the idle thread goes back to its slot. */
    method SwitchFromIdle(cpu: nat, t: nat)
      requires Inv(t) && cpu < cpus && t in loc && loc[t] == InHand && current[cpu] == idleOf[cpu]
      modifies `loc, `current, `idle
      ensures Inv(0) && current == old(current)[cpu := t] && idle == old(idle)[cpu := idleOf[cpu]]
      ensures loc == old(loc)[t := Current(cpu)]
    {
      ghost var w := W();
      AgreeMove(lists, loc, t, Current(cpu));
      LoggedMove(logs, loc, loc[t := Current(cpu)], threads, threads, active, t);
      PlacedFromIdle(w, cpu, t);
      idle := idle[cpu := current[cpu]];
      current := current[cpu := t];
      loc := loc[t := Current(cpu)];
      assert W() == w.(loc := loc, current := current, idle := idle);
    }

    /** Make the thread in hand current, instead of another, which is in hand then. */
    method SwitchFrom(cpu: nat, t: nat)
      requires Inv(t) && cpu < cpus && t in loc && loc[t] == InHand && current[cpu] != idleOf[cpu]
      modifies `loc, `current
      ensures Inv(old(current)[cpu]) && current == old(current)[cpu := t]
      ensures var c := old(current)[cpu];
              c in old(loc) && old(loc)[c] == Current(cpu) && loc == old(loc)[t := Current(cpu)][c := InHand]
    {
      ghost var w := W();
      assert CpuAt(w, cpu);
      var c := current[cpu];
      PlacedSwitch(w, cpu, t);
      AgreeMove(lists, loc, t, Current(cpu));
      AgreeMove(lists, loc[t := Current(cpu)], c, InHand);
      LoggedMove(logs, loc, loc[t := Current(cpu)], threads, threads, active, t);
      LoggedMove(logs, loc[t := Current(cpu)], loc[t := Current(cpu)][c := InHand], threads, threads, active, c);
      current := current[cpu := t];
      loc := loc[t := Current(cpu)][c := InHand];
      assert W() == w.(loc := loc, current := current);
    }

    /** Make the thread in hand current; the old current thread is put on the passive queue, on the list of its
        priority, or in the idle slot if it is the idle thread. */
    method SwitchTo(cpu: nat, t: nat)
      requires Inv(t) && cpu < cpus && t in loc && loc[t] == InHand
      modifies `next, `heads, `lists, `loc, `highest, `current, `idle, `logs
      ensures Inv(0) && current == old(current)[cpu := t] && t != old(current)[cpu] && PutBack(cpu, old(current)[cpu])
      ensures Went(old(loc), loc, threads, cpu) && OthersKept(old(idle), idle, cpu)
    {
      var c := current[cpu];
      IsIdle(W(), t, cpu);
      assert CpuAt(W(), cpu);
      if threads[c].state.Idle? {
        SwitchFromIdle(cpu, t);
        WentMove(old(loc), loc, threads, cpu, t, Current(cpu));
      } else {
        SwitchAway(cpu, t, c);
      }
    }

    /** Make the thread in hand current, and put the thread `c` that was current on the passive queue. */
    method SwitchAway(cpu: nat, t: nat, c: nat)
      requires Inv(t) && cpu < cpus && t in loc && loc[t] == InHand && c == current[cpu] != idleOf[cpu]
      modifies `next, `heads, `lists, `loc, `highest, `current, `logs
      ensures Inv(0) && current == old(current)[cpu := t] && t != c && c in threads && c in loc
      ensures loc[c] == Home(threads, active, cpu, c) && Went(old(loc), loc, threads, cpu)
    {
      SwitchFrom(cpu, t);
      PutInPassive(cpu, c);
      WentTwo(old(loc), loc, threads, cpu, t, c, Home(threads, active, cpu, c));
    }

    /** The thread `c` that was current and no longer is, is on the list of its priority on the passive queue,
        unless it is the idle thread. */
    ghost predicate PutBack(cpu: nat, c: nat)
      reads `current, `idleOf, `threads, `loc, `active
    {
      && cpu < |current| == |idleOf| == |active| && c in threads && c in loc
      && (c != current[cpu] && c != idleOf[cpu] ==> loc[c] == Home(threads, active, cpu, c))
    }

    /** Make the idle thread current, from its slot; the slot is never empty here, so the panic of
        `get_idle_thread` cannot happen. The old current thread `c` is left in hand. */
    method TakeIdle(cpu: nat) returns (c: nat)
      requires Inv(0) && cpu < cpus && current[cpu] in threads && !threads[current[cpu]].state.Idle?
      modifies `loc, `current, `idle
      ensures Inv(c) && c == old(current)[cpu] && c in loc && loc == old(loc)[c := InHand]
      ensures old(idle)[cpu] == idleOf[cpu] != 0 && current == old(current)[cpu := idleOf[cpu]]
      ensures idle == old(idle)[cpu := 0] && old(loc)[c] == Current(cpu)
    {
      ghost var w := W();
      assert CpuAt(w, cpu);
      c := current[cpu];
      assert ThreadAt(w, 0, c);
      PlacedToIdle(w, cpu);
      AgreeMove(lists, loc, c, InHand);
      LoggedMove(logs, loc, loc[c := InHand], threads, threads, active, c);
      current := current[cpu := idle[cpu]];
      idle := idle[cpu := 0];
      loc := loc[c := InHand];
      assert W() == w.(loc := loc, current := current, idle := idle);
    }

    /** The CPU runs a Runnable thread; if that is still `c`, or the idle thread, nothing else queued here may
        run, and otherwise it is a thread that is not to be moved. */
    ghost predicate Settled(cpu: nat, c: nat)
      reads `current, `idleOf, `threads, `loc
    {
      && cpu < |current| == |idleOf| && current[cpu] in threads
      && (threads[current[cpu]].state.Runnable? || current[cpu] == idleOf[cpu])
      && (if current[cpu] == idleOf[cpu] || current[cpu] == c then NoneReady(loc, threads, cpu, c)
          else !threads[current[cpu]].rebalance)
    }

    /** Switch to the idle thread; the thread `c` that was current goes to the passive queue. */
    method GoIdle(cpu: nat, c: nat)
      requires Inv(0) && cpu < cpus && c == current[cpu] && c in threads && !threads[c].state.Idle?
      requires NoneReady(loc, threads, cpu, 0)
      modifies `next, `heads, `lists, `loc, `highest, `current, `idle, `logs
      ensures Inv(0) && c in loc && loc[c] == Home(threads, active, cpu, c) && NoneReady(loc, threads, cpu, c)
      ensures current == old(current)[cpu := idleOf[cpu]] && OthersKept(old(idle), idle, cpu)
      ensures Went(old(loc), loc, threads, cpu)
    {
      var d := TakeIdle(cpu);
      ghost var mid := loc;
      PutInPassive(cpu, d);
      StillNone(old(loc), mid, loc, threads, cpu, c);
      WentVia(old(loc), mid, loc, threads, cpu, c, Home(threads, active, cpu, c));
    }

    /** No thread was picked: switch to the idle thread if the current one cannot go on. */
    method StayOrIdle(cpu: nat)
      requires Inv(0) && cpu < cpus && NoneReady(loc, threads, cpu, 0)
      modifies `next, `heads, `lists, `loc, `highest, `current, `idle, `logs
      ensures Inv(0) && Settled(cpu, old(current)[cpu]) && PutBack(cpu, old(current)[cpu])
      ensures OthersKept(old(current), current, cpu) && OthersKept(old(idle), idle, cpu)
      ensures Went(old(loc), loc, threads, cpu)
    {
      var c := current[cpu];
      IsIdle(W(), 0, cpu);
      if !threads[c].state.Runnable? && !threads[c].state.Idle? {
        GoIdle(cpu, c);
      } else {
        WentSame(loc, threads, cpu);
      }
    }

    /** The end of `schedule`: switch to the thread that was picked, or to the idle thread when none
        was and the current thread cannot go on. */
    method Dispatch(cpu: nat, t: nat)
      requires Inv(t) && cpu < cpus
      requires t == 0 ==> NoneReady(loc, threads, cpu, 0)
      requires t != 0 ==> t in loc && loc[t] == InHand && threads[t].state.Runnable? && !threads[t].rebalance
      modifies `next, `heads, `lists, `loc, `highest, `current, `idle, `logs
      ensures Inv(0) && Settled(cpu, old(current)[cpu]) && PutBack(cpu, old(current)[cpu])
      ensures OthersKept(old(current), current, cpu) && OthersKept(old(idle), idle, cpu)
      ensures Went(old(loc), loc, threads, cpu)
    {
      if t == 0 {
        StayOrIdle(cpu);
      } else {
        SwitchTo(cpu, t);
        IsIdle(W(), 0, cpu);
      }
    }

    /** Accept the threads sent to this CPU: all of them, also when there is no signal. */
    method Accept(cpu: nat, ghost q: QueueId)
      requires Inv(0) && cpu < cpus && q == QueueId(cpu, !active[cpu])
      modifies `next, `heads, `lists, `loc, `highest, `signal, `threads, `logs
      ensures Inv(0) && Arrived(old(loc), old(threads), loc, threads, q) && Arriving(loc, cpu) == {}
    {
      if signal[cpu] {
        ProcessRbQueue(cpu, q);
      } else {
        ArrivedSame(loc, threads, q);
        Unsignalled(W(), cpu);
      }
    }

    /** `schedule` on one CPU: every thread sent to it is accepted, and afterwards the current thread is
        Runnable, or it is the idle thread and no thread that was queued here may run. A current thread that
        another displaces goes to the list of its priority. The current thread, the idle slot and the scheduling
        queues of the other CPUs are as they were; only their rebalance queues can have grown. */
    method Schedule(cpu: nat)
      requires Inv(0) && cpu < cpus
      modifies `next, `heads, `lists, `loc, `highest, `active, `signal, `threads, `current, `idle, `logs
      ensures Inv(0) && Settled(cpu, old(current)[cpu]) && PutBack(cpu, old(current)[cpu])
      ensures AllScheduled(old(loc), old(threads), loc, threads, cpu)
      ensures OthersKept(old(current), current, cpu) && OthersKept(old(idle), idle, cpu)
      ensures Elsewhere(old(loc), loc, cpu) && OthersKept(old(active), active, cpu)
    {
      EmptyHands(W());
      ghost var q := QueueId(cpu, !active[cpu]);
      Accept(cpu, q);
      ghost var arrived := loc;
      RunNext(cpu);
      Composed(old(loc), old(threads), arrived, q, cpu);
    }

    /** The rest of `schedule`: pick a thread and switch to it. */
    method RunNext(cpu: nat)
      requires Inv(0) && cpu < cpus
      modifies `next, `heads, `lists, `loc, `highest, `active, `signal, `current, `idle, `logs
      ensures Inv(0) && Settled(cpu, old(current)[cpu]) && PutBack(cpu, old(current)[cpu])
      ensures Went(old(loc), loc, threads, cpu)
      ensures OthersKept(old(current), current, cpu) && OthersKept(old(idle), idle, cpu)
      ensures OthersKept(old(active), active, cpu)
    {
      var t := Pick(cpu);
      ghost var picked := loc;
      Dispatch(cpu, t);
      WentCompose(old(loc), picked, loc, threads, cpu);
    }

    lemma Composed(loc0: map<nat, Loc>, threads0: map<nat, Thread>, mid: map<nat, Loc>, q: QueueId, cpu: nat)
      requires Inv(0) && q.cpu == cpu && NoneInHand(loc0) && Arrived(loc0, threads0, mid, threads, q)
      requires Arriving(mid, cpu) == {} && Went(mid, loc, threads, cpu)
      ensures AllScheduled(loc0, threads0, loc, threads, cpu) && Elsewhere(loc0, loc, cpu)
    {
      EmptyHands(W());
      AcceptedThenWent(loc0, threads0, mid, loc, threads, q, cpu);
      ElsewhereArrived(loc0, threads0, mid, threads, q);
      WentElsewhere(mid, loc, threads, cpu);
      ElsewhereCompose(loc0, mid, loc, cpu);
    }

    method NewThread() returns (t: nat)
      requires Inv(0) && 0 < cpus
      modifies `loc, `threads, `nextId
      ensures Inv(t) && t !in old(threads) && threads == old(threads)[t := Thread(Runnable, 0, 0, false)]
      ensures loc == old(loc)[t := InHand]
    {
      ghost var w := W();
      t := nextId;
      var th := Thread(Runnable, 0, 0, false);
      PlacedNew(w, t, th);
      AgreeNew(lists, loc, t);
      LoggedMove(logs, loc, loc[t := InHand], threads, threads[t := th], active, t);
      nextId := t + 1;
      threads := threads[t := th];
      loc := loc[t := InHand];
      assert W() == w.(loc := loc, threads := threads, nextId := nextId);
    }

    /** `create_thread` on one CPU. */
    method CreateThread(cpu: nat) returns (t: nat)
      requires Inv(0) && cpu < cpus
      modifies `next, `heads, `lists, `loc, `highest, `threads, `nextId, `logs
      ensures Inv(0) && t !in old(threads) && threads == old(threads)[t := Thread(Runnable, 0, 0, false)]
      ensures loc == old(loc)[t := Home(threads, active, cpu, t)]
    {
      t := NewThread();
      PutInPassive(cpu, t);
    }

    /** `set_state` accepts Waiting and Runnable only. */
    method SetState(t: nat, state: ThreadState)
      requires Inv(0) && t in threads && !threads[t].state.Idle?
      modifies `threads
      ensures Inv(0)
      ensures threads == if state.Waiting? || state.Runnable? then old(threads)[t := old(threads)[t].(state := state)]
                         else old(threads)
    {
      assert ThreadAt(W(), 0, t);
      if state.Waiting? || state.Runnable? {
        SetThread(t, threads[t].(state := state), 0);
      }
    }

    /** `set_priority`: a queued thread stays on the list it is on. */
    method SetPriority(t: nat, prio: nat)
      requires Inv(0) && t in threads && !threads[t].state.Idle?
      modifies `threads
      ensures Inv(0)
      ensures threads == if prio <= MAX_PRIO then old(threads)[t := old(threads)[t].(priority := prio)]
                         else old(threads)
    {
      assert ThreadAt(W(), 0, t);
      if prio <= MAX_PRIO {
        SetThread(t, threads[t].(priority := prio), 0);
      }
    }

    /** `set_affinity`: the thread will be moved the next time its CPU comes across it. Only the low 32
        bits are compared with the number of CPUs, so the machine stays in order exactly when the
        affinity is rejected or is the number of a CPU; otherwise there is no queue to move the thread to. */
    method SetAffinity(t: nat, affinity: nat)
      requires Inv(0) && t in threads && !threads[t].state.Idle?
      modifies `threads
      ensures threads == if affinity % U32 < cpus
                         then old(threads)[t := old(threads)[t].(affinity := affinity, rebalance := true,
                                                                 state := Rebalanced)]
                         else old(threads)
      ensures Inv(0) <==> (affinity % U32 < cpus ==> affinity < cpus)
      ensures affinity % U32 < cpus <= affinity ==> Moving(threads[t].affinity) !in heads
    {
      if affinity % U32 < cpus {
        var th := threads[t].(affinity := affinity, rebalance := true, state := Rebalanced);
        if affinity < cpus {
          SetThread(t, th, 0);
        } else {
          threads := threads[t := th];
          assert !ThreadAt(W(), 0, t);
        }
      }
    }

    // ---- What holds in every reachable state ----

    /** A thread is on at most one list, once, and then it is nobody's current thread: its one `next`
        link belongs to one list. */
    lemma OnePlace(s: Slot, s': Slot, i: nat, j: nat)
      requires Inv(0) && s in lists && s' in lists && i < |lists[s]| && j < |lists[s']| && lists[s][i] == lists[s'][j]
      ensures s == s' && i == j
      ensures forall c :: 0 <= c < cpus ==> current[c] != lists[s][i] && idle[c] != lists[s][i]
    {
      var t := lists[s][i];
      assert t in lists[s] && t in lists[s'];
      assert loc[t] == OnList(s) && loc[t] == OnList(s');
      Acyclic(next, heads[s], lists[s]);
      forall c | 0 <= c < cpus ensures current[c] != t && idle[c] != t {
        assert CpuAt(W(), c);
      }
    }

    /** A thread that is nobody's current thread and no idle thread is on some list, and no two CPUs
        have the same current thread. */
    lemma SomePlace(t: nat)
      requires Inv(0) && t in threads
      ensures || threads[t].state.Idle?
              || (exists c :: 0 <= c < cpus && current[c] == t)
              || (exists s :: s in lists && t in lists[s])
      ensures forall c, d :: 0 <= c < cpus && 0 <= d < cpus && current[c] == t && current[d] == t ==> c == d
    {
      var w := W();
      assert ThreadAt(w, 0, t);
      if loc[t].OnList? { assert t in lists[loc[t].slot]; }
      forall c, d | 0 <= c < cpus && 0 <= d < cpus && current[c] == t && current[d] == t ensures c == d {
        assert CpuAt(w, c) && CpuAt(w, d);
      }
    }

    /** Idle threads are never queued, and whenever another thread is current the idle slot is filled. */
    lemma IdleThread(c: nat)
      requires Inv(0) && c < cpus
      ensures |idleOf| == cpus && idleOf[c] in threads && threads[idleOf[c]].state.Idle?
      ensures forall s :: s in lists ==> idleOf[c] !in lists[s]
      ensures current[c] in threads && (!threads[current[c]].state.Idle? ==> idle[c] == idleOf[c] != 0)
    {
      var w := W();
      assert CpuAt(w, c);
      assert ThreadAt(w, 0, idleOf[c]);
      assert ThreadAt(w, 0, current[c]);
    }

    /** Over every run and on every CPU: as long as thread `x` stays queued and may run, `next` returns
        no other thread more than twice before it returns `x`. */
    lemma NoStarvation(c: nat, i: nat, j: nat, x: nat, u: nat)
      requires Inv(0) && c < cpus && i <= j <= |logs[c].events| && u != x
      requires forall k :: i <= k < j ==>
                 k < |logs[c].snaps| && Waits(logs[c].snaps[k], x) && !Returns(logs[c].events[k], x)
      ensures Returned(logs[c].events[i..j], u) <= 2
    {
      assert LoggedAt(logs, loc, threads, active, c);
      var snaps, events := logs[c].snaps, logs[c].events;
      AlwaysDisjoint(snaps, events, i);
      var s, e := snaps[i..j + 1], events[i..j];
      forall k | 0 <= k < |e| ensures Step(s[k], e[k], s[k + 1]) && Waits(s[k], x) && !Returns(e[k], x) {
        assert Step(snaps[i + k], events[i + k], snaps[i + k + 1]);
        assert Waits(snaps[i + k], x);
      }
      BoundedBypass(s, e, x, u);
    }

    /** Over every run and on every CPU: between two flips of its queues, `next` returns threads from
        lists of non-increasing priority, and leaves no thread behind on a higher list. */
    lemma PriorityRespected(c: nat, i: nat, j: nat)
      requires Inv(0) && c < cpus && i < j < |logs[c].events| && logs[c].events[i].Got? && logs[c].events[j].Got?
      requires forall k :: i < k <= j ==> k < |logs[c].snaps| && !Flips(logs[c].snaps[k], logs[c].events[k])
      ensures var now, e, first := logs[c].snaps[j].active, logs[c].events[j], logs[c].events[i];
              AtMost(now, first.prio) && e.thread in now && now[e.thread] == e.prio <= first.prio
    {
      assert LoggedAt(logs, loc, threads, active, c);
      PriorityOrder(logs[c].snaps, logs[c].events, i, j);
    }

    /** Over every run and on every CPU: a thread that `next` returns has a priority no lower than any thread it
        leaves on that queue, among threads whose priority was not changed since they were put. */
    lemma PrioritiesServed(c: nat, t: nat, i: nat, u: nat, k: nat, j: nat)
      requires Inv(0) && c < cpus && i <= j < |logs[c].events| && k <= j
      requires j + 1 < |logs[c].snaps| && Returns(logs[c].events[j], t) && u in logs[c].snaps[j + 1].active
      requires t !in logs[c].snaps[i].active && t !in logs[c].snaps[i].passive
      requires u !in logs[c].snaps[k].active && u !in logs[c].snaps[k].passive
      requires forall l :: i <= l <= j ==> SamePrio(logs[c].snaps[i], logs[c].snaps[l], t)
      requires forall l :: k <= l <= j ==> SamePrio(logs[c].snaps[k], logs[c].snaps[l], u)
      ensures var s := logs[c].snaps[j]; t in s.prio && u in s.prio && s.prio[u] <= s.prio[t]
    {
      assert LoggedAt(logs, loc, threads, active, c);
      PriorityServed(logs[c].snaps, logs[c].events, t, i, u, k, j);
    }
  }
}
