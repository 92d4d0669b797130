/** The reader-writer spin lock: one atomic word, any number of threads.

    Every atomic read-modify-write of the word is one action. What a thread holds, or is in the
    middle of acquiring or giving back, is recorded under an identifier of its own, so a run of
    actions is an arbitrary interleaving of any number of threads and guards. */
module RwLock {
  import opened Collections
  import opened Common

  const WRITER: nat := 1
  const UPGRADED: nat := 2
  const READER: nat := 4
  const WORD: nat := 0x1_0000_0000_0000_0000

  datatype Phase =
    | Undoing                  // `try_read` added READER, saw the lock taken, has yet to subtract
    | Reading                  // a read guard
    | Upgradeable              // an upgradeable guard
    | UpgradeableDowngrading   // READER already added, UPGRADED not yet dropped
    | Writing                  // a write guard
    | WritingDowngrading       // READER already added, WRITER not yet dropped

  datatype State = State(word: nat, held: map<nat, Phase>)

  const INIT := State(0, map[])

  /** `spurious` marks a compare-exchange that is allowed to fail although the word matched. */
  datatype Action =
    | TryRead(id: nat)
    | UndoRead(id: nat)
    | DropRead(id: nat)
    | TryUpgradeableRead(id: nat)
    | DropUpgradeable(id: nat)
    | TryUpgrade(id: nat, spurious: bool)
    | DowngradeUpgradeable(id: nat)
    | TryWrite(id: nat, spurious: bool)
    | DropWrite(id: nat)
    | DowngradeWrite(id: nat)

  function FetchAdd(w: nat, k: nat): nat { (w + k) % WORD }

  function FetchSub(w: nat, k: nat): nat requires k <= WORD { (w + WORD - k) % WORD }

  /** `word & (WRITER | UPGRADED)`. */
  function LockBits(w: nat): nat { w % 4 }

  /** `fetch_or(UPGRADED)`. */
  function FetchOrUpgraded(w: nat): nat { if (w / 2) % 2 == 1 then w else w + UPGRADED }

  /** `fetch_and(!(WRITER | UPGRADED))`. */
  function FetchClearLockBits(w: nat): nat { w - w % 4 }

  predicate In(s: State, id: nat, phases: set<Phase>) {
    id in s.held && s.held[id] in phases
  }

  /** One atomic operation, or None when the thread is not at that point of the code. */
  function Step(s: State, a: Action): Option<State> {
    match a
    case TryRead(id) =>
      if id in s.held then None
      else Some(State(FetchAdd(s.word, READER),
                      s.held[id := if LockBits(s.word) != 0 then Undoing else Reading]))
    case UndoRead(id) =>
      if In(s, id, {Undoing}) then Some(State(FetchSub(s.word, READER), s.held - {id})) else None
    case DropRead(id) =>
      if In(s, id, {Reading}) then Some(State(FetchSub(s.word, READER), s.held - {id})) else None
    case TryUpgradeableRead(id) =>
      if id in s.held then None
      else if LockBits(s.word) == 0 then Some(State(FetchOrUpgraded(s.word), s.held[id := Upgradeable]))
      else Some(State(FetchOrUpgraded(s.word), s.held))
    case DropUpgradeable(id) =>
      if In(s, id, {Upgradeable}) then Some(State(FetchSub(s.word, UPGRADED), s.held - {id}))
      else if In(s, id, {UpgradeableDowngrading}) then
        Some(State(FetchSub(s.word, UPGRADED), s.held[id := Reading]))
      else None
    case TryUpgrade(id, spurious) =>
      if !In(s, id, {Upgradeable}) then None
      else if s.word == UPGRADED && !spurious then Some(State(WRITER, s.held[id := Writing]))
      else Some(s)
    case DowngradeUpgradeable(id) =>
      if In(s, id, {Upgradeable}) then
        Some(State(FetchAdd(s.word, READER), s.held[id := UpgradeableDowngrading]))
      else None
    case TryWrite(id, spurious) =>
      if id in s.held then None
      else if s.word == 0 && !spurious then Some(State(WRITER, s.held[id := Writing]))
      else Some(s)
    case DropWrite(id) =>
      if In(s, id, {Writing}) then Some(State(FetchClearLockBits(s.word), s.held - {id}))
      else if In(s, id, {WritingDowngrading}) then
        Some(State(FetchClearLockBits(s.word), s.held[id := Reading]))
      else None
    case DowngradeWrite(id) =>
      if In(s, id, {Writing}) then
        Some(State(FetchAdd(s.word, READER), s.held[id := WritingDowngrading]))
      else None
  }

  predicate IsStep(s: State, a: Action, s': State) {
    Step(s, a) == Some(s')
  }

  ghost predicate Next(s: State, s': State) {
    exists a :: IsStep(s, a, s')
  }

  /** A run of the lock from its initial state, each state joined to the next by an action. */
  ghost predicate IsRun(run: seq<State>) {
    && |run| > 0 && run[0] == INIT
    && forall i :: 0 < i < |run| ==> Next(run[i - 1], run[i])
  }

  // ---- Counting ----

  /** What a phase counts as: a READER unit in the word, a writer, an upgradeable guard, or a
      settled read guard. */
  datatype Kind = Counted | Writer | Upgrader | Reader

  predicate Is(p: Phase, k: Kind) {
    match k
    case Counted => p.Undoing? || p.Reading? || p.UpgradeableDowngrading? || p.WritingDowngrading?
    case Writer => p.Writing? || p.WritingDowngrading?
    case Upgrader => p.Upgradeable? || p.UpgradeableDowngrading?
    case Reader => p.Reading?
  }

  ghost function Ids(held: map<nat, Phase>, k: Kind): set<nat> {
    set id | id in held && Is(held[id], k)
  }

  ghost function Count(held: map<nat, Phase>, k: Kind): nat {
    |Ids(held, k)|
  }

  ghost function Bit(b: bool): nat { if b then 1 else 0 }

  lemma CountAdd(held: map<nat, Phase>, id: nat, p: Phase, k: Kind)
    requires id !in held
    ensures Count(held[id := p], k) == Count(held, k) + Bit(Is(p, k))
  {
    var was, now := Ids(held, k), Ids(held[id := p], k);
    assert now == if Is(p, k) then was + {id} else was;
  }

  lemma CountPut(held: map<nat, Phase>, id: nat, p: Phase, k: Kind)
    ensures Count(held[id := p], k) == Count(held, k) - Bit(id in held && Is(held[id], k)) + Bit(Is(p, k))
  {
    if id in held {
      CountDrop(held, id, k);
      CountAdd(held - {id}, id, p, k);
      assert (held - {id})[id := p] == held[id := p];
    } else {
      CountAdd(held, id, p, k);
    }
  }

  lemma CountDrop(held: map<nat, Phase>, id: nat, k: Kind)
    requires id in held
    ensures Count(held - {id}, k) == Count(held, k) - Bit(Is(held[id], k))
  {
    var was, now := Ids(held, k), Ids(held - {id}, k);
    assert now == was - {id};
  }

  lemma AtMostOne(held: map<nat, Phase>, k: Kind, i: nat, j: nat)
    requires Count(held, k) <= 1
    requires i in held && Is(held[i], k) && j in held && Is(held[j], k)
    ensures i == j
  {
    SubsetSize({i, j}, Ids(held, k));
  }

  lemma AtLeastOne(held: map<nat, Phase>, k: Kind, i: nat)
    requires i in held && Is(held[i], k)
    ensures Count(held, k) >= 1
  {
    SubsetSize({i}, Ids(held, k));
  }

  lemma ReadersCounted(held: map<nat, Phase>)
    ensures Count(held, Reader) <= Count(held, Counted)
  {
    SubsetSize(Ids(held, Reader), Ids(held, Counted));
  }

  // ---- The invariant ----

  /** Fewer readers than the word has room to count. */
  ghost predicate Fits(s: State) {
    READER * Count(s.held, Counted) + 3 < WORD
  }

  /** The word is the writer bit, the upgrade bit `flag` and the number of readers; the upgrade
      bit is set only while an upgradeable guard or a writer exists; a writer excludes readers. */
  ghost predicate Balanced(s: State, flag: nat) {
    var writers := Count(s.held, Writer);
    var upgraders := Count(s.held, Upgrader);
    && flag <= 1
    && writers + upgraders <= 1
    && s.word == writers + UPGRADED * flag + READER * Count(s.held, Counted)
    && upgraders <= flag <= writers + upgraders
    && (writers == 1 ==> Count(s.held, Reader) == 0)
  }

  ghost predicate Inv(s: State) {
    Balanced(s, (s.word / 2) % 2)
  }

  lemma BalancedInv(s: State, flag: nat)
    requires Balanced(s, flag)
    ensures Inv(s)
    ensures s.word % 4 == Count(s.held, Writer) + 2 * flag
  {
  }

  lemma InitInv()
    ensures Inv(INIT)
  {
  }

  lemma PutCounts(held: map<nat, Phase>, id: nat, p: Phase)
    ensures forall k :: Count(held[id := p], k) == Count(held, k) - Bit(id in held && Is(held[id], k)) + Bit(Is(p, k))
  {
    forall k { CountPut(held, id, p, k); }
  }

  lemma DropCounts(held: map<nat, Phase>, id: nat)
    requires id in held
    ensures forall k :: Count(held - {id}, k) == Count(held, k) - Bit(Is(held[id], k))
  {
    forall k { CountDrop(held, id, k); }
  }

  lemma ReadSteps(s: State, a: Action, s': State, flag: nat)
    requires a.TryRead? || a.UndoRead? || a.DropRead?
    requires Balanced(s, flag) && Step(s, a) == Some(s') && Fits(s) && Fits(s')
    ensures Balanced(s', flag)
  {
    BalancedInv(s, flag);
    if a.TryRead? { PutCounts(s.held, a.id, s'.held[a.id]); } else { DropCounts(s.held, a.id); }
  }

  lemma TryUpgradeableStep(s: State, id: nat, s': State, flag: nat)
    requires Balanced(s, flag) && Step(s, TryUpgradeableRead(id)) == Some(s')
    ensures Balanced(s', 1)
  {
    BalancedInv(s, flag);
    PutCounts(s.held, id, Upgradeable);
  }

  /** Both compare-exchanges that make a writer: from 0, or from UPGRADED by the one upgrader. */
  lemma BecomeWriter(s: State, id: nat, flag: nat)
    requires Balanced(s, flag)
    requires if id in s.held then s.held[id].Upgradeable? && s.word == UPGRADED else s.word == 0
    ensures Balanced(State(WRITER, s.held[id := Writing]), 0)
  {
    if id in s.held { AtLeastOne(s.held, Upgrader, id); }
    PutCounts(s.held, id, Writing);
    ReadersCounted(s.held);
  }

  lemma DowngradeSteps(s: State, a: Action, s': State, flag: nat)
    requires a.DowngradeUpgradeable? || a.DowngradeWrite?
    requires Balanced(s, flag) && Step(s, a) == Some(s') && Fits(s')
    ensures Balanced(s', flag)
  {
    PutCounts(s.held, a.id, s'.held[a.id]);
  }

  lemma DropUpgradeableStep(s: State, id: nat, s': State, flag: nat)
    requires Balanced(s, flag) && Step(s, DropUpgradeable(id)) == Some(s') && Fits(s)
    ensures Balanced(s', 0)
  {
    AtLeastOne(s.held, Upgrader, id);
    if s.held[id].Upgradeable? { DropCounts(s.held, id); } else { PutCounts(s.held, id, Reading); }
  }

  lemma DropWriteStep(s: State, id: nat, s': State, flag: nat)
    requires Balanced(s, flag) && Step(s, DropWrite(id)) == Some(s') && Fits(s)
    ensures Balanced(s', 0)
  {
    BalancedInv(s, flag);
    AtLeastOne(s.held, Writer, id);
    if s.held[id].Writing? { DropCounts(s.held, id); } else { PutCounts(s.held, id, Reading); }
  }

  lemma StepFits(s: State, a: Action, s': State)
    requires Inv(s) && Step(s, a) == Some(s') && Fits(s) && Fits(s')
    ensures Inv(s')
  {
    var flag := (s.word / 2) % 2;
    match a
    case TryRead(_) => ReadSteps(s, a, s', flag); BalancedInv(s', flag);
    case UndoRead(_) => ReadSteps(s, a, s', flag); BalancedInv(s', flag);
    case DropRead(_) => ReadSteps(s, a, s', flag); BalancedInv(s', flag);
    case TryUpgradeableRead(id) => TryUpgradeableStep(s, id, s', flag); BalancedInv(s', 1);
    case DropUpgradeable(id) => DropUpgradeableStep(s, id, s', flag); BalancedInv(s', 0);
    case TryUpgrade(id, _) => if s' != s { BecomeWriter(s, id, flag); BalancedInv(s', 0); }
    case DowngradeUpgradeable(_) => DowngradeSteps(s, a, s', flag); BalancedInv(s', flag);
    case TryWrite(id, _) => if s' != s { BecomeWriter(s, id, flag); BalancedInv(s', 0); }
    case DropWrite(id) => DropWriteStep(s, id, s', flag); BalancedInv(s', 0);
    case DowngradeWrite(_) => DowngradeSteps(s, a, s', flag); BalancedInv(s', flag);
  }

  /** An atomic step keeps the invariant exactly when the reader count it leads to fits the word. */
  lemma StepInv(s: State, a: Action, s': State)
    requires Inv(s) && Fits(s) && Step(s, a) == Some(s')
    ensures Inv(s') <==> Fits(s')
  {
    if Fits(s') { StepFits(s, a, s'); }
    assert s.word < WORD && s'.word < WORD;
  }

  // ---- Whole runs ----

  /** The invariant holds in every state of every run whose reader count fits the word. */
  lemma {:induction false} RunInv(run: seq<State>, i: nat)
    requires IsRun(run) && i < |run| && forall j :: 0 <= j < |run| ==> Fits(run[j])
    ensures Inv(run[i])
    decreases i
  {
    if i == 0 {
      InitInv();
    } else {
      RunInv(run, i - 1);
      assert Next(run[i - 1], run[i]);
      var a :| IsStep(run[i - 1], a, run[i]);
      assert Fits(run[i - 1]) && Fits(run[i]);
      StepInv(run[i - 1], a, run[i]);
    }
  }

  predicate IsGuard(p: Phase) { !p.Undoing? }

  /** Mutual exclusion over every run: a write guard is the only guard, and an upgradeable guard
      is the only one of its kind and never meets a writer. */
  lemma Exclusion(run: seq<State>, n: nat, i: nat, j: nat)
    requires IsRun(run) && n < |run| && forall k :: 0 <= k < |run| ==> Fits(run[k])
    requires i != j && i in run[n].held && j in run[n].held
    ensures run[n].held[i].Writing? ==> !IsGuard(run[n].held[j])
    ensures Is(run[n].held[i], Upgrader) ==> !Is(run[n].held[j], Upgrader) && !Is(run[n].held[j], Writer)
  {
    RunInv(run, n);
    var held := run[n].held;
    forall k | Is(held[i], k) { AtLeastOne(held, k, i); }
    forall k | Is(held[j], k) { AtLeastOne(held, k, j); }
    if Is(held[i], Writer) && Is(held[j], Writer) { AtMostOne(held, Writer, i, j); }
    if Is(held[i], Upgrader) && Is(held[j], Upgrader) { AtMostOne(held, Upgrader, i, j); }
  }

  /** When every guard is gone and every failed attempt undone, the word is free again. */
  lemma Released(run: seq<State>, n: nat)
    requires IsRun(run) && n < |run| && forall k :: 0 <= k < |run| ==> Fits(run[k])
    requires run[n].held == map[]
    ensures run[n].word == 0
  {
    RunInv(run, n);
  }

  /** While an upgradeable guard or a writer exists, every attempt to acquire fails. */
  lemma NoNewGuards(run: seq<State>, n: nat, i: nat, a: Action, s': State)
    requires IsRun(run) && n < |run| && forall k :: 0 <= k < |run| ==> Fits(run[k])
    requires i in run[n].held && (Is(run[n].held[i], Upgrader) || Is(run[n].held[i], Writer))
    requires Step(run[n], a) == Some(s')
    requires a.TryRead? || a.TryWrite? || a.TryUpgradeableRead?
    ensures a.id in s'.held ==> s'.held[a.id].Undoing?
  {
    RunInv(run, n);
    var s := run[n];
    AtLeastOne(s.held, if Is(s.held[i], Writer) then Writer else Upgrader, i);
    BalancedInv(s, (s.word / 2) % 2);
  }

  lemma NoneIs(held: map<nat, Phase>, k: Kind)
    ensures Count(held, k) == 0 <==> forall i :: i in held ==> !Is(held[i], k)
  {
    forall i | i in held && Is(held[i], k) { AtLeastOne(held, k, i); }
    if forall i :: i in held ==> !Is(held[i], k) { assert Ids(held, k) == {}; }
  }

  /** What the word says about who is there, in every state of every run. */
  lemma WordTells(run: seq<State>, n: nat)
    requires IsRun(run) && n < |run| && forall k :: 0 <= k < |run| ==> Fits(run[k])
    ensures var s := run[n];
            && (LockBits(s.word) == 0 <==>
                forall i :: i in s.held ==> !Is(s.held[i], Writer) && !Is(s.held[i], Upgrader))
            && (s.word == 0 <==> s.held == map[])
            && (forall i {:trigger s.held[i]} :: i in s.held && s.held[i].Upgradeable? ==>
                  (s.word == UPGRADED <==> forall j :: j in s.held ==> !Is(s.held[j], Counted)))
  {
    RunInv(run, n);
    var s := run[n];
    BalancedInv(s, (s.word / 2) % 2);
    NoneIs(s.held, Writer);
    NoneIs(s.held, Upgrader);
    NoneIs(s.held, Counted);
    assert forall p :: Is(p, Writer) || Is(p, Upgrader) || Is(p, Counted);
    forall i | i in s.held && s.held[i].Upgradeable?
      ensures s.word == UPGRADED <==> forall j :: j in s.held ==> !Is(s.held[j], Counted)
    {
      AtLeastOne(s.held, Upgrader, i);
    }
  }

  /** When the attempts to acquire succeed, in every state of every run: an upgrade when no reader and no read
      attempt is left, a write when nobody is there at all, a read or an upgradeable read when there is no writer
      and no upgradeable guard. An attempt that fails leaves the guards as they were. */
  lemma Acquires(run: seq<State>, n: nat, a: Action, s': State)
    requires IsRun(run) && n < |run| && forall k :: 0 <= k < |run| ==> Fits(run[k])
    requires Step(run[n], a) == Some(s')
    ensures var held := run[n].held;
            var quiet := forall i :: i in held ==> !Is(held[i], Writer) && !Is(held[i], Upgrader);
            && (a.TryRead? ==> a.id !in held && s'.held == held[a.id := if quiet then Reading else Undoing])
            && (a.TryUpgradeableRead? ==>
                  a.id !in held && s'.held == if quiet then held[a.id := Upgradeable] else held)
            && (a.TryWrite? ==>
                  a.id !in held && s'.held == if !a.spurious && held == map[] then map[a.id := Writing] else held)
            && (a.TryUpgrade? ==>
                  && a.id in held && held[a.id].Upgradeable?
                  && s'.held == if !a.spurious && (forall i :: i in held ==> !Is(held[i], Counted))
                                then held[a.id := Writing] else held)
  {
    WordTells(run, n);
  }

  /** What giving up a guard does: a downgrade counts the reader first and gives up the rest after. */
  lemma Releases(run: seq<State>, n: nat, a: Action, s': State)
    requires IsRun(run) && n < |run| && Step(run[n], a) == Some(s')
    requires !a.TryRead? && !a.TryUpgradeableRead? && !a.TryWrite? && !a.TryUpgrade?
    ensures a.id in run[n].held
    ensures var held, p := run[n].held, run[n].held[a.id];
            s'.held == match p
                       case UpgradeableDowngrading => held[a.id := Reading]
                       case WritingDowngrading => held[a.id := Reading]
                       case Upgradeable =>
                         if a.DowngradeUpgradeable? then held[a.id := UpgradeableDowngrading] else held - {a.id}
                       case Writing => if a.DowngradeWrite? then held[a.id := WritingDowngrading] else held - {a.id}
                       case _ => held - {a.id}
  {
  }

  /** No thread is ever without a next step: what it holds it can give up, and what it does not hold it can try for. */
  lemma Enabled(s: State, id: nat)
    ensures id !in s.held ==>
              && Step(s, TryRead(id)).Some? && Step(s, TryUpgradeableRead(id)).Some?
              && forall spurious :: Step(s, TryWrite(id, spurious)).Some?
    ensures id in s.held ==>
              match s.held[id]
              case Undoing => Step(s, UndoRead(id)).Some?
              case Reading => Step(s, DropRead(id)).Some?
              case Upgradeable =>
                && Step(s, DropUpgradeable(id)).Some? && Step(s, DowngradeUpgradeable(id)).Some?
                && forall spurious :: Step(s, TryUpgrade(id, spurious)).Some?
              case UpgradeableDowngrading => Step(s, DropUpgradeable(id)).Some?
              case Writing => Step(s, DropWrite(id)).Some? && Step(s, DowngradeWrite(id)).Some?
              case WritingDowngrading => Step(s, DropWrite(id)).Some?
  {
  }

  lemma GuardBits(s: State, i: nat)
    requires Inv(s) && i in s.held
    ensures s.held[i].Reading? ==> s.word - LockBits(s.word) > 0
    ensures Is(s.held[i], Upgrader) ==> LockBits(s.word) == UPGRADED
    ensures Is(s.held[i], Writer) ==> s.word % 2 == WRITER
  {
    BalancedInv(s, (s.word / 2) % 2);
    if s.held[i].Reading? { AtLeastOne(s.held, Counted, i); }
    if Is(s.held[i], Upgrader) { AtLeastOne(s.held, Upgrader, i); }
    if Is(s.held[i], Writer) { AtLeastOne(s.held, Writer, i); }
  }

  /** The debug assertions of the three guard destructors hold. */
  lemma DropAssertions(run: seq<State>, n: nat, i: nat)
    requires IsRun(run) && n < |run| && forall k :: 0 <= k < |run| ==> Fits(run[k])
    requires i in run[n].held
    ensures run[n].held[i].Reading? ==> run[n].word - LockBits(run[n].word) > 0
    ensures Is(run[n].held[i], Upgrader) ==> LockBits(run[n].word) == UPGRADED
    ensures Is(run[n].held[i], Writer) ==> run[n].word % 2 == WRITER
  {
    RunInv(run, n);
    GuardBits(run[n], i);
  }

  // ---- The bound on readers is needed ----

  ghost function Readers(n: nat): State {
    State((READER * n) % WORD, ReadersHeld(n))
  }

  ghost function ReadersHeld(n: nat): (held: map<nat, Phase>)
    ensures forall id: nat :: id in held <==> id < n
    ensures forall id :: id in held ==> held[id].Reading?
  {
    if n == 0 then map[] else ReadersHeld(n - 1)[n - 1 := Reading]
  }

  lemma ReaderWord(n: nat)
    ensures LockBits((READER * n) % WORD) == 0
    ensures FetchAdd((READER * n) % WORD, READER) == (READER * (n + 1)) % WORD
  {
    var q, r := (4 * n) / WORD, (4 * n) % WORD;
    assert r % 4 == 0;
    assert 4 * (n + 1) == q * WORD + (r + 4);
  }

  /** With n readers in and nobody else, one more reader gets in. */
  lemma OneMoreReader(n: nat)
    ensures Step(Readers(n), TryRead(n)) == Some(Readers(n + 1))
  {
    ReaderWord(n);
  }

  lemma {:induction false} ReadersRun(n: nat) returns (run: seq<State>)
    ensures IsRun(run) && |run| == n + 1 && run[n] == Readers(n)
  {
    if n == 0 {
      run := [INIT];
    } else {
      var before := ReadersRun(n - 1);
      OneMoreReader(n - 1);
      assert IsStep(Readers(n - 1), TryRead(n - 1), Readers(n));
      run := before + [Readers(n)];
    }
  }

  /** Beside `n` readers and nobody else a writer gets in exactly when the reader count has wrapped round to 0. */
  lemma WriterBesideReaders(n: nat, s': State)
    requires Step(Readers(n), TryWrite(n, false)) == Some(s')
    ensures n in s'.held <==> n % (WORD / READER) == 0
  {
    assert (READER * n) % WORD == READER * (n % (WORD / READER));
  }

  /** 2^62 readers wrap the word round to 0, and then a writer gets in beside them. */
  lemma OverflowBreaksExclusion() returns (run: seq<State>, w: nat)
    ensures IsRun(run)
    ensures var s := run[|run| - 1]; w in s.held && s.held[w].Writing? && w != 0 && 0 in s.held && s.held[0].Reading?
  {
    w := WORD / READER;
    var before := ReadersRun(w);
    var s := Readers(w);
    var s' := State(WRITER, s.held[w := Writing]);
    assert IsStep(s, TryWrite(w, false), s');
    run := before + [s'];
  }
}
