/** Four-level page tables as they sit in memory, and the translation they define. */
module PageTables {
  import opened Common

  const PAGE: nat := 0x1000
  const LARGE_PAGE: nat := 0x20_0000
  const HUGE_PAGE: nat := 0x4000_0000
  const PML4_SLOT: nat := 0x80_0000_0000
  /** End of the addresses a four-level table can describe: 2^48. */
  const TOP: nat := 0x1_0000_0000_0000
  const ENTRIES: nat := 512

  datatype Flags = Flags(rw: bool, us: bool, xd: bool, pcd: bool)

  /** `page` is the PS bit: in a PDPT or a PD it makes the entry a leaf. */
  datatype Entry = Entry(addr: nat, present: bool, page: bool, flags: Flags)

  const EMPTY := Entry(0, false, false, Flags(false, false, false, false))

  type Idx = i: nat | i < ENTRIES

  type Table = s: seq<Entry> | |s| == ENTRIES witness seq(ENTRIES, _ => EMPTY)

  /** Physical memory, as far as it holds tables. */
  type Tables = map<nat, Table>

  /** A frame fresh from the allocator, which zeroes it. */
  function Zeroed(): (t: Table)
    ensures forall i: Idx :: t[i] == EMPTY
  {
    seq(ENTRIES, _ => EMPTY)
  }

  function Pml4Index(v: nat): Idx { (v / PML4_SLOT) % ENTRIES }
  function PdptIndex(v: nat): Idx { (v / HUGE_PAGE) % ENTRIES }
  function PdIndex(v: nat): Idx { (v / LARGE_PAGE) % ENTRIES }
  function PtIndex(v: nat): Idx { (v / PAGE) % ENTRIES }

  /** `resolve_addr`. */
  function ResolveAddr(tables: Tables, pml4: nat, v: nat): Option<nat> {
    if pml4 !in tables then None else
    var e4 := tables[pml4][Pml4Index(v)];
    if !e4.present || e4.addr !in tables then None else
    var e3 := tables[e4.addr][PdptIndex(v)];
    if !e3.present then None
    else if e3.page then Some(e3.addr + v % HUGE_PAGE)
    else if e3.addr !in tables then None else
    var e2 := tables[e3.addr][PdIndex(v)];
    if !e2.present then None
    else if e2.page then Some(e2.addr + v % LARGE_PAGE)
    else if e2.addr !in tables then None else
    var e1 := tables[e2.addr][PtIndex(v)];
    if !e1.present then None else Some(e1.addr + v % PAGE)
  }

  // ---- Walks ----

  /** The four indices of an address, from the PML4 down. */
  type Path = p: seq<Idx> | |p| == 4 witness [0, 0, 0, 0]

  function PathOf(v: nat): Path {
    [Pml4Index(v), PdptIndex(v), PdIndex(v), PtIndex(v)]
  }

  /** An entry at this depth (0 for the PML4, 3 for a page table) that leads to a further table. */
  predicate IsLink(e: Entry, depth: nat) {
    e.present && depth < 3 && (depth == 0 || !e.page)
  }

  /** An entry that translates. */
  predicate IsLeaf(e: Entry, depth: nat) {
    e.present && (depth == 3 || (0 < depth < 3 && e.page))
  }

  /** The table reached by following the first `depth` indices of a path. */
  ghost function Walk(tables: Tables, pml4: nat, p: Path, depth: nat): (r: Option<nat>)
    requires depth <= 3
    ensures r.Some? ==> r.value in tables
  {
    if depth == 0 then
      if pml4 in tables then Some(pml4) else None
    else
      match Walk(tables, pml4, p, depth - 1)
      case None => None
      case Some(t) =>
        var e := tables[t][p[depth - 1]];
        if IsLink(e, depth - 1) && e.addr in tables then Some(e.addr) else None
  }

  /** The entry read at this depth. */
  ghost function Read(tables: Tables, pml4: nat, p: Path, depth: nat): Option<Entry>
    requires depth <= 3
  {
    match Walk(tables, pml4, p, depth)
    case None => None
    case Some(t) => Some(tables[t][p[depth]])
  }

  /** The leaf a path ends in, with its depth. */
  datatype Leaf = Leaf(entry: Entry, depth: nat)

  ghost predicate LeafAt(tables: Tables, pml4: nat, p: Path, depth: nat)
    requires depth <= 3
  {
    var e := Read(tables, pml4, p, depth);
    e.Some? && IsLeaf(e.value, depth)
  }

  ghost function FindLeaf(tables: Tables, pml4: nat, p: Path): Option<Leaf> {
    if LeafAt(tables, pml4, p, 1) then Some(Leaf(Read(tables, pml4, p, 1).value, 1))
    else if LeafAt(tables, pml4, p, 2) then Some(Leaf(Read(tables, pml4, p, 2).value, 2))
    else if LeafAt(tables, pml4, p, 3) then Some(Leaf(Read(tables, pml4, p, 3).value, 3))
    else None
  }

  // ---- Tables form a tree ----

  /** Where every table hangs: the indices that lead to it. */
  type Places = map<nat, seq<Idx>>

  ghost predicate HangsFrom(tables: Tables, place: Places, child: nat, t: nat)
    requires child in place
  {
    var at := place[child];
    && t in tables && t in place && 0 < |at| && place[t] == at[..|at| - 1]
    && IsLink(tables[t][at[|at| - 1]], |at| - 1) && tables[t][at[|at| - 1]].addr == child
  }

  ghost predicate Hangs(tables: Tables, place: Places, child: nat)
    requires child in place
  {
    exists t :: HangsFrom(tables, place, child, t)
  }

  ghost predicate LinksDown(tables: Tables, place: Places, t: nat, i: Idx)
    requires t in tables && t in place
  {
    var e := tables[t][i];
    IsLink(e, |place[t]|) ==> e.addr in tables && e.addr in place && place[e.addr] == place[t] + [i]
  }

  /** Every link leads to the one table that hangs there, and every table but the root hangs from
      a link: no table is shared and none is lost. */
  ghost predicate Tree(tables: Tables, pml4: nat, place: Places) {
    && place.Keys == tables.Keys
    && pml4 in tables && place[pml4] == []
    && (forall t, u :: t in tables && u in tables && place[t] == place[u] ==> t == u)
    && (forall t :: t in tables ==> |place[t]| <= 3)
    && (forall t, i: Idx :: t in tables ==> LinksDown(tables, place, t, i))
    && (forall u {:trigger Hangs(tables, place, u)} :: u in tables && u != pml4 ==> Hangs(tables, place, u))
  }

  lemma {:induction false} WalkPlace(tables: Tables, pml4: nat, place: Places, p: Path, depth: nat)
    requires Tree(tables, pml4, place) && depth <= 3
    ensures var w := Walk(tables, pml4, p, depth); w.Some? ==> place[w.value] == p[..depth]
  {
    if depth > 0 {
      WalkPlace(tables, pml4, place, p, depth - 1);
      var up := Walk(tables, pml4, p, depth - 1);
      if up.Some? {
        assert LinksDown(tables, place, up.value, p[depth - 1]);
        assert p[..depth] == p[..depth - 1] + [p[depth - 1]];
      }
    }
  }

  /** Paths that start alike read the same tables. */
  lemma {:induction false} WalkShared(tables: Tables, pml4: nat, p: Path, q: Path, depth: nat)
    requires depth <= 3 && p[..depth] == q[..depth]
    ensures Walk(tables, pml4, p, depth) == Walk(tables, pml4, q, depth)
  {
    if depth > 0 {
      assert p[..depth - 1] == p[..depth][..depth - 1] == q[..depth - 1];
      assert p[depth - 1] == p[..depth][depth - 1] == q[depth - 1];
      WalkShared(tables, pml4, p, q, depth - 1);
    }
  }

  lemma {:induction false} AboveIsLink(tables: Tables, pml4: nat, p: Path, depth: nat, d: nat)
    requires d < depth <= 3 && Walk(tables, pml4, p, depth).Some?
    ensures Read(tables, pml4, p, d).Some? && IsLink(Read(tables, pml4, p, d).value, d)
  {
    if d + 1 < depth { AboveIsLink(tables, pml4, p, depth - 1, d); }
  }

  lemma {:induction false} BelowIsNone(tables: Tables, pml4: nat, p: Path, depth: nat, d: nat)
    requires depth < d <= 3
    requires Read(tables, pml4, p, depth).Some? && !IsLink(Read(tables, pml4, p, depth).value, depth)
    ensures Walk(tables, pml4, p, d).None?
  {
    if depth + 1 < d { BelowIsNone(tables, pml4, p, depth, d - 1); }
  }

  /** The walk stops at the first entry that is a leaf or absent, and that entry decides. */
  lemma {:induction false} FirstStop(tables: Tables, pml4: nat, p: Path, depth: nat)
    requires depth <= 3 && Read(tables, pml4, p, depth).Some?
    ensures var e := Read(tables, pml4, p, depth).value;
            && (IsLeaf(e, depth) ==> FindLeaf(tables, pml4, p) == Some(Leaf(e, depth)))
            && (!e.present ==> FindLeaf(tables, pml4, p) == None)
  {
    forall d | 0 <= d < depth ensures !LeafAt(tables, pml4, p, d) {
      AboveIsLink(tables, pml4, p, depth, d);
    }
    forall d | depth < d <= 3 && !IsLink(Read(tables, pml4, p, depth).value, depth)
      ensures !LeafAt(tables, pml4, p, d)
    {
      BelowIsNone(tables, pml4, p, depth, d);
    }
  }

  // ---- Writing one entry ----

  /** `tables'` differs from `tables` in entry `i` of table `t` only, apart from added tables. */
  ghost predicate OneEntry(tables: Tables, tables': Tables, t: nat, i: Idx) {
    && t in tables
    && (forall u :: u in tables ==> u in tables')
    && (forall u :: u in tables && u != t ==> tables'[u] == tables[u])
    && tables'[t] == tables[t][i := tables'[t][i]]
  }

  /** A link that is met on a walk leads to a table. */
  lemma {:induction false} LinkPresent(tables: Tables, pml4: nat, place: Places, p: Path, depth: nat)
    requires Tree(tables, pml4, place) && depth <= 3
    ensures var e := Read(tables, pml4, p, depth); e.Some? && IsLink(e.value, depth) ==> e.value.addr in tables
  {
    WalkPlace(tables, pml4, place, p, depth);
    var t := Walk(tables, pml4, p, depth);
    if t.Some? { assert LinksDown(tables, place, t.value, p[depth]); }
  }

  /** Walks that agree at one depth and read the same entry there agree at the next. */
  lemma {:induction false} WalkStep(tables: Tables, tables': Tables, pml4: nat, p: Path, depth: nat)
    requires depth < 3 && forall u :: u in tables ==> u in tables'
    requires Walk(tables', pml4, p, depth) == Walk(tables, pml4, p, depth)
    requires Read(tables', pml4, p, depth) == Read(tables, pml4, p, depth)
    requires var e := Read(tables, pml4, p, depth); e.Some? && IsLink(e.value, depth) ==> e.value.addr in tables
    ensures Walk(tables', pml4, p, depth + 1) == Walk(tables, pml4, p, depth + 1)
  {
  }

  /** Writing an entry leaves the walk of a path unchanged down to that table, and below it too
      for every path that does not go through the entry. */
  lemma {:induction false} WriteWalk(tables: Tables, tables': Tables, pml4: nat, place: Places, t: nat, i: Idx,
                                     p: Path, depth: nat)
    requires Tree(tables, pml4, place) && OneEntry(tables, tables', t, i) && depth <= 3
    requires depth <= |place[t]| || p[..|place[t]| + 1] != place[t] + [i]
    ensures Walk(tables', pml4, p, depth) == Walk(tables, pml4, p, depth)
    decreases depth
  {
    if depth > 0 {
      WriteWalk(tables, tables', pml4, place, t, i, p, depth - 1);
      WriteRead(tables, tables', pml4, place, t, i, p, depth - 1);
      LinkPresent(tables, pml4, place, p, depth - 1);
      WalkStep(tables, tables', pml4, p, depth - 1);
    }
  }

  lemma {:induction false} WriteRead(tables: Tables, tables': Tables, pml4: nat, place: Places, t: nat, i: Idx,
                                     p: Path, depth: nat)
    requires Tree(tables, pml4, place) && OneEntry(tables, tables', t, i) && depth <= 3
    requires depth < |place[t]| || p[..|place[t]| + 1] != place[t] + [i]
    requires Walk(tables', pml4, p, depth) == Walk(tables, pml4, p, depth)
    ensures Read(tables', pml4, p, depth) == Read(tables, pml4, p, depth)
  {
    WalkPlace(tables, pml4, place, p, depth);
    assert p[..depth + 1] == p[..depth] + [p[depth]];
  }

  lemma {:induction false} WriteElsewhere(tables: Tables, tables': Tables, pml4: nat, place: Places, t: nat, i: Idx,
                                          p: Path)
    requires Tree(tables, pml4, place) && OneEntry(tables, tables', t, i)
    requires p[..|place[t]| + 1] != place[t] + [i]
    ensures FindLeaf(tables', pml4, p) == FindLeaf(tables, pml4, p)
    ensures forall d :: 0 <= d <= 3 ==> Read(tables', pml4, p, d) == Read(tables, pml4, p, d)
  {
    forall d | 0 <= d <= 3
      ensures Read(tables', pml4, p, d) == Read(tables, pml4, p, d)
    {
      WriteWalk(tables, tables', pml4, place, t, i, p, d);
      WriteRead(tables, tables', pml4, place, t, i, p, d);
    }
  }

  /** A path through the written entry reads the new entry there. */
  lemma {:induction false} WriteHere(tables: Tables, tables': Tables, pml4: nat, place: Places, t: nat, i: Idx,
                                     p: Path, q: Path, depth: nat)
    requires Tree(tables, pml4, place) && OneEntry(tables, tables', t, i) && depth <= 3
    requires Walk(tables, pml4, q, depth) == Some(t) && i == q[depth] && p[..depth + 1] == q[..depth + 1]
    ensures Walk(tables', pml4, p, depth) == Walk(tables, pml4, p, depth) == Some(t)
    ensures Read(tables, pml4, p, depth) == Some(tables[t][i])
    ensures Read(tables', pml4, p, depth) == Some(tables'[t][i])
  {
    assert p[..depth] == p[..depth + 1][..depth] == q[..depth];
    assert p[depth] == p[..depth + 1][depth] == q[depth];
    WalkPlace(tables, pml4, place, q, depth);
    WalkShared(tables, pml4, p, q, depth);
    WriteWalk(tables, tables', pml4, place, t, i, p, depth);
  }

  lemma WriteKeepsTree(tables: Tables, tables': Tables, pml4: nat, place: Places, t: nat, i: Idx)
    requires Tree(tables, pml4, place) && OneEntry(tables, tables', t, i) && tables'.Keys == tables.Keys
    requires !IsLink(tables[t][i], |place[t]|) && !IsLink(tables'[t][i], |place[t]|)
    ensures Tree(tables', pml4, place)
  {
    forall u, j: Idx | u in tables' ensures LinksDown(tables', place, u, j) {
      assert LinksDown(tables, place, u, j);
    }
    forall u | u in tables' && u != pml4 ensures Hangs(tables', place, u) {
      assert Hangs(tables, place, u);
      var p :| HangsFrom(tables, place, u, p);
      assert HangsFrom(tables', place, u, p);
    }
  }

  /** The tables with a new, zeroed table linked at entry `i` of table `t`. */
  function Linked(tables: Tables, t: nat, i: Idx, e: Entry): Tables
    requires t in tables
  {
    tables[e.addr := Zeroed()][t := tables[t][i := e]]
  }

  /** Nothing hangs from an absent entry. */
  lemma VacantPlace(tables: Tables, pml4: nat, place: Places, t: nat, i: Idx, u: nat)
    requires Tree(tables, pml4, place) && t in tables && u in tables && !tables[t][i].present
    ensures place[u] != place[t] + [i]
  {
    if u != pml4 {
      assert Hangs(tables, place, u);
      var p :| HangsFrom(tables, place, u, p);
      var n := |place[u]|;
      assert place[u] == place[p] + [place[u][n - 1]];
      assert p == t ==> place[u][n - 1] != i;
      assert (place[t] + [i])[..|place[t]|] == place[t];
    }
  }

  lemma LinkLinksDown(tables: Tables, pml4: nat, place: Places, t: nat, i: Idx, e: Entry, u: nat, j: Idx)
    requires Tree(tables, pml4, place) && t in tables && e.addr !in tables
    requires !tables[t][i].present && IsLink(e, |place[t]|)
    requires u in Linked(tables, t, i, e)
    ensures LinksDown(Linked(tables, t, i, e), place[e.addr := place[t] + [i]], u, j)
  {
    if u in tables { assert LinksDown(tables, place, u, j); }
  }

  lemma LinkHangs(tables: Tables, pml4: nat, place: Places, t: nat, i: Idx, e: Entry, u: nat)
    requires Tree(tables, pml4, place) && t in tables && e.addr !in tables
    requires !tables[t][i].present && IsLink(e, |place[t]|)
    requires u in Linked(tables, t, i, e) && u != pml4
    ensures Hangs(Linked(tables, t, i, e), place[e.addr := place[t] + [i]], u)
  {
    var tables', place' := Linked(tables, t, i, e), place[e.addr := place[t] + [i]];
    if u in tables {
      assert Hangs(tables, place, u);
      var p :| HangsFrom(tables, place, u, p);
      assert HangsFrom(tables', place', u, p);
    } else {
      assert HangsFrom(tables', place', u, t);
    }
  }

  /** Hanging a fresh zeroed table from an absent entry keeps the tree. */
  lemma LinkKeepsTree(tables: Tables, pml4: nat, place: Places, t: nat, i: Idx, e: Entry)
    requires Tree(tables, pml4, place) && t in tables && e.addr !in tables
    requires !tables[t][i].present && IsLink(e, |place[t]|)
    ensures Tree(Linked(tables, t, i, e), pml4, place[e.addr := place[t] + [i]])
  {
    var tables', place' := Linked(tables, t, i, e), place[e.addr := place[t] + [i]];
    forall u, w | u in tables' && w in tables' && place'[u] == place'[w] ensures u == w {
      if u in tables { VacantPlace(tables, pml4, place, t, i, u); }
      if w in tables { VacantPlace(tables, pml4, place, t, i, w); }
    }
    forall u, j: Idx | u in tables' ensures LinksDown(tables', place', u, j) {
      LinkLinksDown(tables, pml4, place, t, i, e, u, j);
    }
    forall u | u in tables' && u != pml4 ensures Hangs(tables', place', u) {
      LinkHangs(tables, pml4, place, t, i, e, u);
    }
  }

  /** ... and translates nothing new. */
  lemma {:induction false} LinkSameLeaves(tables: Tables, pml4: nat, place: Places, t: nat, i: Idx, e: Entry, q: Path,
                                          p: Path)
    requires Tree(tables, pml4, place) && e.addr !in tables && t in tables
    requires |place[t]| <= 2 && Walk(tables, pml4, q, |place[t]|) == Some(t) && i == q[|place[t]|]
    requires !tables[t][i].present && IsLink(e, |place[t]|)
    ensures FindLeaf(Linked(tables, t, i, e), pml4, p) == FindLeaf(tables, pml4, p)
  {
    var tables', d := Linked(tables, t, i, e), |place[t]|;
    assert OneEntry(tables, tables', t, i);
    WalkPlace(tables, pml4, place, q, d);
    assert q[..d + 1] == place[t] + [i];
    if p[..d + 1] == place[t] + [i] {
      WriteHere(tables, tables', pml4, place, t, i, p, q, d);
      FirstStop(tables, pml4, p, d);
      assert Read(tables', pml4, p, d + 1) == Some(EMPTY);
      FirstStop(tables', pml4, p, d + 1);
    } else {
      WriteElsewhere(tables, tables', pml4, place, t, i, p);
    }
  }

  // ---- Rights along a walk ----

  /** What an entry that leads to a table allows: everything. */
  const OPEN := Flags(true, true, false, false)

  ghost predicate OpenAt(tables: Tables, place: Places, t: nat, i: Idx)
    requires t in tables && t in place
  {
    IsLink(tables[t][i], |place[t]|) ==> tables[t][i].flags == OPEN
  }

  ghost predicate OpenLinks(tables: Tables, place: Places)
    requires place.Keys == tables.Keys
  {
    forall t, i: Idx {:trigger OpenAt(tables, place, t, i)} :: t in tables ==> OpenAt(tables, place, t, i)
  }

  lemma LinkKeepsOpen(tables: Tables, place: Places, t: nat, i: Idx, e: Entry)
    requires place.Keys == tables.Keys && OpenLinks(tables, place)
    requires t in tables && e.addr !in tables && e.flags == OPEN
    ensures OpenLinks(Linked(tables, t, i, e), place[e.addr := place[t] + [i]])
  {
    var tables', place' := Linked(tables, t, i, e), place[e.addr := place[t] + [i]];
    forall u, j: Idx | u in tables' ensures OpenAt(tables', place', u, j) {
      if u in tables { assert OpenAt(tables, place, u, j); }
    }
  }

  lemma WriteKeepsOpen(tables: Tables, tables': Tables, place: Places, t: nat, i: Idx)
    requires place.Keys == tables.Keys == tables'.Keys && OpenLinks(tables, place) && OneEntry(tables, tables', t, i)
    requires !IsLink(tables'[t][i], |place[t]|)
    ensures OpenLinks(tables', place)
  {
    forall u, j: Idx | u in tables' ensures OpenAt(tables', place, u, j) { assert OpenAt(tables, place, u, j); }
  }

  /** The processor grants a write, or user access, when all entries of the walk do, and execution unless one
      of them disables it (section 4.6 of the Intel 64 and IA-32 SDM, volume 3A). */
  ghost function Effective(tables: Tables, pml4: nat, p: Path, depth: nat): (f: Flags)
    requires depth <= 3 && forall d :: 0 <= d <= depth ==> Read(tables, pml4, p, d).Some?
  {
    var e := Read(tables, pml4, p, depth).value.flags;
    if depth == 0 then e
    else
      var above := Effective(tables, pml4, p, depth - 1);
      Flags(above.rw && e.rw, above.us && e.us, above.xd || e.xd, e.pcd)
  }

  /** Links are open, so the rights of the last entry are those of the whole walk. */
  lemma {:induction false} EffectiveIsLast(tables: Tables, pml4: nat, place: Places, p: Path, depth: nat)
    requires Tree(tables, pml4, place) && OpenLinks(tables, place) && depth <= 3
    requires Walk(tables, pml4, p, depth).Some?
    ensures forall d :: 0 <= d <= depth ==> Read(tables, pml4, p, d).Some?
    ensures Effective(tables, pml4, p, depth) == Read(tables, pml4, p, depth).value.flags
  {
    forall d | 0 <= d < depth ensures Read(tables, pml4, p, d).Some? { AboveIsLink(tables, pml4, p, depth, d); }
    if depth > 0 {
      EffectiveIsLast(tables, pml4, place, p, depth - 1);
      AboveIsLink(tables, pml4, p, depth, depth - 1);
      WalkPlace(tables, pml4, place, p, depth - 1);
      assert OpenAt(tables, place, Walk(tables, pml4, p, depth - 1).value, p[depth - 1]);
    }
  }
}
