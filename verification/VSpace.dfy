/** The kernel address space: mapping, changing rights and guard pages. */
module VSpaces {
  import opened Common
  import opened Collections
  import opened PageTables

  datatype MapAction =
    | NoAccess
    | ReadUser
    | ReadKernel
    | ReadWriteUser
    | ReadWriteKernel
    | ReadWriteKernelNoCache
    | ReadExecuteUser
    | ReadExecuteKernel
    | ReadWriteExecuteUser
    | ReadWriteExecuteKernel

  /** `to_pdpt_rights`, `to_pd_rights` and `to_pt_rights`, which agree. */
  function Rights(action: MapAction): Flags {
    match action
    case NoAccess => Flags(false, false, false, false)
    case ReadUser => Flags(false, true, true, false)
    case ReadKernel => Flags(false, false, true, false)
    case ReadWriteUser => Flags(true, true, true, false)
    case ReadWriteKernel => Flags(true, false, true, false)
    case ReadWriteKernelNoCache => Flags(true, false, true, true)
    case ReadExecuteUser => Flags(false, true, false, false)
    case ReadExecuteKernel => Flags(false, false, false, false)
    case ReadWriteExecuteUser => Flags(true, true, false, false)
    case ReadWriteExecuteKernel => Flags(true, false, false, false)
  }

  /** How the kernel prints an action: who may use the memory, and how. */
  function Shown(action: MapAction): string {
    match action
    case NoAccess => " ---"
    case ReadUser => "uR--"
    case ReadKernel => "kR--"
    case ReadWriteUser => "uRW-"
    case ReadWriteKernel => "kRW-"
    case ReadWriteKernelNoCache => "kRW-nC"
    case ReadExecuteUser => "uR-X"
    case ReadExecuteKernel => "kR-X"
    case ReadWriteExecuteUser => "uRWX"
    case ReadWriteExecuteKernel => "kRWX"
  }

  /** The letters of an action are its rights; `NoAccess` has none, but does not disable execution. */
  lemma RightsAsShown(action: MapAction)
    ensures var f, s := Rights(action), Shown(action);
            && (f.rw <==> 'W' in s) && (f.us <==> 'u' in s) && (f.pcd <==> 'C' in s)
            && (f.xd <==> 'X' !in s && !action.NoAccess?)
  {
    var s := Shown(action);
    assert |s| >= 4 && s[0] in s && s[1] in s && s[2] in s && s[3] in s;
    assert |s| == 4 || (|s| == 6 && s[4] in s && s[5] in s);
  }

  /** Bytes under one entry of a PDPT (depth 1), PD (2) or PT (3). */
  function Size(depth: nat): nat {
    if depth == 1 then HUGE_PAGE else if depth == 2 then LARGE_PAGE else PAGE
  }

  function Offset(v: nat, depth: nat): nat {
    if depth == 1 then v % HUGE_PAGE else if depth == 2 then v % LARGE_PAGE else v % PAGE
  }

  datatype Translation = Translation(paddr: nat, flags: Flags)

  /** Address and rights given to `v` by the leaf its path ends in. */
  ghost function Translate(tables: Tables, pml4: nat, v: nat): Option<Translation> {
    match FindLeaf(tables, pml4, PathOf(v))
    case None => None
    case Some(leaf) => Some(Translation(leaf.entry.addr + Offset(v, leaf.depth), leaf.entry.flags))
  }

  lemma SameLeaf(tables: Tables, tables': Tables, pml4: nat, v: nat)
    requires FindLeaf(tables', pml4, PathOf(v)) == FindLeaf(tables, pml4, PathOf(v))
    ensures Translate(tables', pml4, v) == Translate(tables, pml4, v)
  {
  }

  /** `resolve_addr` computes the translation. */
  lemma ResolveIsTranslate(tables: Tables, pml4: nat, v: nat)
    ensures ResolveAddr(tables, pml4, v) ==
            match Translate(tables, pml4, v) case None => None case Some(t) => Some(t.paddr)
  {
    var p := PathOf(v);
    assert p[0] == Pml4Index(v) && p[1] == PdptIndex(v) && p[2] == PdIndex(v) && p[3] == PtIndex(v);
    assert Walk(tables, pml4, p, 0) == if pml4 in tables then Some(pml4) else None;
    assert Walk(tables, pml4, p, 1).Some? ==> Read(tables, pml4, p, 0).Some?;
    assert Walk(tables, pml4, p, 2).Some? ==> Read(tables, pml4, p, 1).Some?;
    assert Walk(tables, pml4, p, 3).Some? ==> Read(tables, pml4, p, 2).Some?;
  }

  /** What became of the translation of `v` when `[vbase, vbase + n)` was mapped to `pbase`: it is
      new if `v` is in the range and had none, and unchanged otherwise. */
  ghost predicate ExtendsAt(tables: Tables, tables': Tables, pml4: nat, vbase: nat, pbase: nat, n: nat, flags: Flags,
                            v: nat) {
    && LeafKept(tables, tables', pml4, v)
    && Translate(tables', pml4, v) ==
       if vbase <= v < vbase + n && Translate(tables, pml4, v).None?
       then Some(Translation(pbase + (v - vbase), flags))
       else Translate(tables, pml4, v)
  }

  /** An address that is mapped keeps its entry, and with it the size of its page. */
  ghost predicate LeafKept(tables: Tables, tables': Tables, pml4: nat, v: nat) {
    FindLeaf(tables, pml4, PathOf(v)).Some? ==> FindLeaf(tables', pml4, PathOf(v)) == FindLeaf(tables, pml4, PathOf(v))
  }

  ghost predicate Extends(tables: Tables, tables': Tables, pml4: nat, vbase: nat, pbase: nat, n: nat, flags: Flags) {
    forall v: nat :: v < TOP ==> ExtendsAt(tables, tables', pml4, vbase, pbase, n, flags, v)
  }

  /** No translation was lost or changed. */
  ghost predicate Keeps(tables: Tables, tables': Tables, pml4: nat) {
    forall v: nat {:trigger LeafKept(tables, tables', pml4, v)} :: v < TOP ==> LeafKept(tables, tables', pml4, v)
  }

  /** `v` is mapped by an entry of a PDPT (depth 1), a PD (2) or a page table (3). */
  ghost predicate MappedBy(tables: Tables, pml4: nat, v: nat, depth: nat) {
    FindLeaf(tables, pml4, PathOf(v)).Some? && FindLeaf(tables, pml4, PathOf(v)).value.depth == depth
  }

  lemma StillMapped(a: Tables, b: Tables, pml4: nat, v: nat, depth: nat)
    requires Keeps(a, b, pml4) && v < TOP && MappedBy(a, pml4, v, depth)
    ensures MappedBy(b, pml4, v, depth)
  {
    assert LeafKept(a, b, pml4, v);
  }

  /** Mapping `m` bytes and then the `n` bytes after them is mapping `k == m + n` bytes. */
  lemma ExtendsCompose(a: Tables, b: Tables, c: Tables, pml4: nat, vbase: nat, pbase: nat, m: nat,
                       vnext: nat, pnext: nat, n: nat, k: nat, flags: Flags)
    requires vnext == vbase + m && pnext == pbase + m && k == m + n
    requires Extends(a, b, pml4, vbase, pbase, m, flags)
    requires Extends(b, c, pml4, vnext, pnext, n, flags)
    ensures Extends(a, c, pml4, vbase, pbase, k, flags)
  {
    forall v: nat | v < TOP ensures ExtendsAt(a, c, pml4, vbase, pbase, k, flags, v) {
      assert ExtendsAt(a, b, pml4, vbase, pbase, m, flags, v);
      assert ExtendsAt(b, c, pml4, vnext, pnext, n, flags, v);
    }
  }

  lemma ExtendsKeeps(a: Tables, b: Tables, pml4: nat, vbase: nat, pbase: nat, n: nat, flags: Flags)
    requires Extends(a, b, pml4, vbase, pbase, n, flags)
    ensures Keeps(a, b, pml4)
  {
    forall v: nat | v < TOP ensures LeafKept(a, b, pml4, v) {
      assert ExtendsAt(a, b, pml4, vbase, pbase, n, flags, v);
    }
  }

  lemma ExtendsNothing(a: Tables, pml4: nat, vbase: nat, pbase: nat, flags: Flags)
    ensures Extends(a, a, pml4, vbase, pbase, 0, flags)
  {
  }

  lemma KeepsCompose(a: Tables, b: Tables, c: Tables, pml4: nat)
    requires Keeps(a, b, pml4) && Keeps(b, c, pml4)
    ensures Keeps(a, c, pml4)
  {
    forall v: nat | v < TOP ensures LeafKept(a, c, pml4, v) {
      assert LeafKept(a, b, pml4, v) && LeafKept(b, c, pml4, v);
    }
  }

  /** The addresses under one entry are those that share its path, and they count up from it. */
  lemma UnderEntry(v0: nat, v: nat, depth: nat)
    requires 1 <= depth <= 3 && v0 < TOP && v < TOP && Offset(v0, depth) == 0
    ensures PathOf(v)[..depth + 1] == PathOf(v0)[..depth + 1] <==> v0 <= v < v0 + Size(depth)
    ensures v0 <= v < v0 + Size(depth) ==> Offset(v, depth) == v - v0
  {
    var p, q := PathOf(v), PathOf(v0);
    assert p[..depth + 1] == q[..depth + 1] <==> forall i :: 0 <= i <= depth ==> p[i] == q[i] by {
      if p[..depth + 1] == q[..depth + 1] {
        forall i | 0 <= i <= depth ensures p[i] == q[i] {
          assert p[i] == p[..depth + 1][i];
        }
      }
    }
    SamePrefix(v, v0);
    assert p[0] == Pml4Index(v) && p[1] == PdptIndex(v) && p[2] == PdIndex(v) && p[3] == PtIndex(v);
    assert q[0] == Pml4Index(v0) && q[1] == PdptIndex(v0) && q[2] == PdIndex(v0) && q[3] == PtIndex(v0);
  }

  lemma SamePrefix(v: nat, w: nat)
    requires v < TOP && w < TOP
    ensures Pml4Index(v) == Pml4Index(w) && PdptIndex(v) == PdptIndex(w) <==> v / HUGE_PAGE == w / HUGE_PAGE
    ensures v / HUGE_PAGE == w / HUGE_PAGE && PdIndex(v) == PdIndex(w) <==> v / LARGE_PAGE == w / LARGE_PAGE
    ensures v / LARGE_PAGE == w / LARGE_PAGE && PtIndex(v) == PtIndex(w) <==> v / PAGE == w / PAGE
  {
    Digits(v);
    Digits(w);
  }

  /** The indices are the base-512 digits of the page number. */
  lemma Digits(v: nat)
    requires v < TOP
    ensures v / HUGE_PAGE == Pml4Index(v) * ENTRIES + PdptIndex(v)
    ensures v / LARGE_PAGE == (v / HUGE_PAGE) * ENTRIES + PdIndex(v)
    ensures v / PAGE == (v / LARGE_PAGE) * ENTRIES + PtIndex(v)
  {
    assert v / PML4_SLOT == (v / HUGE_PAGE) / ENTRIES;
    assert v / HUGE_PAGE == (v / LARGE_PAGE) / ENTRIES;
    assert v / LARGE_PAGE == (v / PAGE) / ENTRIES;
  }

  lemma Quotients(v: nat)
    ensures v / PML4_SLOT == (v / HUGE_PAGE) / ENTRIES
    ensures v / HUGE_PAGE == (v / LARGE_PAGE) / ENTRIES
    ensures v / LARGE_PAGE == (v / PAGE) / ENTRIES
  {
  }

  lemma NextDigit(x: nat)
    requires x % ENTRIES + 1 < ENTRIES
    ensures (x + 1) % ENTRIES == x % ENTRIES + 1 && (x + 1) / ENTRIES == x / ENTRIES
  {
  }

  /** The next entry of a table describes the addresses right after this one's. */
  lemma NextEntry(v0: nat, depth: nat, v: nat)
    requires 1 <= depth <= 3 && Offset(v0, depth) == 0 && PathOf(v0)[depth] + 1 < ENTRIES && v == v0 + Size(depth)
    ensures Offset(v, depth) == 0
    ensures PathOf(v)[..depth] == PathOf(v0)[..depth]
    ensures PathOf(v)[depth] == PathOf(v0)[depth] + 1
  {
    Quotients(v);
    Quotients(v0);
    if depth == 1 {
      assert v / HUGE_PAGE == v0 / HUGE_PAGE + 1;
      NextDigit(v0 / HUGE_PAGE);
    } else if depth == 2 {
      assert v / LARGE_PAGE == v0 / LARGE_PAGE + 1;
      NextDigit(v0 / LARGE_PAGE);
    } else {
      assert v / PAGE == v0 / PAGE + 1;
      NextDigit(v0 / PAGE);
    }
  }

  lemma {:induction false} FillLeafAt(tables: Tables, tables': Tables, pml4: nat, place: Places, t: nat, q: Path,
                                      p: Path, depth: nat)
    requires Tree(tables, pml4, place) && 1 <= depth <= 3 && Walk(tables, pml4, q, depth) == Some(t)
    requires OneEntry(tables, tables', t, q[depth])
    requires !tables[t][q[depth]].present && IsLeaf(tables'[t][q[depth]], depth)
    ensures p[..depth + 1] == q[..depth + 1] ==>
              && FindLeaf(tables, pml4, p) == None
              && FindLeaf(tables', pml4, p) == Some(Leaf(tables'[t][q[depth]], depth))
    ensures p[..depth + 1] != q[..depth + 1] ==> FindLeaf(tables', pml4, p) == FindLeaf(tables, pml4, p)
  {
    if p[..depth + 1] == q[..depth + 1] {
      WriteHere(tables, tables', pml4, place, t, q[depth], p, q, depth);
      FirstStop(tables, pml4, p, depth);
      FirstStop(tables', pml4, p, depth);
    } else {
      WalkPlace(tables, pml4, place, q, depth);
      assert q[..depth + 1] == place[t] + [q[depth]];
      WriteElsewhere(tables, tables', pml4, place, t, q[depth], p);
    }
  }

  /** Filling an absent entry with a leaf maps exactly the addresses under it. */
  lemma {:induction false} FillLeaf(tables: Tables, tables': Tables, pml4: nat, place: Places, t: nat, v0: nat,
                                    depth: nat)
    requires Tree(tables, pml4, place) && 1 <= depth <= 3 && v0 < TOP && Offset(v0, depth) == 0
    requires Walk(tables, pml4, PathOf(v0), depth) == Some(t)
    requires OneEntry(tables, tables', t, PathOf(v0)[depth])
    requires !tables[t][PathOf(v0)[depth]].present && IsLeaf(tables'[t][PathOf(v0)[depth]], depth)
    ensures var e := tables'[t][PathOf(v0)[depth]];
            Extends(tables, tables', pml4, v0, e.addr, Size(depth), e.flags)
  {
    var q := PathOf(v0);
    var e := tables'[t][q[depth]];
    forall v: nat | v < TOP
      ensures ExtendsAt(tables, tables', pml4, v0, e.addr, Size(depth), e.flags, v)
    {
      UnderEntry(v0, v, depth);
      FillLeafAt(tables, tables', pml4, place, t, q, PathOf(v), depth);
      ExtendsLeaf(tables, tables', pml4, v0, v, e, depth, PathOf(v)[..depth + 1] == q[..depth + 1]);
    }
  }

  lemma ExtendsLeaf(tables: Tables, tables': Tables, pml4: nat, v0: nat, v: nat, e: Entry, depth: nat, under: bool)
    requires under <==> v0 <= v < v0 + Size(depth)
    requires under ==> Offset(v, depth) == v - v0 && FindLeaf(tables, pml4, PathOf(v)) == None
                       && FindLeaf(tables', pml4, PathOf(v)) == Some(Leaf(e, depth))
    requires !under ==> FindLeaf(tables', pml4, PathOf(v)) == FindLeaf(tables, pml4, PathOf(v))
    ensures ExtendsAt(tables, tables', pml4, v0, e.addr, Size(depth), e.flags, v)
  {
  }

  lemma {:induction false} LeafKeepsTree(tables: Tables, tables': Tables, pml4: nat, place: Places, t: nat, q: Path,
                                         depth: nat)
    requires Tree(tables, pml4, place) && 1 <= depth <= 3 && Walk(tables, pml4, q, depth) == Some(t)
    requires OneEntry(tables, tables', t, q[depth]) && tables'.Keys == tables.Keys
    requires !IsLink(tables[t][q[depth]], depth) && !IsLink(tables'[t][q[depth]], depth)
    ensures Tree(tables', pml4, place) && (OpenLinks(tables, place) ==> OpenLinks(tables', place))
    ensures forall p: Path :: p[..depth] == q[..depth] ==> Walk(tables', pml4, p, depth) == Some(t)
  {
    WalkPlace(tables, pml4, place, q, depth);
    WriteKeepsTree(tables, tables', pml4, place, t, q[depth]);
    if OpenLinks(tables, place) { WriteKeepsOpen(tables, tables', place, t, q[depth]); }
    forall p: Path | p[..depth] == q[..depth] ensures Walk(tables', pml4, p, depth) == Some(t) {
      WalkShared(tables, pml4, p, q, depth);
      WriteWalk(tables, tables', pml4, place, t, q[depth], p, depth);
    }
  }

  /** The addresses under a present entry of a page table are mapped. */
  lemma {:induction false} PresentIsMapped(tables: Tables, pml4: nat, v0: nat)
    requires v0 < TOP && Offset(v0, 3) == 0
    requires Read(tables, pml4, PathOf(v0), 3).Some? && Read(tables, pml4, PathOf(v0), 3).value.present
    ensures forall v: nat :: v < TOP && v0 <= v < v0 + PAGE ==> Translate(tables, pml4, v).Some?
  {
    forall v: nat | v < TOP && v0 <= v < v0 + PAGE ensures Translate(tables, pml4, v).Some? {
      UnderEntry(v0, v, 3);
      assert PathOf(v)[..4] == PathOf(v) && PathOf(v0)[..4] == PathOf(v0);
      FirstStop(tables, pml4, PathOf(v), 3);
    }
  }

  lemma PageMapped(tables: Tables, pml4: nat, v: nat, page: nat)
    requires v < TOP && page == v - v % PAGE
    requires Read(tables, pml4, PathOf(v), 3).Some? && Read(tables, pml4, PathOf(v), 3).value.present
    ensures AllMapped(tables, pml4, page, PAGE) && page + PAGE <= TOP
  {
    EntryStart(v, 3);
    UnderEntry(page, v, 3);
    assert PathOf(v)[..4] == PathOf(v) && PathOf(page)[..4] == PathOf(page);
    PresentIsMapped(tables, pml4, page);
  }

  /** Linking an empty table changes no translation. */
  lemma {:induction false} LinkKeeps(tables: Tables, pml4: nat, place: Places, t: nat, i: Idx, e: Entry, q: Path,
                                     vbase: nat, pbase: nat, flags: Flags)
    requires Tree(tables, pml4, place) && e.addr !in tables && t in tables
    requires |place[t]| <= 2 && Walk(tables, pml4, q, |place[t]|) == Some(t) && i == q[|place[t]|]
    requires !tables[t][i].present && IsLink(e, |place[t]|)
    ensures Extends(tables, Linked(tables, t, i, e), pml4, vbase, pbase, 0, flags)
  {
    var tables' := Linked(tables, t, i, e);
    forall v: nat | v < TOP ensures ExtendsAt(tables, tables', pml4, vbase, pbase, 0, flags, v) {
      var p := PathOf(v);
      LinkSameLeaves(tables, pml4, place, t, i, e, q, p);
      SameLeaf(tables, tables', pml4, v);
    }
  }

  // ---- What may be in the way ----

  /** The walk for `v` finds an absent entry at this depth. */
  ghost predicate AbsentAt(tables: Tables, pml4: nat, depth: nat, v: nat)
    requires depth <= 3
  {
    var e := Read(tables, pml4, PathOf(v), depth);
    e.Some? && !e.value.present
  }

  ghost predicate Vacant(tables: Tables, pml4: nat, depth: nat, vbase: nat, n: nat)
    requires depth <= 3
  {
    forall v: nat {:trigger AbsentAt(tables, pml4, depth, v)} :: vbase <= v < vbase + n ==>
      AbsentAt(tables, pml4, depth, v)
  }

  /** A table in the place of a large page blocks it even when nothing is mapped through the table. */
  lemma {:induction false} EmptyTableBlocks(tables: Tables, pml4: nat, v0: nat, depth: nat, child: nat)
    requires 1 <= depth <= 2 && v0 < TOP && Offset(v0, depth) == 0
    requires Walk(tables, pml4, PathOf(v0), depth + 1) == Some(child) && tables[child] == Zeroed()
    ensures !AbsentAt(tables, pml4, depth, v0)
    ensures forall v: nat :: v < TOP && v0 <= v < v0 + Size(depth) ==> Translate(tables, pml4, v) == None
  {
    AboveIsLink(tables, pml4, PathOf(v0), depth + 1, depth);
    forall v: nat | v < TOP && v0 <= v < v0 + Size(depth) ensures Translate(tables, pml4, v) == None {
      UnderEntry(v0, v, depth);
      WalkShared(tables, pml4, PathOf(v), PathOf(v0), depth + 1);
      FirstStop(tables, pml4, PathOf(v), depth + 1);
    }
  }

  ghost predicate ReadsKept(tables: Tables, tables': Tables, pml4: nat, v: nat) {
    && Read(tables', pml4, PathOf(v), 1) == Read(tables, pml4, PathOf(v), 1)
    && Read(tables', pml4, PathOf(v), 2) == Read(tables, pml4, PathOf(v), 2)
  }

  /** Outside `[vbase, vbase + n)` the walks read what they read before. */
  ghost predicate KeptBeyond(tables: Tables, tables': Tables, pml4: nat, vbase: nat, n: nat) {
    forall v: nat {:trigger ReadsKept(tables, tables', pml4, v)} :: v < TOP && !(vbase <= v < vbase + n) ==>
      ReadsKept(tables, tables', pml4, v)
  }

  lemma KeptBeyondCompose(a: Tables, b: Tables, c: Tables, pml4: nat, vbase: nat, m: nat, vnext: nat, n: nat, k: nat)
    requires vnext == vbase + m && k == m + n
    requires KeptBeyond(a, b, pml4, vbase, m) && KeptBeyond(b, c, pml4, vnext, n)
    ensures KeptBeyond(a, c, pml4, vbase, k)
  {
    forall v: nat | v < TOP && !(vbase <= v < vbase + k) ensures ReadsKept(a, c, pml4, v) {
      assert ReadsKept(a, b, pml4, v) && ReadsKept(b, c, pml4, v);
    }
  }

  lemma {:induction false} FillKeepsReads(tables: Tables, tables': Tables, pml4: nat, place: Places, t: nat, v0: nat,
                                          depth: nat)
    requires Tree(tables, pml4, place) && 1 <= depth <= 3 && v0 < TOP && Offset(v0, depth) == 0
    requires Walk(tables, pml4, PathOf(v0), depth) == Some(t)
    requires OneEntry(tables, tables', t, PathOf(v0)[depth])
    ensures KeptBeyond(tables, tables', pml4, v0, Size(depth))
  {
    var q := PathOf(v0);
    WalkPlace(tables, pml4, place, q, depth);
    assert q[..depth + 1] == place[t] + [q[depth]];
    forall v: nat | v < TOP && !(v0 <= v < v0 + Size(depth)) ensures ReadsKept(tables, tables', pml4, v) {
      UnderEntry(v0, v, depth);
      WriteElsewhere(tables, tables', pml4, place, t, q[depth], PathOf(v));
    }
  }

  /** What the walk for `v` finds at this depth leaves room for a mapping that starts at `vbase`: nothing,
      or the way to a table whose addresses begin no later than `vbase`. */
  ghost predicate ClearAt(tables: Tables, pml4: nat, vbase: nat, v: nat, depth: nat)
    requires depth <= 3
  {
    var e := Read(tables, pml4, PathOf(v), depth);
    e.Some? && e.value.present ==> !e.value.page && v - Offset(v, depth) <= vbase
  }

  ghost predicate Fresh(tables: Tables, pml4: nat, vbase: nat, psize: nat) {
    forall v: nat, d: nat {:trigger ClearAt(tables, pml4, vbase, v, d)} ::
      1 <= d <= 2 && v < TOP && (v == vbase || vbase <= v < vbase + psize) ==> ClearAt(tables, pml4, vbase, v, d)
  }

  /** What is left to map is as fresh as the whole was. */
  lemma {:induction false} FreshRest(a: Tables, b: Tables, pml4: nat, vbase: nat, psize: nat, m: nat, vrest: nat,
                                     left: nat)
    requires m < psize && vrest == vbase + m && left == psize - m && vbase + psize <= TOP
    requires Fresh(a, pml4, vbase, psize) && KeptBeyond(a, b, pml4, vbase, m)
    ensures Fresh(b, pml4, vrest, left)
  {
    forall v: nat, d: nat | 1 <= d <= 2 && v < TOP && (v == vrest || vrest <= v < vrest + left)
      ensures ClearAt(b, pml4, vrest, v, d)
    {
      assert ClearAt(a, pml4, vbase, v, d) && ReadsKept(a, b, pml4, v);
    }
  }

  /** In a fresh range, one absent entry at `vbase` means that none follows in the same table. */
  lemma {:induction false} FreshIsVacant(tables: Tables, pml4: nat, vbase: nat, psize: nat, depth: nat, n: nat)
    requires Fresh(tables, pml4, vbase, psize) && 1 <= depth <= 2 && n <= psize && vbase + psize <= TOP
    requires Offset(vbase, depth) == 0 && AbsentAt(tables, pml4, depth, vbase)
    requires forall v: nat :: vbase <= v < vbase + n ==> PathOf(v)[..depth] == PathOf(vbase)[..depth]
    ensures Vacant(tables, pml4, depth, vbase, n)
  {
    forall v: nat | vbase <= v < vbase + n ensures AbsentAt(tables, pml4, depth, v) {
      assert ClearAt(tables, pml4, vbase, v, depth);
      WalkShared(tables, pml4, PathOf(v), PathOf(vbase), depth);
      if v - Offset(v, depth) <= vbase {
        UnderEntry(vbase, v, depth);
        SameRead(tables, pml4, v, vbase, depth);
      }
    }
  }

  /** What a walk through a newly linked table reads: the link, and below it nothing. */
  lemma {:induction false} LinkReads(tables: Tables, pml4: nat, place: Places, t: nat, e: Entry, q: Path, d: nat,
                                     p: Path, k: nat)
    requires Tree(tables, pml4, place) && e.addr !in tables && d <= 2 && Walk(tables, pml4, q, d) == Some(t)
    requires !tables[t][q[d]].present && IsLink(e, d) && d <= k <= 3 && p[..d + 1] == q[..d + 1]
    ensures var r := Read(Linked(tables, t, q[d], e), pml4, p, k);
            if k == d then r == Some(e) else if k == d + 1 then r == Some(EMPTY) else r == None
  {
    var tables' := Linked(tables, t, q[d], e);
    assert OneEntry(tables, tables', t, q[d]);
    WriteHere(tables, tables', pml4, place, t, q[d], p, q, d);
    if k > d + 1 {
      assert Read(tables', pml4, p, d + 1) == Some(EMPTY);
      BelowIsNone(tables', pml4, p, d + 1, k);
    }
  }

  /** A link on the way to `vbase` leaves the range as fresh as it was. */
  lemma {:induction false} LinkClear(tables: Tables, pml4: nat, place: Places, t: nat, e: Entry, vbase: nat, d: nat,
                                     v: nat, k: nat)
    requires Tree(tables, pml4, place) && e.addr !in tables && d <= 2 && Walk(tables, pml4, PathOf(vbase), d) == Some(t)
    requires !tables[t][PathOf(vbase)[d]].present && IsLink(e, d) && !e.page
    requires 1 <= k <= 2 && vbase < TOP && v < TOP && ClearAt(tables, pml4, vbase, v, k)
    ensures ClearAt(Linked(tables, t, PathOf(vbase)[d], e), pml4, vbase, v, k)
  {
    var p, q := PathOf(v), PathOf(vbase);
    var tables' := Linked(tables, t, q[d], e);
    if k >= d && p[..d + 1] == q[..d + 1] {
      LinkReads(tables, pml4, place, t, e, q, d, p, k);
      if k == d { SameEntry(v, vbase, d); }
    } else {
      WalkPlace(tables, pml4, place, q, d);
      assert q[..d + 1] == place[t] + [q[d]];
      WriteWalk(tables, tables', pml4, place, t, q[d], p, k);
      WriteRead(tables, tables', pml4, place, t, q[d], p, k);
    }
  }

  /** Nothing is present at this depth on the walk for `v`. */
  ghost predicate Unused(tables: Tables, pml4: nat, depth: nat, v: nat)
    requires depth <= 3
  {
    var e := Read(tables, pml4, PathOf(v), depth);
    e.Some? ==> !e.value.present
  }

  /** A page of this depth can start at `vbase`: its place is unused, both addresses are aligned to it, and there
      is enough to map. */
  ghost predicate PageFits(tables: Tables, pml4: nat, depth: nat, vbase: nat, pbase: nat, psize: nat)
    requires depth <= 3
  {
    Unused(tables, pml4, depth, vbase) && Offset(vbase, depth) == 0 && pbase % Size(depth) == 0 && psize >= Size(depth)
  }

  /** The depth of the largest page that fits, from `depth` on. */
  ghost function PageDepth(tables: Tables, pml4: nat, depth: nat, vbase: nat, pbase: nat, psize: nat): (d: nat)
    requires 1 <= depth <= 3
    ensures depth <= d <= 3
    decreases 3 - depth
  {
    if depth == 3 || PageFits(tables, pml4, depth, vbase, pbase, psize) then depth
    else PageDepth(tables, pml4, depth + 1, vbase, pbase, psize)
  }

  /** The depths below `depth` are as unused as they were. */
  ghost predicate SameUnused(a: Tables, b: Tables, pml4: nat, depth: nat, v: nat) {
    forall d {:trigger Unused(b, pml4, d, v)} :: depth < d <= 2 ==> (Unused(b, pml4, d, v) <==> Unused(a, pml4, d, v))
  }

  lemma {:induction false} SamePageDepth(a: Tables, b: Tables, pml4: nat, depth: nat, vbase: nat, pbase: nat,
                                         psize: nat)
    requires depth <= 2 && SameUnused(a, b, pml4, depth, vbase)
    ensures PageDepth(b, pml4, depth + 1, vbase, pbase, psize) == PageDepth(a, pml4, depth + 1, vbase, pbase, psize)
    decreases 3 - depth
  {
    if depth < 2 {
      assert Unused(b, pml4, depth + 1, vbase) <==> Unused(a, pml4, depth + 1, vbase);
      SamePageDepth(a, b, pml4, depth + 1, vbase, pbase, psize);
    }
  }

  lemma {:induction false} LinkUnused(tables: Tables, pml4: nat, place: Places, t: nat, e: Entry, d: nat, v: nat)
    requires Tree(tables, pml4, place) && e.addr !in tables && d <= 2 && Walk(tables, pml4, PathOf(v), d) == Some(t)
    requires !tables[t][PathOf(v)[d]].present && IsLink(e, d)
    ensures SameUnused(tables, Linked(tables, t, PathOf(v)[d], e), pml4, d, v)
  {
    var p := PathOf(v);
    var tables' := Linked(tables, t, p[d], e);
    forall k | d < k <= 2 ensures Unused(tables', pml4, k, v) <==> Unused(tables, pml4, k, v) {
      LinkReads(tables, pml4, place, t, e, p, d, p, k);
      BelowIsNone(tables, pml4, p, d, k);
    }
  }

  lemma EntryStart(v: nat, depth: nat)
    ensures Offset(v, depth) <= v && Offset(v - Offset(v, depth), depth) == 0 && Offset(v, depth) < Size(depth)
  {
  }

  lemma {:induction false} SameEntry(v: nat, w: nat, depth: nat)
    requires 1 <= depth <= 3 && v < TOP && w < TOP && PathOf(v)[..depth + 1] == PathOf(w)[..depth + 1]
    ensures v - Offset(v, depth) <= w
  {
    var v0 := v - Offset(v, depth);
    EntryStart(v, depth);
    UnderEntry(v0, v, depth);
    UnderEntry(v0, w, depth);
  }

  lemma {:induction false} LinkKeepsFresh(tables: Tables, pml4: nat, place: Places, t: nat, e: Entry, vbase: nat,
                                          d: nat, psize: nat)
    requires Tree(tables, pml4, place) && e.addr !in tables && d <= 2 && Walk(tables, pml4, PathOf(vbase), d) == Some(t)
    requires !tables[t][PathOf(vbase)[d]].present && IsLink(e, d) && !e.page
    requires vbase < TOP && Fresh(tables, pml4, vbase, psize)
    ensures Fresh(Linked(tables, t, PathOf(vbase)[d], e), pml4, vbase, psize)
  {
    var tables' := Linked(tables, t, PathOf(vbase)[d], e);
    forall v: nat, k: nat | 1 <= k <= 2 && v < TOP && (v == vbase || vbase <= v < vbase + psize)
      ensures ClearAt(tables', pml4, vbase, v, k)
    {
      assert ClearAt(tables, pml4, vbase, v, k);
      LinkClear(tables, pml4, place, t, e, vbase, d, v, k);
    }
  }

  /** The bytes that one table takes of `psize`, from its entry `idx` on. */
  function Extent(idx: nat, psize: nat, depth: nat): nat
    requires idx <= ENTRIES
  {
    Min(psize / Size(depth), ENTRIES - idx) * Size(depth)
  }

  lemma ExtentStep(idx: nat, psize: nat, depth: nat, idx': nat, rest: nat)
    requires idx < ENTRIES && idx' == idx + 1 && psize == rest + Size(depth)
    ensures Extent(idx, psize, depth) == Size(depth) + Extent(idx', rest, depth)
  {
    assert psize / Size(depth) == rest / Size(depth) + 1;
  }

  lemma ExtentEnd(idx: nat, psize: nat, depth: nat)
    requires idx <= ENTRIES && (idx == ENTRIES || psize < Size(depth))
    ensures Extent(idx, psize, depth) == 0
  {
  }

  lemma WithinTable(vbase: nat, v: nat, psize: nat, depth: nat)
    requires 1 <= depth <= 3 && Offset(vbase, depth) == 0
    requires vbase <= v < vbase + Extent(PathOf(vbase)[depth], psize, depth)
    ensures PathOf(v)[..depth] == PathOf(vbase)[..depth]
  {
    Quotients(v);
    Quotients(vbase);
    if depth == 1 {
      SameRow(vbase / HUGE_PAGE, v / HUGE_PAGE);
    } else if depth == 2 {
      SameRow(vbase / LARGE_PAGE, v / LARGE_PAGE);
    } else {
      SameRow(vbase / PAGE, v / PAGE);
    }
  }

  lemma SameRow(x: nat, y: nat)
    requires x <= y < x + (ENTRIES - x % ENTRIES)
    ensures x / ENTRIES == y / ENTRIES
  {
  }

  lemma ExtentBound(idx: nat, psize: nat, depth: nat)
    requires idx <= ENTRIES
    ensures Extent(idx, psize, depth) <= psize && Extent(idx, psize, depth) % PAGE == 0
  {
    var s := Size(depth);
    var whole := psize / s * s;
    assert whole <= psize;
  }

  /** In a fresh range the entries that one table takes are absent if the first is. */
  lemma {:induction false} FreshExtent(tables: Tables, pml4: nat, vbase: nat, psize: nat, depth: nat, n: nat)
    requires Fresh(tables, pml4, vbase, psize) && 1 <= depth <= 2 && vbase + psize <= TOP
    requires Offset(vbase, depth) == 0 && AbsentAt(tables, pml4, depth, vbase)
    requires n == Extent(PathOf(vbase)[depth], psize, depth)
    ensures Vacant(tables, pml4, depth, vbase, n)
  {
    ExtentBound(PathOf(vbase)[depth], psize, depth);
    forall v: nat | vbase <= v < vbase + n ensures PathOf(v)[..depth] == PathOf(vbase)[..depth] {
      WithinTable(vbase, v, psize, depth);
    }
    FreshIsVacant(tables, pml4, vbase, psize, depth, n);
  }

  /** The assertions at the head of `map_generic`. */
  predicate Acceptable(vbase: nat, pbase: nat, psize: nat, rights: MapAction) {
    pbase % PAGE == 0 && psize % PAGE == 0 && vbase % PAGE == 0 && !rights.NoAccess?
  }

  lemma AcceptableRest(vbase: nat, pbase: nat, psize: nat, rights: MapAction, m: nat, vrest: nat, prest: nat, left: nat)
    requires m % PAGE == 0 && vrest == vbase + m && prest == pbase + m && left + m == psize
    ensures Acceptable(vbase, pbase, psize, rights) ==> Acceptable(vrest, prest, left, rights)
  {
  }

  /** `FillTable` has filled `mapped` bytes; the entries there were absent, or page-table entries. */
  ghost predicate Filled(tables: Tables, tables': Tables, pml4: nat, depth: nat, vbase: nat, mapped: nat)
    requires depth <= 3
  {
    && KeptBeyond(tables, tables', pml4, vbase, mapped)
    && (depth < 3 ==> Vacant(tables, pml4, depth, vbase, mapped))
  }

  lemma {:induction false} FilledMore(a: Tables, b: Tables, c: Tables, pml4: nat, depth: nat, vbase: nat, m: nat,
                                      cur: nat, k: nat)
    requires 1 <= depth <= 3 && cur == vbase + m && k == m + Size(depth) && cur < TOP && Offset(cur, depth) == 0
    requires Filled(a, b, pml4, depth, vbase, m) && KeptBeyond(b, c, pml4, cur, Size(depth)) && vbase + k <= TOP
    requires depth == 3 || AbsentAt(b, pml4, depth, cur)
    ensures Filled(a, c, pml4, depth, vbase, k)
  {
    KeptBeyondCompose(a, b, c, pml4, vbase, m, cur, Size(depth), k);
    if depth < 3 {
      forall v: nat | vbase <= v < vbase + k ensures AbsentAt(a, pml4, depth, v) {
        if cur <= v {
          UnderEntry(cur, v, depth);
          assert ReadsKept(a, b, pml4, cur);
          SameRead(a, pml4, v, cur, depth);
        }
      }
    }
  }

  lemma {:induction false} FirstMapped(b: Tables, c: Tables, pml4: nat, depth: nat, vbase: nat, m: nat, cur: nat,
                                       paddr: nat, n: nat, flags: Flags)
    requires cur == vbase + m && cur < TOP && (m > 0 ==> MappedBy(b, pml4, vbase, depth))
    requires MappedBy(c, pml4, cur, depth) && Extends(b, c, pml4, cur, paddr, n, flags)
    ensures MappedBy(c, pml4, vbase, depth)
  {
    if m > 0 {
      ExtendsKeeps(b, c, pml4, cur, paddr, n, flags);
      StillMapped(b, c, pml4, vbase, depth);
    }
  }

  lemma {:induction false} SameRead(tables: Tables, pml4: nat, v: nat, w: nat, depth: nat)
    requires depth <= 3 && PathOf(v)[..depth + 1] == PathOf(w)[..depth + 1]
    ensures Read(tables, pml4, PathOf(v), depth) == Read(tables, pml4, PathOf(w), depth)
  {
    var p, q := PathOf(v), PathOf(w);
    assert p[..depth] == p[..depth + 1][..depth] == q[..depth];
    assert p[depth] == p[..depth + 1][depth] == q[depth];
    WalkShared(tables, pml4, p, q, depth);
  }

  /** Where the entry for `v` begins, computed from its indices. */
  function EntryBase(v: nat, depth: nat): nat {
    PML4_SLOT * Pml4Index(v) + HUGE_PAGE * PdptIndex(v)
    + (if depth >= 2 then LARGE_PAGE * PdIndex(v) else 0) + (if depth >= 3 then PAGE * PtIndex(v) else 0)
  }

  lemma EntryBaseAligned(v: nat, depth: nat)
    requires v < TOP && 1 <= depth <= 3
    ensures v == EntryBase(v, depth) <==> Offset(v, depth) == 0
  {
    Digits(v);
  }

  /** The test in the code finds out whether a page of this depth fits. */
  lemma {:induction false} ChoosesPage(tables: Tables, pml4: nat, t: nat, depth: nat, vbase: nat, pbase: nat,
                                       psize: nat)
    requires 1 <= depth <= 3 && vbase < TOP && Walk(tables, pml4, PathOf(vbase), depth) == Some(t)
    ensures vbase == EntryBase(vbase, depth) <==> Offset(vbase, depth) == 0
    ensures PageDepth(tables, pml4, depth, vbase, pbase, psize) ==
            if depth == 3
               || (!tables[t][PathOf(vbase)[depth]].present && vbase == EntryBase(vbase, depth)
                   && pbase % Size(depth) == 0 && psize >= Size(depth))
            then depth else PageDepth(tables, pml4, depth + 1, vbase, pbase, psize)
  {
    EntryBaseAligned(vbase, depth);
  }

  /** After a successful mapping, `resolve_addr` gives `pbase` plus the offset to the addresses of
      the range that were unmapped, and its old answer to every other address. */
  lemma ResolveAfterMap(tables: Tables, tables': Tables, pml4: nat, vbase: nat, pbase: nat, n: nat, flags: Flags,
                        v: nat)
    requires Extends(tables, tables', pml4, vbase, pbase, n, flags) && v < TOP
    ensures ResolveAddr(tables', pml4, v) ==
            if vbase <= v < vbase + n && ResolveAddr(tables, pml4, v).None?
            then Some(pbase + (v - vbase))
            else ResolveAddr(tables, pml4, v)
  {
    ResolveIsTranslate(tables, pml4, v);
    ResolveIsTranslate(tables', pml4, v);
    assert ExtendsAt(tables, tables', pml4, vbase, pbase, n, flags, v);
  }

  /** `v` is mapped, and the processor lets it be written, used by users and executed exactly as the action
      says; it is uncached exactly if the action asks for that. */
  ghost predicate GrantedAt(tables: Tables, pml4: nat, v: nat, action: MapAction) {
    match FindLeaf(tables, pml4, PathOf(v))
    case None => false
    case Some(leaf) =>
      && leaf.depth <= 3 && (forall d :: 0 <= d <= leaf.depth ==> Read(tables, pml4, PathOf(v), d).Some?)
      && var f := Effective(tables, pml4, PathOf(v), leaf.depth);
         && (f.rw <==> 'W' in Shown(action)) && (f.us <==> 'u' in Shown(action))
         && (!f.xd <==> 'X' in Shown(action)) && (f.pcd <==> 'C' in Shown(action))
  }

  /** A translation with the flags of an action grants what the action says, unless the action is `NoAccess`. */
  lemma GrantedExactly(tables: Tables, pml4: nat, place: Places, v: nat, action: MapAction)
    requires Tree(tables, pml4, place) && OpenLinks(tables, place)
    requires Translate(tables, pml4, v).Some? && Translate(tables, pml4, v).value.flags == Rights(action)
    ensures GrantedAt(tables, pml4, v, action) <==> !action.NoAccess?
  {
    var leaf := FindLeaf(tables, pml4, PathOf(v)).value;
    EffectiveIsLast(tables, pml4, place, PathOf(v), leaf.depth);
    RightsAsShown(action);
    NotExecuted();
  }

  lemma NotExecuted()
    ensures 'X' !in Shown(NoAccess)
  {
  }

  /** Every address of `[vbase, vbase + n)` that was unmapped is mapped as the action says. */
  ghost predicate GrantsNew(tables: Tables, tables': Tables, pml4: nat, vbase: nat, n: nat, action: MapAction) {
    forall v: nat {:trigger GrantedAt(tables', pml4, v, action)} ::
      vbase <= v < vbase + n && Translate(tables, pml4, v).None? ==> GrantedAt(tables', pml4, v, action)
  }

  lemma ExtendsGrants(tables: Tables, tables': Tables, pml4: nat, place: Places, vbase: nat, pbase: nat, n: nat,
                      action: MapAction)
    requires Tree(tables', pml4, place) && OpenLinks(tables', place) && !action.NoAccess? && vbase + n <= TOP
    requires Extends(tables, tables', pml4, vbase, pbase, n, Rights(action))
    ensures GrantsNew(tables, tables', pml4, vbase, n, action)
  {
    forall v: nat | vbase <= v < vbase + n && Translate(tables, pml4, v).None?
      ensures GrantedAt(tables', pml4, v, action)
    {
      assert ExtendsAt(tables, tables', pml4, vbase, pbase, n, Rights(action), v);
      GrantedExactly(tables', pml4, place, v, action);
    }
  }

  /** Every address of `[vbase, vbase + n)` is mapped, and as the action says unless that is `NoAccess`. */
  ghost predicate GrantsAll(tables: Tables, pml4: nat, vbase: nat, n: nat, action: MapAction) {
    forall v: nat {:trigger GrantedAt(tables, pml4, v, action)} :: vbase <= v < vbase + n ==>
      Translate(tables, pml4, v).Some? && (GrantedAt(tables, pml4, v, action) <==> !action.NoAccess?)
  }

  ghost predicate AllMapped(tables: Tables, pml4: nat, vbase: nat, n: nat) {
    forall v: nat {:trigger Translate(tables, pml4, v)} :: vbase <= v < vbase + n ==> Translate(tables, pml4, v).Some?
  }

  lemma ProtectedGrants(tables: Tables, tables': Tables, pml4: nat, place: Places, vbase: nat, n: nat,
                        action: MapAction)
    requires Tree(tables', pml4, place) && OpenLinks(tables', place) && vbase + n <= TOP
    requires Protected(tables, tables', pml4, vbase, n, Rights(action)) && AllMapped(tables, pml4, vbase, n)
    ensures GrantsAll(tables', pml4, vbase, n, action)
  {
    forall v: nat | vbase <= v < vbase + n
      ensures Translate(tables', pml4, v).Some? && (GrantedAt(tables', pml4, v, action) <==> !action.NoAccess?)
    {
      assert ProtectedAt(tables, tables', pml4, vbase, n, Rights(action), v);
      GrantedExactly(tables', pml4, place, v, action);
    }
  }

  /** The walk for `v` meets no 1 GiB or 2 MiB page. */
  ghost predicate NoLargePage(tables: Tables, pml4: nat, v: nat) {
    !LeafAt(tables, pml4, PathOf(v), 1) && !LeafAt(tables, pml4, PathOf(v), 2)
  }

  /** Rewriting a page-table entry changes that page only. */
  lemma {:induction false} RewriteAt(tables: Tables, tables': Tables, pml4: nat, place: Places, t: nat, q: Path,
                                     p: Path)
    requires Tree(tables, pml4, place) && Walk(tables, pml4, q, 3) == Some(t) && OneEntry(tables, tables', t, q[3])
    ensures p == q ==>
              FindLeaf(tables', pml4, p) == if tables'[t][q[3]].present then Some(Leaf(tables'[t][q[3]], 3)) else None
    ensures p != q ==> FindLeaf(tables', pml4, p) == FindLeaf(tables, pml4, p)
    ensures forall d :: 1 <= d <= 2 ==> (LeafAt(tables', pml4, p, d) <==> LeafAt(tables, pml4, p, d))
  {
    WalkPlace(tables, pml4, place, q, 3);
    forall d | 0 <= d <= 2 ensures Read(tables', pml4, p, d) == Read(tables, pml4, p, d) {
      WriteWalk(tables, tables', pml4, place, t, q[3], p, d);
      WriteRead(tables, tables', pml4, place, t, q[3], p, d);
    }
    assert p[..4] == p && q[..4] == q == place[t] + [q[3]];
    if p == q {
      WriteHere(tables, tables', pml4, place, t, q[3], p, q, 3);
      FirstStop(tables', pml4, p, 3);
    } else {
      WriteElsewhere(tables, tables', pml4, place, t, q[3], p);
    }
  }

  lemma SamePage(v: nat, w: nat)
    requires v < TOP && w < TOP
    ensures PathOf(v) == PathOf(w) <==> v / PAGE == w / PAGE
  {
    SamePrefix(v, w);
    var p, q := PathOf(v), PathOf(w);
    assert p == q <==> p[0] == q[0] && p[1] == q[1] && p[2] == q[2] && p[3] == q[3];
  }

  /** What became of the translation of `w` when the page-table entry for `v` was replaced. */
  ghost predicate RewrittenAt(tables: Tables, tables': Tables, pml4: nat, v: nat, e: Entry, w: nat) {
    && (NoLargePage(tables', pml4, w) <==> NoLargePage(tables, pml4, w))
    && Translate(tables', pml4, w) ==
       if w / PAGE != v / PAGE then Translate(tables, pml4, w)
       else if e.present then Some(Translation(e.addr + w % PAGE, e.flags)) else None
  }

  lemma RewriteLeaf(tables: Tables, tables': Tables, pml4: nat, v: nat, e: Entry, w: nat)
    requires w / PAGE == v / PAGE ==> FindLeaf(tables', pml4, PathOf(w)) == if e.present then Some(Leaf(e, 3)) else None
    requires w / PAGE != v / PAGE ==> FindLeaf(tables', pml4, PathOf(w)) == FindLeaf(tables, pml4, PathOf(w))
    requires forall d :: 1 <= d <= 2 ==> (LeafAt(tables', pml4, PathOf(w), d) <==> LeafAt(tables, pml4, PathOf(w), d))
    ensures RewrittenAt(tables, tables', pml4, v, e, w)
  {
  }

  /** `v` kept its physical address, and got the rights `flags` if it is in `[vbase, vbase + n)`. */
  ghost predicate ProtectedAt(tables: Tables, tables': Tables, pml4: nat, vbase: nat, n: nat, flags: Flags, v: nat) {
    && (NoLargePage(tables', pml4, v) <==> NoLargePage(tables, pml4, v))
    && Translate(tables', pml4, v) ==
       match Translate(tables, pml4, v)
       case None => None
       case Some(t) => Some(Translation(t.paddr, if vbase <= v < vbase + n then flags else t.flags))
  }

  /** The rights changed exactly on the pages of `[vbase, vbase + n)`. */
  ghost predicate Protected(tables: Tables, tables': Tables, pml4: nat, vbase: nat, n: nat, flags: Flags) {
    forall v: nat :: v < TOP ==> ProtectedAt(tables, tables', pml4, vbase, n, flags, v)
  }

  lemma ProtectedCompose(a: Tables, b: Tables, c: Tables, pml4: nat, vbase: nat, m: nat, vnext: nat, n: nat, k: nat,
                         flags: Flags)
    requires vnext == vbase + m && k == m + n
    requires Protected(a, b, pml4, vbase, m, flags) && Protected(b, c, pml4, vnext, n, flags)
    ensures Protected(a, c, pml4, vbase, k, flags)
  {
    forall v: nat | v < TOP ensures ProtectedAt(a, c, pml4, vbase, k, flags, v) {
      assert ProtectedAt(a, b, pml4, vbase, m, flags, v);
      assert ProtectedAt(b, c, pml4, vnext, n, flags, v);
    }
  }

  lemma ProtectsNothing(a: Tables, pml4: nat, vbase: nat, flags: Flags)
    ensures Protected(a, a, pml4, vbase, 0, flags)
  {
  }

  lemma ProtectedSameShape(a: Tables, b: Tables, pml4: nat, vbase: nat, n: nat, flags: Flags, v: nat)
    requires Protected(a, b, pml4, vbase, n, flags) && v < TOP && NoLargePage(a, pml4, v)
    ensures NoLargePage(b, pml4, v)
  {
    assert ProtectedAt(a, b, pml4, vbase, n, flags, v);
  }

  lemma MappedBefore(a: Tables, b: Tables, pml4: nat, vbase: nat, n: nat, flags: Flags, cur: nat)
    requires Protected(a, b, pml4, vbase, n, flags) && AllMapped(b, pml4, cur, PAGE) && cur + PAGE <= TOP
    ensures AllMapped(a, pml4, cur, PAGE)
  {
    forall v: nat | cur <= v < cur + PAGE ensures Translate(a, pml4, v).Some? {
      assert ProtectedAt(a, b, pml4, vbase, n, flags, v);
      assert Translate(b, pml4, v).Some?;
    }
  }

  /** Rewriting the entry for `v` with its own address and new flags changes the rights of the page
      at `v0` only. */
  lemma RewriteProtects(tables: Tables, tables': Tables, pml4: nat, t: nat, v: nat, v0: nat, flags: Flags)
    requires v < TOP && v0 == v - v % PAGE
    requires Walk(tables, pml4, PathOf(v), 3) == Some(t) && tables[t][PathOf(v)[3]].present
    requires forall w: nat :: w < TOP ==>
               RewrittenAt(tables, tables', pml4, v, Entry(tables[t][PathOf(v)[3]].addr, true, false, flags), w)
    ensures Protected(tables, tables', pml4, v0, PAGE, flags)
  {
    var e := Entry(tables[t][PathOf(v)[3]].addr, true, false, flags);
    forall w: nat | w < TOP ensures ProtectedAt(tables, tables', pml4, v0, PAGE, flags, w) {
      assert RewrittenAt(tables, tables', pml4, v, e, w);
      if w / PAGE == v / PAGE {
        SamePage(w, v);
        FirstStop(tables, pml4, PathOf(w), 3);
      }
    }
  }

  class VSpace {
    /** Address of the root table. */
    const pml4: nat
    var tables: Tables
    /** The frames the page allocator will hand out, in order; when it is empty, allocation fails. */
    var frames: seq<nat>
    ghost var place: Places

    ghost predicate Valid()
      reads this
    {
      && Tree(tables, pml4, place) && OpenLinks(tables, place)
      && Distinct(frames) && forall f :: f in frames ==> f !in tables
    }

    /** An address space with an empty root table. */
    constructor (root: nat, supply: seq<nat>)
      requires Distinct(supply) && root !in supply
      ensures Valid() && pml4 == root && frames == supply
      ensures forall v: nat :: ResolveAddr(tables, pml4, v) == None
    {
      pml4 := root;
      frames := supply;
      tables := map[root := Zeroed()];
      place := map[root := []];
    }

    /** Allocate a zeroed table and link it at an absent entry; false when out of memory. */
    method NewTable(t: nat, depth: nat, i: Idx, ghost vbase: nat, ghost pbase: nat, ghost psize: nat,
                    ghost flags: Flags)
      returns (ok: bool)
      requires Valid() && depth <= 2 && vbase < TOP
      requires Walk(tables, pml4, PathOf(vbase), depth) == Some(t) && i == PathOf(vbase)[depth]
      requires !tables[t][i].present
      modifies this
      ensures Valid() && Extends(old(tables), tables, pml4, vbase, pbase, 0, flags)
      ensures !ok ==> tables == old(tables) && frames == []
      ensures ok ==> Walk(tables, pml4, PathOf(vbase), depth) == Some(t) && t in tables && !tables[t][i].page
                     && IsLink(tables[t][i], depth) && tables[t][i].addr in tables
      ensures Fresh(old(tables), pml4, vbase, psize) ==> Fresh(tables, pml4, vbase, psize)
      ensures SameUnused(old(tables), tables, pml4, depth, vbase)
    {
      if frames == [] {
        ExtendsNothing(tables, pml4, vbase, pbase, flags);
        return false;
      }
      var e := Entry(frames[0], true, false, OPEN);
      assert frames[0] in frames;
      assert forall f :: f in frames[1..] ==> f in frames;
      frames := frames[1..];
      WalkPlace(tables, pml4, place, PathOf(vbase), depth);
      LinkKeepsTree(tables, pml4, place, t, i, e);
      LinkKeepsOpen(tables, place, t, i, e);
      LinkKeeps(tables, pml4, place, t, i, e, PathOf(vbase), vbase, pbase, flags);
      WriteWalk(tables, Linked(tables, t, i, e), pml4, place, t, i, PathOf(vbase), depth);
      if Fresh(tables, pml4, vbase, psize) { LinkKeepsFresh(tables, pml4, place, t, e, vbase, depth, psize); }
      LinkUnused(tables, pml4, place, t, e, depth, vbase);
      place := place[e.addr := place[t] + [i]];
      tables := Linked(tables, t, i, e);
      ok := true;
    }

    /** Make sure an entry of `t` leads to a table, allocating one if the entry is absent; false
        when out of memory or when the entry is a large mapping already. */
    method Descend(t: nat, depth: nat, vbase: nat, ghost pbase: nat, ghost psize: nat, ghost flags: Flags)
      returns (ok: bool, child: nat)
      requires Valid() && depth <= 2 && vbase < TOP && Walk(tables, pml4, PathOf(vbase), depth) == Some(t)
      modifies this
      ensures Valid() && Extends(old(tables), tables, pml4, vbase, pbase, 0, flags)
      ensures ok ==> Walk(tables, pml4, PathOf(vbase), depth + 1) == Some(child)
      ensures Fresh(old(tables), pml4, vbase, psize) ==> Fresh(tables, pml4, vbase, psize) && (ok || frames == [])
      ensures SameUnused(old(tables), tables, pml4, depth, vbase)
    {
      var i := PathOf(vbase)[depth];
      WalkPlace(tables, pml4, place, PathOf(vbase), depth);
      ok, child := true, 0;
      if !tables[t][i].present {
        ok := NewTable(t, depth, i, vbase, pbase, psize, flags);
      } else {
        ExtendsNothing(tables, pml4, vbase, pbase, flags);
        assert LinksDown(tables, place, t, i);
        assert depth > 0 && Fresh(tables, pml4, vbase, psize) ==> ClearAt(tables, pml4, vbase, vbase, depth);
      }
      if ok && depth > 0 && tables[t][i].page {
        ok := false;
      }
      if ok {
        child := tables[t][i].addr;
      }
    }

    /** Write one leaf: the body of the three mapping loops. A page-table entry that is present is
        left alone; a present entry of a PDPT or PD is a panic. */
    method FillEntry(t: nat, depth: nat, v: nat, paddr: nat, flags: Flags) returns (ok: bool)
      requires Valid() && 1 <= depth <= 3 && v < TOP && Offset(v, depth) == 0
      requires Walk(tables, pml4, PathOf(v), depth) == Some(t)
      modifies this`tables
      ensures Valid()
      ensures ok <==> depth == 3 || AbsentAt(old(tables), pml4, depth, v)
      ensures !ok ==> tables == old(tables)
      ensures ok ==> Extends(old(tables), tables, pml4, v, paddr, Size(depth), flags)
      ensures ok ==> MappedBy(tables, pml4, v, depth)
      ensures KeptBeyond(old(tables), tables, pml4, v, Size(depth))
      ensures forall p: Path :: p[..depth] == PathOf(v)[..depth] ==> Walk(tables, pml4, p, depth) == Some(t)
    {
      var i := PathOf(v)[depth];
      if !tables[t][i].present {
        ghost var before := tables;
        tables := tables[t := tables[t][i := Entry(paddr, true, depth < 3, flags)]];
        FillLeaf(before, tables, pml4, place, t, v, depth);
        LeafKeepsTree(before, tables, pml4, place, t, PathOf(v), depth);
        FillKeepsReads(before, tables, pml4, place, t, v, depth);
        FillLeafAt(before, tables, pml4, place, t, PathOf(v), PathOf(v), depth);
        ok := true;
      } else {
        ok := depth == 3;
        if ok {
          PresentIsMapped(tables, pml4, v);
          FirstStop(tables, pml4, PathOf(v), 3);
          forall w: nat | w < TOP ensures ExtendsAt(tables, tables, pml4, v, paddr, PAGE, flags, w) {}
        }
        forall p: Path | p[..depth] == PathOf(v)[..depth] ensures Walk(tables, pml4, p, depth) == Some(t) {
          WalkShared(tables, pml4, p, PathOf(v), depth);
        }
      }
    }

    /** The walk for `v` reaches entry `idx` of `t`, and `v` is where that entry begins. */
    ghost predicate AtEntry(t: nat, depth: nat, v: nat, idx: nat)
      requires 1 <= depth <= 3
      reads this
    {
      PathOf(v)[depth] == idx && Offset(v, depth) == 0 && Walk(tables, pml4, PathOf(v), depth) == Some(t)
    }

    /** `FillEntry`, when `next` is where entry `idx'`, the one after, begins. */
    method FillNext(t: nat, depth: nat, v: nat, paddr: nat, flags: Flags, ghost idx: nat, ghost next: nat,
                    ghost idx': nat)
      returns (ok: bool)
      requires idx' == idx + 1 && next == v + Size(depth)
      requires Valid() && 1 <= depth <= 3 && v < TOP && AtEntry(t, depth, v, idx)
      modifies this`tables
      ensures Valid()
      ensures ok <==> depth == 3 || AbsentAt(old(tables), pml4, depth, v)
      ensures !ok ==> tables == old(tables)
      ensures ok ==> Extends(old(tables), tables, pml4, v, paddr, Size(depth), flags)
      ensures ok ==> MappedBy(tables, pml4, v, depth)
      ensures KeptBeyond(old(tables), tables, pml4, v, Size(depth))
      ensures ok && idx' < ENTRIES ==> AtEntry(t, depth, next, idx')
    {
      ok := FillEntry(t, depth, v, paddr, flags);
      if idx' < ENTRIES {
        NextEntry(v, depth, next);
      }
    }

    /** One turn of a mapping loop that started from `first` and has mapped `mapped` bytes. */
    method FillOne(t: nat, depth: nat, vbase: nat, pbase: nat, mapped: nat, cur: nat, idx: nat, flags: Flags,
                   ghost first: Tables)
      returns (ok: bool, mapped': nat, next: nat, idx': nat)
      requires Valid() && 1 <= depth <= 3 && cur == vbase + mapped
      requires cur + Size(depth) <= TOP && AtEntry(t, depth, cur, idx)
      requires Extends(first, tables, pml4, vbase, pbase, mapped, flags)
      requires Filled(first, tables, pml4, depth, vbase, mapped)
      requires mapped > 0 ==> MappedBy(tables, pml4, vbase, depth)
      modifies this`tables
      ensures Valid() && mapped' == (if ok then mapped + Size(depth) else mapped)
      ensures Extends(first, tables, pml4, vbase, pbase, mapped', flags)
      ensures Filled(first, tables, pml4, depth, vbase, mapped') && (ok ==> MappedBy(tables, pml4, vbase, depth))
      ensures !ok ==> depth < 3 && !AbsentAt(first, pml4, depth, cur)
      ensures next == cur + Size(depth) && idx' == idx + 1 && (ok && idx' < ENTRIES ==> AtEntry(t, depth, next, idx'))
    {
      ghost var before := tables;
      var paddr, total := pbase + mapped, mapped + Size(depth);
      next, idx', mapped' := cur + Size(depth), idx + 1, mapped;
      ok := FillNext(t, depth, cur, paddr, flags, idx, next, idx');
      if ok {
        ExtendsCompose(first, before, tables, pml4, vbase, pbase, mapped, cur, paddr, Size(depth), total, flags);
        FilledMore(first, before, tables, pml4, depth, vbase, mapped, cur, total);
        FirstMapped(before, tables, pml4, depth, vbase, mapped, cur, paddr, Size(depth), flags);
        mapped' := total;
      } else {
        assert ReadsKept(first, before, pml4, cur);
      }
    }

    /** One of the three mapping loops: fill the entries of table `t` from the one for `vbase` on,
        as long as a whole entry's worth remains and the table has entries left. The loops over a PDPT
        or a PD panic exactly when one of these entries is present, be it a page or a table. */
    method FillTable(t: nat, depth: nat, vbase: nat, pbase: nat, psize: nat, flags: Flags)
      returns (ok: bool, mapped: nat)
      requires Valid() && 1 <= depth <= 3 && vbase < TOP && vbase + psize <= TOP && Offset(vbase, depth) == 0
      requires Walk(tables, pml4, PathOf(vbase), depth) == Some(t)
      modifies this`tables
      ensures Valid() && mapped <= psize && Extends(old(tables), tables, pml4, vbase, pbase, mapped, flags)
      ensures ok <==> depth == 3 || Vacant(old(tables), pml4, depth, vbase, Extent(PathOf(vbase)[depth], psize, depth))
      ensures ok ==> mapped == Extent(PathOf(vbase)[depth], psize, depth)
      ensures ok && psize >= Size(depth) ==> mapped > 0 && MappedBy(tables, pml4, vbase, depth)
      ensures KeptBeyond(old(tables), tables, pml4, vbase, mapped)
    {
      var idx: nat := PathOf(vbase)[depth];
      mapped := 0;
      var cur := vbase;
      ghost var left: nat, total: nat := psize, Extent(idx, psize, depth);
      ghost var rest: nat := total;
      ExtentBound(idx, psize, depth);
      ExtendsNothing(tables, pml4, vbase, pbase, flags);
      while mapped < psize && psize - mapped >= Size(depth) && idx < ENTRIES
        invariant Valid() && mapped + left == psize && idx <= ENTRIES
        invariant mapped + rest == total && rest == Extent(idx, left, depth)
        invariant Extends(old(tables), tables, pml4, vbase, pbase, mapped, flags)
        invariant Filled(old(tables), tables, pml4, depth, vbase, mapped)
        invariant mapped > 0 ==> MappedBy(tables, pml4, vbase, depth)
        invariant cur == vbase + mapped && (idx < ENTRIES ==> AtEntry(t, depth, cur, idx))
        invariant mapped > 0 || idx < ENTRIES
        decreases psize - mapped
      {
        ghost var left' := left - Size(depth);
        ExtentStep(idx, left, depth, idx + 1, left');
        ok, mapped, cur, idx := FillOne(t, depth, vbase, pbase, mapped, cur, idx, flags, old(tables));
        if !ok { return; }
        left, rest := left', rest - Size(depth);
      }
      ExtentEnd(idx, left, depth);
      ok := true;
    }

    /** Map `[vbase, vbase + psize)` to `pbase` with the largest pages that fit, recursing over what
        one table could not take; false stands for a failed assertion or panic. A fresh range fails only
        for lack of frames. */
    method MapGeneric(vbase: nat, pbase: nat, psize: nat, rights: MapAction) returns (ok: bool)
      requires Valid() && vbase < TOP && vbase + psize <= TOP
      modifies this
      ensures Valid() && Keeps(old(tables), tables, pml4)
      ensures ok ==> Acceptable(vbase, pbase, psize, rights)
      ensures ok ==> Extends(old(tables), tables, pml4, vbase, pbase, psize, Rights(rights))
      ensures ok ==> GrantsNew(old(tables), tables, pml4, vbase, psize, rights)
      ensures Acceptable(vbase, pbase, psize, rights) && Fresh(old(tables), pml4, vbase, psize) ==> ok || frames == []
      ensures ok && psize > 0 ==> MappedBy(tables, pml4, vbase, PageDepth(old(tables), pml4, 1, vbase, pbase, psize))
      decreases psize, 4
    {
      if pbase % PAGE != 0 || psize % PAGE != 0 || vbase % PAGE != 0 || rights.NoAccess? {
        return false;
      }
      var flags := Rights(rights);
      ghost var t0 := tables;
      assert Walk(tables, pml4, PathOf(vbase), 0) == Some(pml4);
      var pdpt;
      ok, pdpt := Descend(pml4, 0, vbase, pbase, psize, flags);
      ghost var t1 := tables;
      SamePageDepth(t0, t1, pml4, 0, vbase, pbase, psize);
      ExtendsKeeps(t0, t1, pml4, vbase, pbase, 0, flags);
      if ok {
        ok := MapFrom(pdpt, 1, vbase, pbase, psize, rights);
        KeepsCompose(t0, t1, tables, pml4);
        if ok {
          ExtendsCompose(t0, t1, tables, pml4, vbase, pbase, 0, vbase, pbase, psize, psize, flags);
          ExtendsGrants(t0, tables, pml4, place, vbase, pbase, psize, rights);
        }
      }
    }

    /** Map from the PDPT, PD or page table `t` down: use entries of `t` if they are the right size,
        otherwise go one level deeper. */
    method MapFrom(t: nat, depth: nat, vbase: nat, pbase: nat, psize: nat, rights: MapAction) returns (ok: bool)
      requires Valid() && 1 <= depth <= 3 && vbase < TOP && vbase + psize <= TOP
      requires vbase % PAGE == 0 && psize % PAGE == 0
      requires Walk(tables, pml4, PathOf(vbase), depth) == Some(t)
      modifies this
      ensures Valid() && Keeps(old(tables), tables, pml4)
      ensures ok ==> Extends(old(tables), tables, pml4, vbase, pbase, psize, Rights(rights))
      ensures Acceptable(vbase, pbase, psize, rights) && Fresh(old(tables), pml4, vbase, psize) ==> ok || frames == []
      ensures ok && psize > 0 ==>
                MappedBy(tables, pml4, vbase, PageDepth(old(tables), pml4, depth, vbase, pbase, psize))
      decreases psize, 4 - depth
    {
      ChoosesPage(tables, pml4, t, depth, vbase, pbase, psize);
      if depth == 3
         || (!tables[t][PathOf(vbase)[depth]].present && vbase == EntryBase(vbase, depth)
             && pbase % Size(depth) == 0 && psize >= Size(depth))
      {
        ok := MapHere(t, depth, vbase, pbase, psize, rights);
        return;
      }
      var flags := Rights(rights);
      ghost var t0 := tables;
      var child;
      ok, child := Descend(t, depth, vbase, pbase, psize, flags);
      ghost var t1 := tables;
      SamePageDepth(t0, t1, pml4, depth, vbase, pbase, psize);
      ExtendsKeeps(t0, t1, pml4, vbase, pbase, 0, flags);
      if ok {
        ok := MapFrom(child, depth + 1, vbase, pbase, psize, rights);
        KeepsCompose(t0, t1, tables, pml4);
        if ok { ExtendsCompose(t0, t1, tables, pml4, vbase, pbase, 0, vbase, pbase, psize, psize, flags); }
      }
    }

    /** Fill what table `t` can take; `left` bytes at `vrest` remain, to be mapped to `prest`. */
    method FillPart(t: nat, depth: nat, vbase: nat, pbase: nat, psize: nat, rights: MapAction)
      returns (ok: bool, mapped: nat, vrest: nat, prest: nat, left: nat)
      requires Valid() && 1 <= depth <= 3 && vbase < TOP && vbase + psize <= TOP && Offset(vbase, depth) == 0
      requires Walk(tables, pml4, PathOf(vbase), depth) == Some(t)
      modifies this`tables
      ensures Valid() && mapped + left == psize && vrest == vbase + mapped && prest == pbase + mapped
      ensures Extends(old(tables), tables, pml4, vbase, pbase, mapped, Rights(rights))
      ensures ok && psize >= Size(depth) ==> mapped > 0 && MappedBy(tables, pml4, vbase, depth)
      ensures ok && Acceptable(vbase, pbase, psize, rights) ==> Acceptable(vrest, prest, left, rights)
      ensures Fresh(old(tables), pml4, vbase, psize) && (depth == 3 || AbsentAt(old(tables), pml4, depth, vbase)) ==>
                ok && (left > 0 ==> Fresh(tables, pml4, vrest, left))
    {
      ghost var before, n := tables, Extent(PathOf(vbase)[depth], psize, depth);
      if Fresh(before, pml4, vbase, psize) && depth < 3 && AbsentAt(before, pml4, depth, vbase) {
        FreshExtent(before, pml4, vbase, psize, depth, n);
      }
      ExtentBound(PathOf(vbase)[depth], psize, depth);
      ok, mapped := FillTable(t, depth, vbase, pbase, psize, Rights(rights));
      vrest, prest, left := vbase + mapped, pbase + mapped, psize - mapped;
      if ok { AcceptableRest(vbase, pbase, psize, rights, mapped, vrest, prest, left); }
      if Fresh(before, pml4, vbase, psize) && left > 0 {
        FreshRest(before, tables, pml4, vbase, psize, mapped, vrest, left);
      }
    }

    /** Fill what table `t` can take and start over for the rest. */
    method MapHere(t: nat, depth: nat, vbase: nat, pbase: nat, psize: nat, rights: MapAction) returns (ok: bool)
      requires Valid() && 1 <= depth <= 3 && vbase < TOP && vbase + psize <= TOP && Offset(vbase, depth) == 0
      requires Walk(tables, pml4, PathOf(vbase), depth) == Some(t)
      requires psize == 0 || psize >= Size(depth)
      modifies this
      ensures Valid() && Keeps(old(tables), tables, pml4)
      ensures ok ==> Extends(old(tables), tables, pml4, vbase, pbase, psize, Rights(rights))
      ensures ok && psize > 0 ==> MappedBy(tables, pml4, vbase, depth)
      ensures
        (&& Acceptable(vbase, pbase, psize, rights) && Fresh(old(tables), pml4, vbase, psize)
         && (depth == 3 || AbsentAt(old(tables), pml4, depth, vbase))) ==>
          ok || frames == []
      decreases psize, 0
    {
      var flags := Rights(rights);
      ghost var t0 := tables;
      var mapped, vrest, prest, left;
      ok, mapped, vrest, prest, left := FillPart(t, depth, vbase, pbase, psize, rights);
      ghost var t1 := tables;
      ExtendsKeeps(t0, t1, pml4, vbase, pbase, mapped, flags);
      if ok && left == 0 {
        assert mapped == psize;
      } else if ok {
        ok := MapGeneric(vrest, prest, left, rights);
        KeepsCompose(t0, t1, tables, pml4);
        if ok {
          ExtendsCompose(t0, t1, tables, pml4, vbase, pbase, mapped, vrest, prest, left, psize, flags);
          StillMapped(t1, tables, pml4, vbase, depth);
        }
      }
    }

    /** The four presence checks that `set_guard_page` and `map_change_prot` start with. */
    method FindPage(v: nat) returns (found: bool, t: nat)
      requires Valid() && NoLargePage(tables, pml4, v)
      ensures found <==> Translate(tables, pml4, v).Some?
      ensures found ==> Walk(tables, pml4, PathOf(v), 3) == Some(t) && tables[t][PathOf(v)[3]].present
    {
      var p := PathOf(v);
      t := pml4;
      for depth := 0 to 3
        invariant Walk(tables, pml4, p, depth) == Some(t)
      {
        FirstStop(tables, pml4, p, depth);
        if !tables[t][p[depth]].present { return false, t; }
        WalkPlace(tables, pml4, place, p, depth);
        assert !LeafAt(tables, pml4, p, depth);
        assert LinksDown(tables, place, t, p[depth]);
        t := tables[t][p[depth]].addr;
      }
      FirstStop(tables, pml4, p, 3);
      found := tables[t][p[3]].present;
    }

    /** Replace the page-table entry for `v`. */
    method RewriteEntry(t: nat, v: nat, e: Entry)
      requires Valid() && v < TOP && Walk(tables, pml4, PathOf(v), 3) == Some(t)
      modifies this`tables
      ensures Valid()
      ensures forall w: nat :: w < TOP ==> RewrittenAt(old(tables), tables, pml4, v, e, w)
    {
      ghost var before, q := tables, PathOf(v);
      tables := tables[t := tables[t][PathOf(v)[3] := e]];
      LeafKeepsTree(before, tables, pml4, place, t, q, 3);
      forall w: nat | w < TOP ensures RewrittenAt(before, tables, pml4, v, e, w) {
        RewriteAt(before, tables, pml4, place, t, q, PathOf(w));
        SamePage(w, v);
        RewriteLeaf(before, tables, pml4, v, e, w);
      }
    }

    /** Take away the mapping of one page; every other address keeps its translation. */
    method SetGuardPage(vbase: nat) returns (done: bool)
      requires Valid() && vbase < TOP && NoLargePage(tables, pml4, vbase)
      modifies this`tables
      ensures Valid()
      ensures done <==> old(Translate(tables, pml4, vbase)).Some?
      ensures forall v: nat :: v < TOP ==>
                Translate(tables, pml4, v) ==
                if done && v / PAGE == vbase / PAGE then None else Translate(old(tables), pml4, v)
    {
      var t;
      done, t := FindPage(vbase);
      if done {
        ghost var before := tables;
        var e := Entry(tables[t][PtIndex(vbase)].addr, false, false, Rights(NoAccess));
        RewriteEntry(t, vbase, e);
        forall v: nat | v < TOP
          ensures Translate(tables, pml4, v) == if v / PAGE == vbase / PAGE then None else Translate(before, pml4, v)
        {
          assert RewrittenAt(before, tables, pml4, vbase, e, v);
        }
      }
    }

    /** Give one mapped page new rights at the same physical address. */
    method MapChangeProt(vbase: nat, rights: MapAction) returns (done: bool, ghost page: nat)
      requires Valid() && vbase < TOP && NoLargePage(tables, pml4, vbase)
      modifies this`tables
      ensures Valid() && page == vbase - vbase % PAGE && (done ==> page + PAGE <= TOP)
      ensures done <==> old(Translate(tables, pml4, vbase)).Some?
      ensures !done ==> tables == old(tables)
      ensures done ==> Protected(old(tables), tables, pml4, page, PAGE, Rights(rights))
      ensures done ==> AllMapped(old(tables), pml4, page, PAGE) && GrantsAll(tables, pml4, page, PAGE, rights)
    {
      var t;
      page := vbase - vbase % PAGE;
      done, t := FindPage(vbase);
      if done {
        ghost var before := tables;
        RewriteEntry(t, vbase, Entry(tables[t][PtIndex(vbase)].addr, true, false, Rights(rights)));
        RewriteProtects(before, tables, pml4, t, vbase, page, Rights(rights));
        PageMapped(before, pml4, vbase, page);
        ProtectedGrants(before, tables, pml4, place, page, PAGE, rights);
      }
    }

    /** One round of `MapChangeProtRange`, which started from `first`. */
    method ProtectNext(ghost first: Tables, ghost vbase: nat, ghost changed: nat, ghost total: nat, cur: nat,
                       rights: MapAction)
      returns (done: bool)
      requires Valid() && Protected(first, tables, pml4, vbase, changed, Rights(rights))
      requires cur == vbase + changed && cur < TOP && cur % PAGE == 0 && total == changed + PAGE
      requires NoLargePage(first, pml4, cur)
      modifies this`tables
      ensures Valid()
      ensures done ==> Protected(first, tables, pml4, vbase, total, Rights(rights))
      ensures done ==> AllMapped(first, pml4, cur, PAGE)
      ensures !done ==> tables == old(tables) && Translate(tables, pml4, cur).None?
    {
      ghost var before, page := tables, cur;
      ProtectedSameShape(first, tables, pml4, vbase, changed, Rights(rights), cur);
      done, page := MapChangeProt(cur, rights);
      if done {
        ProtectedCompose(first, before, tables, pml4, vbase, changed, page, PAGE, total, Rights(rights));
        MappedBefore(first, before, pml4, vbase, changed, Rights(rights), cur);
      }
    }

    /** Give the pages of a range new rights, stopping at the first unmapped one, `stop`. */
    method MapChangeProtRange(vbase: nat, size: nat, rights: MapAction)
      returns (done: bool, ghost changed: nat, ghost stop: nat)
      requires Valid() && vbase + size <= TOP && size % PAGE == 0 && vbase % PAGE == 0
      requires forall v: nat :: vbase <= v < vbase + size ==> NoLargePage(tables, pml4, v)
      modifies this`tables
      ensures Valid() && stop == vbase + changed && changed <= size
      ensures Protected(old(tables), tables, pml4, vbase, changed, Rights(rights))
      ensures AllMapped(old(tables), pml4, vbase, changed) && GrantsAll(tables, pml4, vbase, changed, rights)
      ensures if done then changed == size else changed < size && Translate(tables, pml4, stop).None?
    {
      changed := 0;
      ProtectsNothing(tables, pml4, vbase, Rights(rights));
      for p := 0 to size / PAGE
        invariant changed == p * PAGE
        invariant Valid() && Protected(old(tables), tables, pml4, vbase, changed, Rights(rights))
        invariant AllMapped(old(tables), pml4, vbase, changed)
      {
        var cur := vbase + p * PAGE;
        ghost var total := changed + PAGE;
        stop := cur;
        done := ProtectNext(old(tables), vbase, changed, total, cur, rights);
        if !done {
          ProtectedGrants(old(tables), tables, pml4, place, vbase, changed, rights);
          return;
        }
        changed := total;
      }
      done, stop := true, vbase + changed;
      ProtectedGrants(old(tables), tables, pml4, place, vbase, changed, rights);
    }
  }
}
