/** The kernel's table of shared-heap allocations and the reclamation of objects through it. */
module SharedHeap {
  import opened Collections
  import opened Common
  import opened Containment

  datatype Layout = Layout(size: nat, align: nat)

  datatype Allocation = Allocation(value: nat, domainPtr: nat, borrowPtr: nat, layout: Layout, typeId: nat)

  function Parts(a: Allocation): set<nat> { {a.value, a.domainPtr, a.borrowPtr} }

  /** The allocation is in the table, or taken out of it and not released yet. */
  ghost predicate Active(table: map<nat, Allocation>, pending: set<Allocation>, a: Allocation) {
    (a.value in table && table[a.value] == a) || a in pending
  }

  /** The three blocks of the allocation are distinct and belong to it. */
  ghost predicate Holds(owner: map<nat, Allocation>, a: Allocation) {
    && a.value != a.domainPtr && a.value != a.borrowPtr && a.domainPtr != a.borrowPtr
    && (forall b {:trigger b in owner} :: b in Parts(a) ==> b in owner && owner[b] == a)
  }

  ghost predicate TableOk(table: map<nat, Allocation>, pending: set<Allocation>, registered: set<nat>) {
    && (forall k {:trigger k in table} :: k in table ==> table[k].value == k && table[k].typeId in registered)
    && (forall a {:trigger a in pending} :: a in pending ==> a.value !in table && a.typeId in registered)
  }

  ghost predicate BlocksOk(table: map<nat, Allocation>, pending: set<Allocation>, owner: map<nat, Allocation>) {
    && (forall a {:trigger Active(table, pending, a)} :: Active(table, pending, a) ==> Holds(owner, a))
    && (forall b {:trigger b in owner} :: b in owner ==> b in Parts(owner[b]) && Active(table, pending, owner[b]))
  }

  ghost predicate SubMap(m: map<nat, Allocation>, n: map<nat, Allocation>) {
    m.Keys <= n.Keys && forall k {:trigger m[k]} :: k in m ==> m[k] == n[k]
  }

  lemma SubMapSize(m: map<nat, Allocation>, n: map<nat, Allocation>)
    requires SubMap(m, n)
    ensures |m| <= |n| && (m.Keys != n.Keys ==> |m| < |n|)
  {
    SubsetSize(m.Keys, n.Keys);
    assert |m| == |m.Keys| && |n| == |n.Keys|;
  }

  /** Everything the objects in `s` contain. */
  ghost function AllKids(g: Graph, s: seq<Allocation>): set<nat> {
    if s == [] then {} else AllKids(g, s[..|s| - 1]) + Elements(Kids(g, s[|s| - 1].value))
  }

  /** The queue holds the allocations at the keys in `cut`, each once. */
  ghost predicate Queued(queue: seq<Allocation>, table: map<nat, Allocation>, cut: set<nat>) {
    && (forall i {:trigger queue[i]} :: 0 <= i < |queue| ==>
          queue[i].value in cut && queue[i].value in table && table[queue[i].value] == queue[i])
    && (forall i, j {:trigger queue[i], queue[j]} :: 0 <= i < j < |queue| ==> queue[i] != queue[j])
    && (forall k {:trigger k in cut} :: k in cut ==> k in table && table[k].value == k && table[k] in queue)
  }

  lemma QueuedMore(queue: seq<Allocation>, table: map<nat, Allocation>, cut: set<nat>, k: nat)
    requires Queued(queue, table, cut) && k in table && table[k].value == k && k !in cut
    ensures Queued(queue + [table[k]], table, cut + {k})
  {
  }

  lemma QueueStep(g: Graph, queue: seq<Allocation>, table: map<nat, Allocation>, cut: set<nat>, i: nat)
    requires Queued(queue, table, cut) && i < |queue|
    ensures queue[i] in Elements(queue[i..]) && Elements(queue[i..]) - {queue[i]} == Elements(queue[i + 1..])
    ensures AllKids(g, queue[..i + 1]) == AllKids(g, queue[..i]) + Elements(Kids(g, queue[i].value))
  {
    assert queue[i..] == [queue[i]] + queue[i + 1..];
    assert queue[i] !in queue[i + 1..];
    assert queue[..i + 1][..i] == queue[..i];
  }

  lemma {:induction false} AllKidsAt(g: Graph, s: seq<Allocation>, c: nat)
    ensures c in AllKids(g, s) <==> exists i {:trigger s[i]} :: 0 <= i < |s| && c in Kids(g, s[i].value)
  {
    if s != [] {
      var n := |s| - 1;
      AllKidsAt(g, s[..n], c);
      if i :| 0 <= i < |s| && c in Kids(g, s[i].value) {
        if i < n { assert s[..n][i] == s[i]; }
      }
    }
  }

  lemma AllKidsOf(g: Graph, s: seq<Allocation>, table: map<nat, Allocation>, cut: set<nat>)
    requires Queued(s, table, cut)
    ensures forall k, c {:trigger k in cut, c in Kids(g, k)} :: k in cut && c in Kids(g, k) ==> c in AllKids(g, s)
    ensures forall c {:trigger c in AllKids(g, s)} :: c in AllKids(g, s) ==>
              exists k {:trigger k in cut} :: k in cut && c in Kids(g, k)
  {
    forall k, c | k in cut && c in Kids(g, k) ensures c in AllKids(g, s) {
      assert table[k] in s;
      var i :| 0 <= i < |s| && s[i] == table[k];
      assert s[i].value in cut;
      AllKidsAt(g, s, c);
    }
    forall c | c in AllKids(g, s) ensures exists k {:trigger k in cut} :: k in cut && c in Kids(g, k) {
      AllKidsAt(g, s, c);
      var i :| 0 <= i < |s| && c in Kids(g, s[i].value);
      assert s[i].value in cut;
    }
  }

  lemma PartsLive(table: map<nat, Allocation>, owner: map<nat, Allocation>, k: nat)
    requires BlocksOk(table, {}, owner) && k in table && table[k].value == k
    ensures Parts(table[k]) <= owner.Keys
  {
    assert Active(table, {}, table[k]);
    forall b | b in Parts(table[k]) ensures b in owner {
    }
  }

  /** The word behind a domain-id pointer. */
  function Word(domains: map<nat, nat>, p: nat): nat { if p in domains then domains[p] else 0 }

  ghost function MarksOf(table: map<nat, Allocation>, domains: map<nat, nat>): map<nat, nat> {
    map k | k in table :: Word(domains, table[k].domainPtr)
  }

  lemma MarksAdded(table: map<nat, Allocation>, owner: map<nat, Allocation>, domains: map<nat, nat>,
                   registered: set<nat>, a: Allocation, d: nat)
    requires TableOk(table, {}, registered) && BlocksOk(table, {}, owner) && a.domainPtr !in owner
    ensures MarksOf(table[a.value := a], domains[a.domainPtr := d]) == MarksOf(table, domains)[a.value := d]
  {
    forall k | k in table ensures table[k].domainPtr != a.domainPtr { PartsLive(table, owner, k); }
  }

  lemma MarksMoved(table: map<nat, Allocation>, owner: map<nat, Allocation>, domains: map<nat, nat>,
                   registered: set<nat>, k: nat, d: nat)
    requires TableOk(table, {}, registered) && BlocksOk(table, {}, owner) && k in table
    ensures MarksOf(table, domains[table[k].domainPtr := d]) == MarksOf(table, domains)[k := d]
  {
    var p := table[k].domainPtr;
    forall l | l in table && l != k ensures table[l].domainPtr != p {
      assert Active(table, {}, table[k]) && Active(table, {}, table[l]);
      PartsLive(table, owner, k);
      PartsLive(table, owner, l);
      assert p in owner && table[l].domainPtr in owner;
    }
  }

  lemma TakeOut(table: map<nat, Allocation>, pending: set<Allocation>, owner: map<nat, Allocation>,
                registered: set<nat>, k: nat)
    requires TableOk(table, pending, registered) && BlocksOk(table, pending, owner) && k in table
    ensures TableOk(table - {k}, pending + {table[k]}, registered) && BlocksOk(table - {k}, pending + {table[k]}, owner)
  {
    var table', pending' := table - {k}, pending + {table[k]};
    forall a | Active(table', pending', a) ensures Holds(owner, a) { assert Active(table, pending, a); }
    forall b | b in owner ensures b in Parts(owner[b]) && Active(table', pending', owner[b]) {
      assert Active(table, pending, owner[b]);
    }
  }

  lemma Released(table: map<nat, Allocation>, pending: set<Allocation>, owner: map<nat, Allocation>,
                 registered: set<nat>, a: Allocation)
    requires TableOk(table, pending, registered) && BlocksOk(table, pending, owner) && a in pending
    ensures Holds(owner, a)
    ensures TableOk(table, pending - {a}, registered) && BlocksOk(table, pending - {a}, owner - Parts(a))
  {
    assert Active(table, pending, a);
    var pending', owner' := pending - {a}, owner - Parts(a);
    assert a.value in owner && owner[a.value] == a;
    forall x | Active(table, pending', x) ensures Holds(owner', x) {
      assert Active(table, pending, x) && x != a;
      forall b | b in Parts(x) ensures b in owner' && owner'[b] == x {
        assert b in owner;
      }
    }
    forall b | b in owner' ensures b in Parts(owner'[b]) && Active(table, pending', owner'[b]) {
      assert b in owner && Active(table, pending, owner[b]);
    }
  }

  lemma Added(table: map<nat, Allocation>, owner: map<nat, Allocation>, registered: set<nat>, a: Allocation)
    returns (owner': map<nat, Allocation>)
    requires TableOk(table, {}, registered) && BlocksOk(table, {}, owner) && a.typeId in registered
    requires Parts(a) !! owner.Keys
    requires a.value != a.domainPtr && a.value != a.borrowPtr && a.domainPtr != a.borrowPtr
    ensures owner'.Keys == owner.Keys + Parts(a)
    ensures TableOk(table[a.value := a], {}, registered) && BlocksOk(table[a.value := a], {}, owner')
  {
    owner' := owner[a.value := a][a.domainPtr := a][a.borrowPtr := a];
    var table' := table[a.value := a];
    forall x | Active(table', {}, x) ensures Holds(owner', x) {
      if x != a {
        assert Active(table, {}, x);
        assert x.value in owner;
        forall b | b in Parts(x) ensures b in owner' && owner'[b] == x { assert b in owner; }
      }
    }
    forall b | b in owner' ensures b in Parts(owner'[b]) && Active(table', {}, owner'[b]) {
      if b !in Parts(a) {
        assert b in owner && Active(table, {}, owner[b]);
        assert owner[b].value in owner;
      }
    }
  }

  class Heap {
    /** Types with a registered cleanup. */
    const registered: set<nat>
    var table: map<nat, Allocation>
    /** Blocks handed out by the memory provider and not returned. */
    var live: set<nat>
    /** The references stored in each object. */
    var contents: Graph
    /** The words behind the domain-id pointers. */
    var domains: map<nat, nat>
    ghost var owner: map<nat, Allocation>

    /** The live blocks are exactly the three blocks of every allocation in the table or pending. */
    ghost predicate Open(pending: set<Allocation>)
      reads this
    {
      && TableOk(table, pending, registered) && BlocksOk(table, pending, owner)
      && live == owner.Keys
    }

    ghost predicate Valid()
      reads this
    {
      Open({})
    }

    constructor (registered: set<nat>)
      ensures Valid() && table == map[] && live == {} && this.registered == registered
    {
      this.registered := registered;
      table, live, contents, domains, owner := map[], {}, map[], map[], map[];
    }

    /** The domain mark of every allocation in the table. */
    ghost function Marks(): map<nat, nat>
      reads this
    {
      MarksOf(table, domains)
    }

    /** `value`, `domainPtr` and `borrowPtr` are what the memory provider returns. */
    method AllocHeap(layout: Layout, typeId: nat, value: nat, domainPtr: nat, borrowPtr: nat)
      returns (r: Option<Allocation>)
      requires Valid() && {value, domainPtr, borrowPtr} !! live
      requires value != domainPtr && value != borrowPtr && domainPtr != borrowPtr
      modifies this`table, this`live, this`owner
      ensures Valid() && (r.Some? <==> typeId in registered)
      ensures r.None? ==> table == old(table) && live == old(live)
      ensures r.Some? ==>
                && r.value == Allocation(value, domainPtr, borrowPtr, layout, typeId)
                && table == old(table)[value := r.value] && live == old(live) + {value, domainPtr, borrowPtr}
    {
      if typeId !in registered { return None; }
      var a := Allocation(value, domainPtr, borrowPtr, layout, typeId);
      ghost var owner' := Added(table, owner, registered, a);
      live := live + {domainPtr};
      live := live + {borrowPtr};
      live := live + {value};
      table := table[value := a];
      owner := owner';
      r := Some(a);
      assert live == old(live) + Parts(a);
    }

    /** A new object of domain `domain` that contains `kids`; fails (a panic in the source) when its
        type has no registered cleanup. The marks of the kids are left as they are: the discipline is
        kept exactly when they are 0 already and the kids are in no other object. */
    method NewObject(layout: Layout, typeId: nat, domain: nat, kids: seq<nat>,
                     value: nat, domainPtr: nat, borrowPtr: nat)
      returns (ok: bool)
      requires Valid() && {value, domainPtr, borrowPtr} !! live
      requires value != domainPtr && value != borrowPtr && domainPtr != borrowPtr
      modifies this
      ensures Valid() && (ok <==> typeId in registered)
      ensures !ok ==> table == old(table) && live == old(live) && contents == old(contents) && domains == old(domains)
      ensures ok ==>
                && table.Keys == old(table.Keys) + {value} && live == old(live) + {value, domainPtr, borrowPtr}
                && contents == old(contents)[value := kids] && Marks() == old(Marks())[value := domain]
      ensures
        (&& ok && WellOwned(old(contents), old(table).Keys, old(Marks()))
         && value !in kids && Uncontained(old(contents), old(table).Keys, value)) ==>
          (WellOwned(contents, table.Keys, Marks()) <==>
           forall c {:trigger c in kids} :: c in kids && c in old(table) ==>
             old(Marks())[c] == 0 && Uncontained(old(contents), old(table).Keys, c))
    {
      var r := AllocHeap(layout, typeId, value, domainPtr, borrowPtr);
      ok := r.Some?;
      if ok {
        MarksAdded(old(table), old(owner), domains, registered, r.value, domain);
        domains := domains[domainPtr := domain];
        contents := contents[value := kids];
        assert value !in old(table) by { if value in old(table) { PartsLive(old(table), old(owner), value); } }
        if WellOwned(old(contents), old(table).Keys, old(Marks())) && value !in kids
           && Uncontained(old(contents), old(table).Keys, value) {
          NewKeeps(old(contents), old(table).Keys, old(Marks()), value, domain, kids);
        }
      }
    }

    /** Write the mark of the object at `k`. */
    method MoveTo(k: nat, d: nat)
      requires Valid() && k in table
      modifies this`domains
      ensures Valid() && Marks() == old(Marks())[k := d]
      ensures WellOwned(contents, table.Keys, old(Marks())) ==>
                (WellOwned(contents, table.Keys, Marks()) <==> d == 0 || Uncontained(contents, table.Keys, k))
    {
      MarksMoved(table, owner, domains, registered, k, d);
      if WellOwned(contents, table.Keys, Marks()) { MarkKeeps(contents, table.Keys, Marks(), k, d); }
      domains := domains[table[k].domainPtr := d];
    }

    /** Put object `c`, which nothing contains, into `parent` as its reference number `at`: an empty array
        slot is filled. Its mark becomes 0. */
    method Store(parent: nat, c: nat, at: nat)
      requires Valid() && parent in table && c in table && at <= |Kids(contents, parent)|
      requires Uncontained(contents, table.Keys, c)
      modifies this`domains, this`contents
      ensures Valid() && Marks() == old(Marks())[c := 0]
      ensures var kids := Kids(old(contents), parent);
              contents == old(contents)[parent := kids[..at] + [c] + kids[at..]]
      ensures WellOwned(old(contents), table.Keys, old(Marks())) ==> WellOwned(contents, table.Keys, Marks())
    {
      MoveTo(c, 0);
      var kids := Kids(contents, parent);
      var kids' := kids[..at] + [c] + kids[at..];
      if WellOwned(contents, table.Keys, old(Marks())) {
        PutKeeps(contents, table.Keys, old(Marks()), parent, c, kids');
      }
      contents := contents[parent := kids'];
    }

    /** Take reference number `at` out of `parent`: an array slot is emptied. Its mark becomes the current domain. */
    method Take(parent: nat, at: nat, d: nat) returns (c: nat)
      requires Valid() && parent in table && at < |Kids(contents, parent)| && Kids(contents, parent)[at] in table
      requires forall i {:trigger Kids(contents, parent)[i]} ::
                 0 <= i < |Kids(contents, parent)| && i != at ==>
                   Kids(contents, parent)[i] != Kids(contents, parent)[at]
      modifies this`domains, this`contents
      ensures Valid() && c == Kids(old(contents), parent)[at] && Marks() == old(Marks())[c := d]
      ensures var kids := Kids(old(contents), parent); contents == old(contents)[parent := kids[..at] + kids[at + 1..]]
      ensures WellOwned(old(contents), table.Keys, old(Marks())) ==>
                WellOwned(contents, table.Keys, Marks()) && Uncontained(contents, table.Keys, c)
    {
      var kids := Kids(contents, parent);
      c := kids[at];
      MoveTo(c, d);
      var kids' := kids[..at] + kids[at + 1..];
      if WellOwned(contents, table.Keys, old(Marks())) {
        TakeKeeps(contents, table.Keys, old(Marks()), parent, c, kids', d);
      }
      contents := contents[parent := kids'];
    }

    /** Give the three blocks of a pending allocation back. Each of them is live. */
    method Release(a: Allocation, ghost pending: set<Allocation>)
      requires Open(pending) && a in pending
      modifies this`live, this`owner
      ensures Open(pending - {a}) && Parts(a) <= old(live) && live == old(live) - Parts(a)
    {
      Released(table, pending, owner, registered, a);
      assert a.value in owner && a.domainPtr in owner && a.borrowPtr in owner;
      assert a.value in live;
      live := live - {a.value};
      assert a.domainPtr in live;
      live := live - {a.domainPtr};
      assert a.borrowPtr in live;
      live := live - {a.borrowPtr};
      owner := owner - Parts(a);
      assert live == owner.Keys;
    }

    /** Cleanup of an object that is out of the table: each reference in it is given up in turn. */
    method Drop(a: Allocation, ghost pending: set<Allocation>)
      requires Open(pending) && a in pending
      modifies this`table, this`live, this`owner
      ensures Open(pending) && SubMap(table, old(table))
      ensures Reclaims(contents, old(table).Keys, table.Keys, Elements(Kids(contents, a.value)))
      decreases |table|, 1
    {
      var kids := Kids(contents, a.value);
      ghost var t := table.Keys;
      ReclaimsNothing(contents, t, {});
      var i := 0;
      assert Elements(kids[..0]) == {};
      while i < |kids|
        invariant 0 <= i <= |kids| && Open(pending) && SubMap(table, old(table)) && |table| <= |old(table)|
        invariant Reclaims(contents, t, table.Keys, Elements(kids[..i]))
      {
        ghost var before := table;
        DeallocHeap(kids[i], pending);
        ReclaimsThen(contents, t, before.Keys, table.Keys, Elements(kids[..i]), {kids[i]});
        assert Elements(kids[..i]) + {kids[i]} == Elements(kids[..i + 1]);
        SubMapSize(table, before);
        i := i + 1;
      }
      assert kids[..i] == kids;
    }

    /** Release the object at `ptr`, and everything reachable from it, if it is still in the table. */
    method DeallocHeap(ptr: nat, ghost pending: set<Allocation>)
      requires Open(pending)
      modifies this`table, this`live, this`owner
      ensures Open(pending) && SubMap(table, old(table))
      ensures Reclaims(contents, old(table).Keys, table.Keys, {ptr})
      decreases |table|, 0
    {
      if ptr !in table {
        ReclaimsNothing(contents, table.Keys, {ptr});
        return;
      }
      var a := table[ptr];
      TakeOut(table, pending, owner, registered, ptr);
      ghost var t := table.Keys;
      table := table - {ptr};
      SubMapSize(table, old(table));
      assert a !in pending;
      Drop(a, pending + {a});
      assert t - {ptr} == old(table).Keys - {ptr};
      ReclaimsCut(contents, t, table.Keys, {ptr}, Elements(Kids(contents, ptr)));
      Release(a, pending + {a});
      assert pending + {a} - {a} == pending;
    }

    /** Take the allocations of domain `d` out of the table, in whatever order it is walked. */
    method Retain(d: nat) returns (queue: seq<Allocation>)
      requires Valid()
      modifies this`table
      ensures Queued(queue, old(table), Owned(old(table).Keys, old(Marks()), d))
      ensures Open(Elements(queue)) && table == old(table) - Owned(old(table).Keys, old(Marks()), d)
    {
      queue := [];
      ghost var t := table;
      var todo := table.Keys;
      assert Elements(queue) == {} && t.Keys - todo == {};
      while todo != {}
        invariant todo <= table.Keys && Open(Elements(queue))
        invariant var cut := Owned(t.Keys - todo, old(Marks()), d); Queued(queue, t, cut) && table == t - cut
        decreases todo
      {
        var k :| k in todo;
        assert table[k] == t[k] && old(Marks())[k] == Word(domains, t[k].domainPtr);
        ghost var cut := Owned(t.Keys - todo, old(Marks()), d);
        ghost var cut' := Owned(t.Keys - (todo - {k}), old(Marks()), d);
        if Word(domains, table[k].domainPtr) == d {
          TakeOut(table, Elements(queue), owner, registered, k);
          assert Elements(queue + [table[k]]) == Elements(queue) + {table[k]};
          assert cut' == cut + {k};
          QueuedMore(queue, t, cut, k);
          queue := queue + [table[k]];
          table := table - {k};
        } else {
          assert cut' == cut;
        }
        todo := todo - {k};
      }
      assert t.Keys - todo == t.Keys;
    }

    /** Put object `c`, which nothing contains, into a full array slot of `parent`: reference number `at` is
        replaced, and the object it referred to is released with everything reachable from it. */
    method Replace(parent: nat, c: nat, at: nat)
      requires Valid() && parent in table && c in table && at < |Kids(contents, parent)|
      requires Uncontained(contents, table.Keys, c)
      modifies this
      ensures Valid() && SubMap(table, old(table))
      ensures var kids := Kids(old(contents), parent); contents == old(contents)[parent := kids[at := c]]
      ensures Reclaims(contents, old(table).Keys, table.Keys, {Kids(old(contents), parent)[at]})
      ensures forall k :: k in table ==> Marks()[k] == if k == c then 0 else old(Marks())[k]
      ensures WellOwned(old(contents), old(table).Keys, old(Marks())) ==> WellOwned(contents, table.Keys, Marks())
    {
      ghost var t, marks := table.Keys, Marks();
      MoveTo(c, 0);
      var kids := Kids(contents, parent);
      var kids': seq<nat> := kids[at := c];
      if WellOwned(contents, t, marks) { PutKeeps(contents, t, marks, parent, c, kids'); }
      contents := contents[parent := kids'];
      ghost var mid := Marks();
      DeallocHeap(kids[at], {});
      forall k | k in table ensures Marks()[k] == mid[k] {
        assert table[k] == old(table)[k];
      }
      if WellOwned(contents, t, mid) { FewerKeep(contents, t, mid, table.Keys, Marks()); }
    }

    /** Release every object that domain `d` owns, and everything reachable from them. */
    method DropDomain(d: nat)
      requires Valid()
      modifies this`table, this`live, this`owner
      ensures Valid() && SubMap(table, old(table))
      ensures Reclaims(contents, old(table).Keys, table.Keys, Owned(old(table).Keys, old(Marks()), d))
    {
      ghost var cut := Owned(table.Keys, Marks(), d);
      var queue := Retain(d);
      ghost var t := table.Keys;
      ReclaimsNothing(contents, t, {});
      var i := 0;
      while i < |queue|
        invariant 0 <= i <= |queue| && Open(Elements(queue[i..])) && SubMap(table, old(table))
        invariant Reclaims(contents, t, table.Keys, AllKids(contents, queue[..i]))
      {
        ghost var before := table;
        QueueStep(contents, queue, old(table), cut, i);
        DropQueued(queue[i], Elements(queue[i..]));
        ReclaimsThen(contents, t, before.Keys, table.Keys, AllKids(contents, queue[..i]),
                     Elements(Kids(contents, queue[i].value)));
        i := i + 1;
      }
      assert queue[..i] == queue && Elements(queue[i..]) == {};
      AllKidsOf(contents, queue, old(table), cut);
      ReclaimsCut(contents, old(table).Keys, table.Keys, cut, AllKids(contents, queue));
    }

    /** Clean up and release one allocation of the queue. */
    method DropQueued(a: Allocation, ghost pending: set<Allocation>)
      requires Open(pending) && a in pending
      modifies this`table, this`live, this`owner
      ensures Open(pending - {a}) && SubMap(table, old(table))
      ensures Reclaims(contents, old(table).Keys, table.Keys, Elements(Kids(contents, a.value)))
    {
      Drop(a, pending);
      Release(a, pending);
    }
  }
}
