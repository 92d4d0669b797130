/** Which shared-heap objects contain which, and what is reachable from what. */
module Containment {

  /** For every object the references stored in it, in the order its cleanup visits them. */
  type Graph = map<nat, seq<nat>>

  function Kids(g: Graph, k: nat): seq<nat> { if k in g then g[k] else [] }

  /** A path along containment through objects in `t`. */
  ghost predicate IsPath(g: Graph, t: set<nat>, p: seq<nat>) {
    && |p| > 0
    && (forall i {:trigger p[i]} :: 0 <= i < |p| ==> p[i] in t)
    && (forall i {:trigger Kids(g, p[i])} :: 0 <= i < |p| - 1 ==> p[i + 1] in Kids(g, p[i]))
  }

  ghost predicate Joins(p: seq<nat>, from: nat, to: nat) { |p| > 0 && p[0] == from && p[|p| - 1] == to }

  ghost predicate Reaches(g: Graph, t: set<nat>, from: nat, to: nat) {
    exists p :: IsPath(g, t, p) && Joins(p, from, to)
  }

  lemma ReachesSelf(g: Graph, t: set<nat>, k: nat)
    requires k in t
    ensures Reaches(g, t, k, k)
  {
    assert IsPath(g, t, [k]) && Joins([k], k, k);
  }

  lemma ReachesVia(g: Graph, t: set<nat>, t': set<nat>, k: nat, c: nat, to: nat)
    requires k in t && c in Kids(g, k) && t' <= t && Reaches(g, t', c, to)
    ensures Reaches(g, t, k, to)
  {
    var p :| IsPath(g, t', p) && Joins(p, c, to);
    var q := [k] + p;
    forall i | 0 <= i < |q| - 1 ensures q[i + 1] in Kids(g, q[i]) {
      if i > 0 { assert q[i] == p[i - 1] && q[i + 1] == p[i - 1 + 1]; }
    }
    assert IsPath(g, t, q) && Joins(q, k, to);
  }

  ghost predicate ClosedAt(g: Graph, after: set<nat>, k: nat) {
    forall c {:trigger c in Kids(g, k)} :: c in Kids(g, k) ==> c !in after
  }

  /** Nothing that was removed contains something that was left. */
  ghost predicate Closed(g: Graph, before: set<nat>, after: set<nat>) {
    forall k {:trigger ClosedAt(g, after, k)} :: k in before && k !in after ==> ClosedAt(g, after, k)
  }

  ghost predicate ReachedAt(g: Graph, t: set<nat>, roots: set<nat>, k: nat) {
    exists r {:trigger Reaches(g, t, r, k)} :: r in roots && Reaches(g, t, r, k)
  }

  /** Everything that was removed is reachable from a root. */
  ghost predicate Reached(g: Graph, before: set<nat>, after: set<nat>, roots: set<nat>) {
    forall k {:trigger ReachedAt(g, before, roots, k)} :: k in before && k !in after ==> ReachedAt(g, before, roots, k)
  }

  /** What a reclamation starting at `roots` did to the set of objects. */
  ghost predicate Reclaims(g: Graph, before: set<nat>, after: set<nat>, roots: set<nat>) {
    && after <= before && roots !! after
    && Closed(g, before, after) && Reached(g, before, after, roots)
  }

  /** A reclamation removes exactly what is reachable from its roots. */
  lemma ReclaimsExactly(g: Graph, before: set<nat>, after: set<nat>, roots: set<nat>, k: nat)
    requires Reclaims(g, before, after, roots) && k in before
    ensures k !in after <==> ReachedAt(g, before, roots, k)
  {
    if k !in after {
      assert ReachedAt(g, before, roots, k);
    } else if ReachedAt(g, before, roots, k) {
      var r :| r in roots && Reaches(g, before, r, k);
      var p :| IsPath(g, before, p) && Joins(p, r, k);
      ClosedAlong(g, before, after, p, |p| - 1);
    }
  }

  lemma {:induction false} ClosedAlong(g: Graph, before: set<nat>, after: set<nat>, p: seq<nat>, i: nat)
    requires Closed(g, before, after) && IsPath(g, before, p) && p[0] !in after && i < |p|
    ensures p[i] !in after
  {
    if i > 0 {
      ClosedAlong(g, before, after, p, i - 1);
      assert ClosedAt(g, after, p[i - 1]);
      assert p[i - 1 + 1] in Kids(g, p[i - 1]);
    }
  }

  /** Two reclamations from the same objects and roots agree, whatever order they worked in. */
  lemma ReclaimsUnique(g: Graph, before: set<nat>, a: set<nat>, b: set<nat>, roots: set<nat>)
    requires Reclaims(g, before, a, roots) && Reclaims(g, before, b, roots)
    ensures a == b
  {
    forall k | k in before ensures k in a <==> k in b {
      ReclaimsExactly(g, before, a, roots, k);
      ReclaimsExactly(g, before, b, roots, k);
    }
  }

  // ---- Steps of a reclamation ----

  lemma ReclaimsNothing(g: Graph, t: set<nat>, roots: set<nat>)
    requires roots !! t
    ensures Reclaims(g, t, t, roots)
  {
  }

  /** Reclaiming from `roots` and then from `more`. */
  lemma ReclaimsThen(g: Graph, a: set<nat>, b: set<nat>, c: set<nat>, roots: set<nat>, more: set<nat>)
    requires Reclaims(g, a, b, roots) && Reclaims(g, b, c, more)
    ensures Reclaims(g, a, c, roots + more)
  {
    forall x | x in a && x !in c ensures ClosedAt(g, c, x) {
      if x in b { assert ClosedAt(g, c, x); } else { assert ClosedAt(g, b, x); }
    }
    forall x | x in a && x !in c ensures ReachedAt(g, a, roots + more, x) {
      if x in b {
        assert ReachedAt(g, b, more, x);
        var r :| r in more && Reaches(g, b, r, x);
        ReachesMore(g, b, a, r, x);
        assert r in roots + more && Reaches(g, a, r, x);
      } else {
        assert ReachedAt(g, a, roots, x);
        var r :| r in roots && Reaches(g, a, r, x);
        assert r in roots + more;
      }
    }
  }

  lemma ReachesMore(g: Graph, t: set<nat>, t': set<nat>, from: nat, to: nat)
    requires t <= t' && Reaches(g, t, from, to)
    ensures Reaches(g, t', from, to)
  {
  }

  /** Removing the objects in `cut` first, and then reclaiming from everything they contain. */
  lemma ReclaimsCut(g: Graph, t: set<nat>, after: set<nat>, cut: set<nat>, kids: set<nat>)
    requires cut <= t && Reclaims(g, t - cut, after, kids)
    requires forall k, c {:trigger k in cut, c in Kids(g, k)} :: k in cut && c in Kids(g, k) ==> c in kids
    requires forall c {:trigger c in kids} :: c in kids ==> exists k {:trigger k in cut} :: k in cut && c in Kids(g, k)
    ensures Reclaims(g, t, after, cut)
  {
    forall x | x in t && x !in after ensures ClosedAt(g, after, x) && ReachedAt(g, t, cut, x) {
      if x in cut {
        ReachesSelf(g, t, x);
        assert Reaches(g, t, x, x);
      } else {
        assert ClosedAt(g, after, x);
        assert ReachedAt(g, t - cut, kids, x);
        var c :| c in kids && Reaches(g, t - cut, c, x);
        var k :| k in cut && c in Kids(g, k);
        ReachesVia(g, t, t - cut, k, c, x);
        assert Reaches(g, t, k, x);
      }
    }
  }

  // ---- Well-formed ownership ----

  /** Contained objects carry the mark 0, and no object is contained twice. */
  ghost predicate WellOwned(g: Graph, t: set<nat>, mark: map<nat, nat>) {
    && (forall k {:trigger k in t} :: k in t ==> k in mark)
    && (forall k, c {:trigger c in Kids(g, k)} :: k in t && c in t && c in Kids(g, k) ==> mark[c] == 0)
    && (forall k, l, c {:trigger c in Kids(g, k), c in Kids(g, l)} ::
          k in t && l in t && c in t && c in Kids(g, k) && c in Kids(g, l) ==> k == l)
  }

  /** Under well-formed ownership two marked objects that reach the same object are the same. */
  lemma {:induction false} OneOwner(g: Graph, t: set<nat>, mark: map<nat, nat>, p: seq<nat>, q: seq<nat>)
    requires WellOwned(g, t, mark) && IsPath(g, t, p) && IsPath(g, t, q) && p[|p| - 1] == q[|q| - 1]
    requires mark[p[0]] != 0 && mark[q[0]] != 0
    ensures p[0] == q[0]
    decreases |p|
  {
    var m, n := |p| - 1, |q| - 1;
    if m > 0 { assert p[m - 1 + 1] in Kids(g, p[m - 1]); }
    if n > 0 { assert q[n - 1 + 1] in Kids(g, q[n - 1]); }
    if m > 0 && n > 0 {
      assert p[m - 1] == q[n - 1];
      Shorter(g, t, p);
      Shorter(g, t, q);
      OneOwner(g, t, mark, p[..m], q[..n]);
    }
  }

  lemma Shorter(g: Graph, t: set<nat>, p: seq<nat>)
    requires IsPath(g, t, p) && |p| > 1
    ensures IsPath(g, t, p[..|p| - 1])
  {
  }

  /** Objects that carry mark `d`. */
  ghost function Owned(t: set<nat>, mark: map<nat, nat>, d: nat): set<nat> {
    set k | k in t && k in mark && mark[k] == d
  }

  /** Reclaiming the objects of one domain leaves alone every object that another domain owns, directly
      or through containment. */
  lemma OthersUntouched(g: Graph, before: set<nat>, after: set<nat>, mark: map<nat, nat>, d: nat, r: nat, k: nat)
    requires WellOwned(g, before, mark) && d != 0 && Reclaims(g, before, after, Owned(before, mark, d))
    requires r in before && mark[r] != 0 && mark[r] != d && Reaches(g, before, r, k)
    ensures k in after
  {
    var p :| IsPath(g, before, p) && Joins(p, r, k);
    assert k in before;
    if k !in after {
      assert ReachedAt(g, before, Owned(before, mark, d), k);
      var s :| s in Owned(before, mark, d) && Reaches(g, before, s, k);
      var q :| IsPath(g, before, q) && Joins(q, s, k);
      OneOwner(g, before, mark, p, q);
    }
  }

  /** No object that is left contains one that was removed. */
  lemma NothingDangles(g: Graph, before: set<nat>, after: set<nat>, mark: map<nat, nat>, d: nat, k: nat, c: nat)
    requires WellOwned(g, before, mark) && d != 0 && Reclaims(g, before, after, Owned(before, mark, d))
    requires k in after && c in Kids(g, k) && c in before
    ensures c in after
  {
    if c !in after {
      assert ReachedAt(g, before, Owned(before, mark, d), c);
      var s :| s in Owned(before, mark, d) && Reaches(g, before, s, c);
      var q :| IsPath(g, before, q) && Joins(q, s, c);
      var n := |q| - 1;
      if n > 0 {
        assert q[n - 1 + 1] in Kids(g, q[n - 1]);
        assert q[n - 1] == k;
        ClosedAlong(g, before, after, q, n - 1);
      }
    }
  }

  /** A contained object that kept the mark of domain `d` is gone when that domain ends, while an object
      of another domain that contains it stays. */
  lemma MarkedDangles(g: Graph, before: set<nat>, after: set<nat>, mark: map<nat, nat>, d: nat, k: nat, c: nat)
    requires Reclaims(g, before, after, Owned(before, mark, d)) && k in before && c in before
    requires c in Kids(g, k) && c in mark && mark[c] == d && !ReachedAt(g, before, Owned(before, mark, d), k)
    ensures k in after && c in Kids(g, k) && c !in after
  {
    ReclaimsExactly(g, before, after, Owned(before, mark, d), k);
  }

  /** Dropping domain `d` under well-formed ownership: exactly its objects and what they contain go, and the
      discipline holds for the rest. */
  lemma DropIsExact(g: Graph, before: set<nat>, after: set<nat>, mark: map<nat, nat>, d: nat)
    requires WellOwned(g, before, mark) && d != 0 && Reclaims(g, before, after, Owned(before, mark, d))
    ensures forall k {:trigger k in after} :: k in before ==>
              (k !in after <==>
               exists r {:trigger Reaches(g, before, r, k)} :: r in before && mark[r] == d && Reaches(g, before, r, k))
    ensures forall k {:trigger k in after} :: k in before && mark[k] != 0 ==> (k in after <==> mark[k] != d)
    ensures WellOwned(g, after, mark)
  {
    forall k | k in before
      ensures k !in after <==>
                exists r {:trigger Reaches(g, before, r, k)} :: r in before && mark[r] == d && Reaches(g, before, r, k)
    {
      ReclaimsExactly(g, before, after, Owned(before, mark, d), k);
      if r :| r in before && mark[r] == d && Reaches(g, before, r, k) { assert r in Owned(before, mark, d); }
    }
    forall k | k in before && mark[k] != 0 ensures k in after <==> mark[k] != d {
      ReachesSelf(g, before, k);
      if mark[k] != d { OthersUntouched(g, before, after, mark, d, k, k); }
    }
  }

  /** No object in `t` contains `c`. */
  ghost predicate Uncontained(g: Graph, t: set<nat>, c: nat) {
    forall k {:trigger Kids(g, k)} :: k in t ==> c !in Kids(g, k)
  }

  /** Changing a mark keeps the discipline exactly when it becomes 0 or the object is not contained. */
  lemma MarkKeeps(g: Graph, t: set<nat>, mark: map<nat, nat>, c: nat, d: nat)
    requires WellOwned(g, t, mark) && c in t
    ensures WellOwned(g, t, mark[c := d]) <==> d == 0 || Uncontained(g, t, c)
  {
    if WellOwned(g, t, mark[c := d]) && d != 0 {
      forall k | k in t ensures c !in Kids(g, k) {
      }
    }
  }

  /** A new object keeps the discipline exactly when the objects put into it are marked 0 and in no other. */
  lemma NewKeeps(g: Graph, t: set<nat>, mark: map<nat, nat>, k: nat, d: nat, kids: seq<nat>)
    requires WellOwned(g, t, mark) && k !in t && k !in kids && Uncontained(g, t, k)
    ensures WellOwned(g[k := kids], t + {k}, mark[k := d]) <==>
            forall c {:trigger c in kids} :: c in kids && c in t ==> mark[c] == 0 && Uncontained(g, t, c)
  {
    var g', t', mark' := g[k := kids], t + {k}, mark[k := d];
    assert Kids(g', k) == kids;
    assert forall l {:trigger Kids(g', l)} :: l in t ==> Kids(g', l) == Kids(g, l);
    if WellOwned(g', t', mark') {
      forall c | c in kids && c in t ensures mark[c] == 0 && Uncontained(g, t, c) {
        assert c in Kids(g', k);
        forall l | l in t ensures c !in Kids(g, l) {
          assert Kids(g', l) == Kids(g, l);
        }
      }
    }
    if forall c {:trigger c in kids} :: c in kids && c in t ==> mark[c] == 0 && Uncontained(g, t, c) {
      forall l, c | l in t' && c in t' && c in Kids(g', l) ensures c in t && mark'[c] == 0 {
        if l != k { assert c in Kids(g, l); }
      }
      forall l, m, c | l in t' && m in t' && c in t' && c in Kids(g', l) && c in Kids(g', m) ensures l == m {
        if l != k && m != k { assert c in Kids(g, l) && c in Kids(g, m); }
      }
    }
  }

  /** The discipline holds for the objects that are left. */
  lemma FewerKeep(g: Graph, t: set<nat>, mark: map<nat, nat>, t': set<nat>, mark': map<nat, nat>)
    requires WellOwned(g, t, mark) && t' <= t
    requires forall k {:trigger k in t'} :: k in t' ==> k in mark' && mark'[k] == mark[k]
    ensures WellOwned(g, t', mark')
  {
  }

  /** Putting an object into another: it is marked 0. */
  lemma PutKeeps(g: Graph, t: set<nat>, mark: map<nat, nat>, parent: nat, c: nat, kids: seq<nat>)
    requires WellOwned(g, t, mark) && parent in t && c in t
    requires Uncontained(g, t, c)
    requires forall x {:trigger x in kids} :: x in kids ==> x == c || x in Kids(g, parent)
    ensures WellOwned(g[parent := kids], t, mark[c := 0])
  {
    var g', mark' := g[parent := kids], mark[c := 0];
    forall k, x | k in t && x in t && x in Kids(g', k) ensures mark'[x] == 0 {
      assert x == c || x in Kids(g, k);
    }
    forall k, l, x | k in t && l in t && x in t && x in Kids(g', k) && x in Kids(g', l) ensures k == l {
      assert c !in Kids(g, k) && c !in Kids(g, l);
      assert x == c || (x in Kids(g, k) && x in Kids(g, l));
    }
  }

  /** Taking an object out of another: it is marked with the domain that takes it. */
  lemma TakeKeeps(g: Graph, t: set<nat>, mark: map<nat, nat>, parent: nat, c: nat, kids: seq<nat>, d: nat)
    requires WellOwned(g, t, mark) && parent in t && c in t && c in Kids(g, parent)
    requires forall x {:trigger x in kids} :: x in kids ==> x != c && x in Kids(g, parent)
    ensures WellOwned(g[parent := kids], t, mark[c := d])
    ensures Uncontained(g[parent := kids], t, c)
  {
    var g', mark' := g[parent := kids], mark[c := d];
    forall k, x | k in t && x in t && x in Kids(g', k) ensures x in Kids(g, k) && x != c {
    }
    forall k, x | k in t && x in t && x in Kids(g', k) ensures mark'[x] == 0 {
      assert x in Kids(g, k);
    }
    forall k, l, x | k in t && l in t && x in t && x in Kids(g', k) && x in Kids(g', l) ensures k == l {
      assert x in Kids(g, k) && x in Kids(g, l);
    }
  }
}
