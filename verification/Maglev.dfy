/** The Maglev consistent-hashing table (section 3.4 of the Maglev paper by Eisenbud et al.). */
module Maglev {
  import opened Arith
  import opened Collections
  import opened Primes

  const TABLE_SIZE: nat := 65537
  const U64: nat := 0x1_0000_0000_0000_0000

  /** What the two hash functions give for a node. */
  datatype Node = Node(h1: nat, h2: nat)

  function Offset(node: Node, m: nat): (o: nat)
    requires m > 1
    ensures o < m
  {
    node.h2 % m
  }

  function Skip(node: Node, m: nat): (s: nat)
    requires m > 1
    ensures 0 < s < m
  {
    node.h1 % (m - 1) + 1
  }

  function Position(offset: nat, skip: nat, m: nat, i: nat): (c: nat)
    requires m > 0
    ensures c < m
  {
    (offset + i * skip) % m
  }

  /** A node's preference list. */
  function Permutation(node: Node, m: nat): (s: seq<nat>)
    requires m > 1
    ensures |s| == m && Below(s, m)
  {
    seq(m, i requires 0 <= i => Position(Offset(node, m), Skip(node, m), m, i))
  }

  /** A node's list starts at its second hash and goes on in steps given by its first, round the table. */
  lemma {:induction false} Preferences(node: Node, m: nat, i: nat)
    requires m > 1 && i + 1 < m
    ensures var s := Permutation(node, m);
            && s[0] == node.h2 % m
            && s[i + 1] == (s[i] + (node.h1 % (m - 1) + 1)) % m
  {
    var o, k := Offset(node, m), Skip(node, m);
    Distribute(i, 1, k);
    var x := o + i * k;
    AddModLeft(x, k, m);
    DivUnique(o, m, 0, o);
  }

  lemma {:induction false} AddModLeft(x: nat, y: nat, m: nat)
    requires m > 0
    ensures (x + y) % m == (x % m + y) % m
  {
    var q := x / m;
    assert x == q * m + x % m;
    MultipleMod(q, m);
    AddMod(q * m, x % m + y, m);
  }

  lemma {:induction false} Distribute(i: nat, t: nat, k: nat)
    ensures (i + t) * k == i * k + t * k
  {
  }

  lemma {:induction false} PositionsDiffer(offset: nat, skip: nat, m: nat, i: nat, j: nat)
    requires IsPrime(m) && 0 < skip < m && i < j < m
    ensures Position(offset, skip, m, i) != Position(offset, skip, m, j)
  {
    var t := j - i;
    Distribute(i, t, skip);
    StrideDiffers(offset + i * skip, skip, m, t);
  }

  lemma {:induction false} StrideDiffers(x: nat, skip: nat, m: nat, t: nat)
    requires IsPrime(m) && 0 < skip < m && 0 < t < m
    ensures x % m != (x + t * skip) % m
  {
    if x % m == (x + t * skip) % m {
      SameResidue(x, t * skip, m);
      Euclid(m, skip, t);
      DivUnique(t, m, 0, t);
    }
  }

  lemma {:induction false} SameResidue(x: nat, y: nat, m: nat)
    requires m > 0 && x % m == (x + y) % m
    ensures y % m == 0
  {
    var q, q' := x / m, (x + y) / m;
    assert y == (q' - q) * m;
    DivUnique(y, m, q' - q, 0);
  }

  /** For a prime table size every preference list holds every slot exactly once. */
  lemma PermutationIsOne(node: Node, m: nat)
    requires IsPrime(m)
    ensures Distinct(Permutation(node, m)) && forall c :: 0 <= c < m ==> c in Permutation(node, m)
  {
    var s := Permutation(node, m);
    forall i, j | 0 <= i < j < |s| ensures s[i] != s[j] {
      PositionsDiffer(Offset(node, m), Skip(node, m), m, i, j);
    }
    Pigeonhole(s, m);
  }

  // ---- The table, without the `next` pointers ----

  /** Index of the first free slot in a preference list, from `k` on. */
  function FirstFree(entry: seq<int>, perm: seq<nat>, k: nat): (r: nat)
    requires k <= |perm| && Below(perm, |entry|)
    ensures k <= r <= |perm|
    ensures forall i {:trigger perm[i]} :: k <= i < r ==> entry[perm[i]] >= 0
    ensures r < |perm| ==> entry[perm[r]] < 0
    decreases |perm| - k
  {
    if k == |perm| || entry[perm[k]] < 0 then k else FirstFree(entry, perm, k + 1)
  }

  /** One turn: node `i` takes its most preferred free slot. */
  function Turn(entry: seq<int>, perm: seq<nat>, i: nat): (r: seq<int>)
    requires Below(perm, |entry|)
    ensures |r| == |entry|
  {
    var k := FirstFree(entry, perm, 0);
    if k < |perm| then entry[perm[k] := i] else entry
  }

  function Empty(m: nat): seq<int> { seq(m, _ => -1) }

  /** The table after `j` turns, the nodes taking turns in order. */
  function Table(nodes: seq<Node>, m: nat, j: nat): (r: seq<int>)
    requires m > 1 && |nodes| > 0
    ensures |r| == m
  {
    if j == 0 then Empty(m)
    else Turn(Table(nodes, m, j - 1), Permutation(nodes[(j - 1) % |nodes|], m), (j - 1) % |nodes|)
  }

  ghost predicate TakesAt(entry: seq<int>, entry': seq<int>, perm: seq<nat>, i: nat, k: nat)
    requires Below(perm, |entry|)
  {
    && k < |perm| && entry[perm[k]] < 0 && entry' == entry[perm[k] := i]
    && forall l {:trigger perm[l]} :: 0 <= l < k ==> entry[perm[l]] >= 0
  }

  /** In turn `j` it is the turn of node `j % n`, which takes the first slot of its preference list that is free. */
  lemma {:induction false} TurnTakes(nodes: seq<Node>, m: nat, j: nat) returns (k: nat)
    requires IsPrime(m) && |nodes| > 0 && j < m
    ensures var i := j % |nodes|;
            TakesAt(Table(nodes, m, j), Table(nodes, m, j + 1), Permutation(nodes[i], m), i, k)
  {
    TableFair(nodes, m, j);
    var i, t := j % |nodes|, Table(nodes, m, j);
    FindsFree(t, nodes[i], |nodes|, m, j);
    k := FirstFree(t, Permutation(nodes[i], m), 0);
  }

  function Count(s: seq<int>, v: int): nat {
    if s == [] then 0 else Count(s[..|s| - 1], v) + if s[|s| - 1] == v then 1 else 0
  }

  lemma {:induction false} CountUpdate(s: seq<int>, c: nat, x: int, v: int)
    requires c < |s|
    ensures Count(s[c := x], v) == Count(s, v) - (if s[c] == v then 1 else 0) + (if x == v then 1 else 0)
  {
    var n := |s| - 1;
    if c == n {
      assert s[c := x][..n] == s[..n];
    } else {
      assert s[c := x][..n] == s[..n][c := x];
      CountUpdate(s[..n], c, x, v);
    }
  }

  lemma {:induction false} CountEmpty(m: nat, v: int)
    ensures Count(Empty(m), v) == if v == -1 then m else 0
  {
    if m > 0 {
      assert Empty(m)[..m - 1] == Empty(m - 1);
      CountEmpty(m - 1, v);
    }
  }

  lemma {:induction false} CountZero(s: seq<int>, v: int)
    ensures Count(s, v) == 0 <==> v !in s
  {
    if s != [] {
      var n := |s| - 1;
      CountZero(s[..n], v);
      assert s == s[..n] + [s[n]];
    }
  }

  /** Slots are free or hold a node, `m - j` are free, and the turns are spread evenly. */
  ghost predicate Fair(s: seq<int>, n: nat, m: nat, j: nat)
    requires n > 0
  {
    && |s| == m && j <= m
    && (forall c {:trigger s[c]} :: 0 <= c < m ==> -1 <= s[c] < n)
    && Count(s, -1) == m - j
    && (forall i {:trigger Count(s, i)} :: 0 <= i < n ==> Count(s, i) == j / n + if i < j % n then 1 else 0)
  }

  lemma {:induction false} TurnCounts(j: nat, n: nat, i: nat)
    requires n > 0 && i < n
    ensures (j + 1) / n + (if i < (j + 1) % n then 1 else 0)
         == j / n + (if i < j % n then 1 else 0) + (if i == j % n then 1 else 0)
  {
    var q, r := j / n, j % n;
    if r + 1 == n {
      assert j + 1 == (q + 1) * n;
      DivUnique(j + 1, n, q + 1, 0);
    } else {
      assert j + 1 == q * n + (r + 1);
      DivUnique(j + 1, n, q, r + 1);
    }
  }

  /** While a slot is free, the node whose turn it is finds one. */
  lemma FindsFree(entry: seq<int>, node: Node, n: nat, m: nat, j: nat)
    requires IsPrime(m) && n > 0 && Fair(entry, n, m, j) && j < m
    ensures FirstFree(entry, Permutation(node, m), 0) < m
  {
    var perm := Permutation(node, m);
    CountZero(entry, -1);
    var c :| 0 <= c < m && entry[c] == -1;
    PermutationIsOne(node, m);
    assert c in perm;
    var k :| 0 <= k < m && perm[k] == c;
  }

  lemma {:induction false} EmptyFair(n: nat, m: nat)
    requires n > 0
    ensures Fair(Empty(m), n, m, 0)
  {
    CountEmpty(m, -1);
    forall i | 0 <= i < n ensures Count(Empty(m), i) == 0 { CountEmpty(m, i); }
    DivUnique(0, n, 0, 0);
  }

  lemma {:induction false} TableFair(nodes: seq<Node>, m: nat, j: nat)
    requires IsPrime(m) && |nodes| > 0 && j <= m
    ensures Fair(Table(nodes, m, j), |nodes|, m, j)
  {
    if j == 0 {
      EmptyFair(|nodes|, m);
    } else {
      TableFair(nodes, m, j - 1);
      var before := j - 1;
      TurnFair(Table(nodes, m, before), nodes, m, before, j);
    }
  }

  lemma {:induction false} TurnFair(s: seq<int>, nodes: seq<Node>, m: nat, j: nat, j': nat)
    requires IsPrime(m) && |nodes| > 0 && j < m && j' == j + 1 && Fair(s, |nodes|, m, j)
    ensures Fair(Turn(s, Permutation(nodes[j % |nodes|], m), j % |nodes|), |nodes|, m, j')
  {
    var n := |nodes|;
    var i := j % n;
    var perm := Permutation(nodes[i], m);
    FindsFree(s, nodes[i], n, m, j);
    var c := perm[FirstFree(s, perm, 0)];
    var r := s[c := i];
    CountUpdate(s, c, i, -1);
    forall v | 0 <= v < n ensures Count(r, v) == j' / n + if v < j' % n then 1 else 0 {
      assert Count(s, v) == j / n + if v < j % n then 1 else 0;
      CountUpdate(s, c, i, v);
      TurnCounts(j, n, v);
    }
  }

  /** In the full table every slot holds a node, and any two nodes hold numbers of slots that differ by at most one. */
  lemma Balanced(nodes: seq<Node>, m: nat, a: nat, b: nat)
    requires IsPrime(m) && a < |nodes| && b < |nodes|
    ensures var t := Table(nodes, m, m);
            && (forall c :: 0 <= c < m ==> 0 <= t[c] < |nodes|)
            && Count(t, a) <= Count(t, b) + 1
  {
    var t := Table(nodes, m, m);
    TableFair(nodes, m, m);
    CountZero(t, -1);
    assert Count(t, a) == m / |nodes| + if a < m % |nodes| then 1 else 0;
    assert Count(t, b) == m / |nodes| + if b < m % |nodes| then 1 else 0;
  }

  // ---- The table as it is built ----

  /** `i as i8`. */
  function AsI8(i: nat): (r: int)
    ensures -128 <= r < 128
  {
    if i % 256 < 128 then i % 256 else i % 256 - 256
  }

  /** `x as usize`, for an `i8`. */
  function AsUsize(x: int): (r: nat)
    requires -128 <= x < 128
    ensures if x >= 0 then r == x else U64 - 128 <= r < U64
  {
    if x >= 0 then x else U64 + x
  }

  /** A node's number survives the cast, and is told apart from a free slot, exactly below 128. */
  lemma I8Exact(i: nat)
    ensures AsI8(i) == i <==> i < 128
  {
  }

  /** Everything before a node's `next` pointer in its preference list is taken. */
  ghost predicate Passed(entry: seq<int>, perm: seq<nat>, next: nat)
    requires Below(perm, |entry|)
  {
    next <= |perm| && forall k {:trigger perm[k]} :: 0 <= k < next ==> entry[perm[k]] >= 0
  }

  ghost predicate Progress(entry: seq<int>, next: seq<nat>, nodes: seq<Node>, m: nat, j: nat)
    requires m > 1 && |nodes| > 0
  {
    && entry == Table(nodes, m, j) && |next| == |nodes|
    && forall i {:trigger next[i]} :: 0 <= i < |nodes| ==> Passed(entry, Permutation(nodes[i], m), next[i])
  }

  lemma {:induction false} ProgressStep(before: seq<int>, pointers: seq<nat>, nodes: seq<Node>, m: nat, j: nat, i: nat,
                                        free: nat, c: nat)
    requires IsPrime(m) && |nodes| > 0 && j < m && i == j % |nodes| && Progress(before, pointers, nodes, m, j)
    requires free == FirstFree(before, Permutation(nodes[i], m), 0) < m && c == Permutation(nodes[i], m)[free]
    ensures Progress(before[c := i], pointers[i := free + 1], nodes, m, j + 1)
  {
    var entry, next := before[c := i], pointers[i := free + 1];
    assert entry == Table(nodes, m, j + 1);
    forall k | 0 <= k < |nodes| ensures Passed(entry, Permutation(nodes[k], m), next[k]) {
      assert Passed(before, Permutation(nodes[k], m), pointers[k]);
    }
  }

  /** No node number is changed by the cast: all are below 128, or the table is full before one of the others
      has a turn. */
  predicate AllFit(n: nat, m: nat) { n <= 128 || m <= 128 }

  ghost predicate TouchedBefore(perm: seq<nat>, next: nat, touched: set<nat>) {
    next <= |perm| && forall k {:trigger perm[k]} :: 0 <= k < next ==> perm[k] in touched
  }

  /** After `j` turns at most `j` slots were written, all others are free, and the pointers went past written
      slots only. While the node numbers fit, the table is the one described above. */
  ghost predicate Steady(entry: seq<int>, next: seq<nat>, nodes: seq<Node>, m: nat, j: nat, touched: set<nat>)
    requires m > 1 && |nodes| > 0
  {
    && |entry| == m && |next| == |nodes| && |touched| <= j
    && (forall c {:trigger entry[c]} :: 0 <= c < m ==> -128 <= entry[c] < 128 && (c !in touched ==> entry[c] == -1))
    && (forall i {:trigger next[i]} :: 0 <= i < |nodes| ==> TouchedBefore(Permutation(nodes[i], m), next[i], touched))
    && (AllFit(|nodes|, m) ==> Progress(entry, next, nodes, m, j))
  }

  /** Before the last turn a node's pointer comes to a free slot, however many nodes there are. */
  lemma {:induction false} SlotAhead(entry: seq<int>, next: seq<nat>, nodes: seq<Node>, m: nat, j: nat,
                                     touched: set<nat>, i: nat)
    requires IsPrime(m) && i < |nodes| && j < m && Steady(entry, next, nodes, m, j, touched)
    ensures next[i] <= FirstFree(entry, Permutation(nodes[i], m), next[i]) < m
  {
    var perm := Permutation(nodes[i], m);
    if Range(m) <= touched { SubsetSize(Range(m), touched); }
    var c :| c in Range(m) && c !in touched;
    PermutationIsOne(nodes[i], m);
    assert c in perm;
    var k :| 0 <= k < m && perm[k] == c;
    assert TouchedBefore(perm, next[i], touched);
    assert entry[c] == -1;
  }

  lemma {:induction false} SkipPassed(entry: seq<int>, perm: seq<nat>, k: nat, next: nat)
    requires k <= next && Below(perm, |entry|) && Passed(entry, perm, next)
    ensures FirstFree(entry, perm, k) == FirstFree(entry, perm, next)
    decreases next - k
  {
    if k < next {
      assert entry[perm[k]] >= 0;
      SkipPassed(entry, perm, k + 1, next);
    }
  }

  lemma {:induction false} TouchedMore(entry: seq<int>, perm: seq<nat>, next: nat, touched: set<nat>, c: nat)
    requires Below(perm, |entry|) && TouchedBefore(perm, next, touched) && FirstFree(entry, perm, next) < |perm|
    requires forall b {:trigger entry[b]} :: 0 <= b < |entry| && b !in touched ==> entry[b] == -1
    requires c == perm[FirstFree(entry, perm, next)]
    ensures TouchedBefore(perm, FirstFree(entry, perm, next) + 1, touched + {c})
  {
  }

  lemma {:induction false} FitStep(before: seq<int>, pointers: seq<nat>, nodes: seq<Node>, m: nat, j: nat, i: nat,
                                   free: nat, c: nat)
    requires IsPrime(m) && |nodes| > 0 && j < m && i == j % |nodes| && AllFit(|nodes|, m)
    requires Progress(before, pointers, nodes, m, j)
    requires free == FirstFree(before, Permutation(nodes[i], m), pointers[i]) < m && c == Permutation(nodes[i], m)[free]
    ensures Progress(before[c := AsI8(i)], pointers[i := free + 1], nodes, m, j + 1)
  {
    var perm := Permutation(nodes[i], m);
    if j < |nodes| { DivUnique(j, |nodes|, 0, j); }
    I8Exact(i);
    assert Passed(before, perm, pointers[i]);
    SkipPassed(before, perm, 0, pointers[i]);
    ProgressStep(before, pointers, nodes, m, j, i, free, c);
  }

  lemma {:induction false} SteadyStep(before: seq<int>, pointers: seq<nat>, nodes: seq<Node>, m: nat, j: nat,
                                      touched: set<nat>, i: nat, free: nat, c: nat)
    requires IsPrime(m) && |nodes| > 0 && j < m && i == j % |nodes| && Steady(before, pointers, nodes, m, j, touched)
    requires free == FirstFree(before, Permutation(nodes[i], m), pointers[i]) < m && c == Permutation(nodes[i], m)[free]
    ensures Steady(before[c := AsI8(i)], pointers[i := free + 1], nodes, m, j + 1, touched + {c})
  {
    var next := pointers[i := free + 1];
    forall k | 0 <= k < |nodes| ensures TouchedBefore(Permutation(nodes[k], m), next[k], touched + {c}) {
      assert TouchedBefore(Permutation(nodes[k], m), pointers[k], touched);
      if k == i { TouchedMore(before, Permutation(nodes[i], m), pointers[i], touched, c); }
    }
    if AllFit(|nodes|, m) { FitStep(before, pointers, nodes, m, j, i, free, c); }
  }

  /** Move node `i`'s pointer to the next free slot of its preference list. */
  method Advance(entry: array<int>, next: array<nat>, perm: seq<nat>, i: nat) returns (c: nat)
    requires i < next.Length && Below(perm, entry.Length) && next[i] <= |perm|
    requires FirstFree(entry[..], perm, next[i]) < |perm|
    modifies next
    ensures next[..] == old(next[..])[i := FirstFree(entry[..], perm, old(next[i]))] && c == perm[next[i]]
  {
    ghost var free := FirstFree(entry[..], perm, next[i]);
    assert entry[..][perm[free]] < 0;
    c := perm[next[i]];
    while entry[c] >= 0
      invariant next[i] <= free && c == perm[next[i]] && next[..] == old(next[..])[i := next[i]]
      invariant FirstFree(entry[..], perm, next[i]) == free
      decreases free - next[i]
    {
      next[i] := next[i] + 1;
      c := perm[next[i]];
    }
  }

  /** One turn of node `i`: skip the slots that are taken, and take the next. */
  method TakeTurn(entry: array<int>, next: array<nat>, perm: seq<nat>, i: nat,
                  ghost nodes: seq<Node>, ghost m: nat, ghost j: nat, ghost touched: set<nat>)
    returns (ghost touched': set<nat>)
    requires IsPrime(m) && i < |nodes| && i == j % |nodes| && j < m && perm == Permutation(nodes[i], m)
    requires entry.Length == m && next.Length == |nodes| && Steady(entry[..], next[..], nodes, m, j, touched)
    modifies entry, next
    ensures Steady(entry[..], next[..], nodes, m, j + 1, touched')
  {
    ghost var before, pointers := entry[..], next[..];
    SlotAhead(before, pointers, nodes, m, j, touched, i);
    ghost var free := FirstFree(before, perm, pointers[i]);
    var c := Advance(entry, next, perm, i);
    SteadyStep(before, pointers, nodes, m, j, touched, i, free, c);
    entry[c] := AsI8(i);
    next[i] := next[i] + 1;
    touched' := touched + {c};
    assert entry[..] == before[c := AsI8(i)] && next[..] == pointers[i := free + 1];
  }

  lemma {:induction false} TurnOf(base: nat, n: nat, i: nat)
    requires n > 0 && base % n == 0 && i <= n
    ensures i < n ==> (base + i) % n == i
    ensures i == n ==> (base + i) % n == 0
  {
    AddMod(base, i, n);
    if i < n { DivUnique(i, n, 0, i); } else { DivUnique(i, n, 1, 0); }
  }

  /** A round: every node has a turn, until the table is full. */
  method Round(entry: array<int>, next: array<nat>, permutation: seq<seq<nat>>, m: nat, base: nat,
               ghost nodes: seq<Node>, ghost touched: set<nat>)
    returns (j: nat, ghost touched': set<nat>)
    requires IsPrime(m) && |nodes| > 0 && base < m && base % |nodes| == 0 && |permutation| == |nodes|
    requires forall i {:trigger permutation[i]} :: 0 <= i < |nodes| ==> permutation[i] == Permutation(nodes[i], m)
    requires entry.Length == m && next.Length == |nodes| && Steady(entry[..], next[..], nodes, m, base, touched)
    modifies entry, next
    ensures base < j <= m && (j == m || j % |nodes| == 0) && Steady(entry[..], next[..], nodes, m, j, touched')
  {
    var n := |permutation|;
    j, touched' := base, touched;
    var i := 0;
    while i < n
      invariant 0 <= i <= n && j < m && j == base + i && Steady(entry[..], next[..], nodes, m, j, touched')
    {
      TurnOf(base, n, i);
      touched' := TakeTurn(entry, next, permutation[i], i, nodes, m, j, touched');
      j := j + 1;
      if j == m { return; }
      i := i + 1;
    }
    TurnOf(base, n, n);
  }

  /** A node that gets a turn has a slot in the full table. */
  lemma {:induction false} NodeIn(nodes: seq<Node>, m: nat, i: nat)
    requires IsPrime(m) && i < |nodes| && i < m
    ensures exists c :: 0 <= c < m && Table(nodes, m, m)[c] == i
  {
    var n, t := |nodes|, Table(nodes, m, m);
    TableFair(nodes, m, m);
    assert Count(t, i) == m / n + if i < m % n then 1 else 0;
    if m < n { DivUnique(m, n, 0, m); }
    CountZero(t, i);
  }

  /** Fill the table. For a prime size and any positive number of nodes no index is out of range. Entries are
      bytes, so the result is the table of the simple description, where each node in turn takes its most
      preferred free slot, exactly if there are at most 128 nodes (or slots). */
  method Populate(nodes: seq<Node>, m: nat) returns (lookup: seq<int>)
    requires IsPrime(m) && 1 <= |nodes|
    ensures |lookup| == m && forall c :: 0 <= c < m ==> -128 <= lookup[c] < 128
    ensures lookup == Table(nodes, m, m) <==> |nodes| <= 128 || m <= 128
  {
    var n := |nodes|;
    var permutation := seq(n, i requires 0 <= i < n => Permutation(nodes[i], m));
    var next := new nat[n](_ => 0);
    var entry := new int[m](_ => -1);
    var j := 0;
    ghost var touched := {};
    DivUnique(0, n, 0, 0);
    assert entry[..] == Empty(m);
    while j < m
      invariant j <= m && (j == m || j % n == 0) && Steady(entry[..], next[..], nodes, m, j, touched)
    {
      j, touched := Round(entry, next, permutation, m, j, nodes, touched);
    }
    lookup := entry[..];
    if !AllFit(n, m) {
      NodeIn(nodes, m, 128);
    }
  }

  /** The lookup table of a balancer and its connection cache. */
  class Balancer {
    const nodes: seq<Node>
    const lookup: seq<int>
    var cache: map<nat, nat>

    ghost predicate Valid()
      reads this
    {
      && 1 <= |nodes| && |lookup| == TABLE_SIZE
      && (forall c {:trigger lookup[c]} :: 0 <= c < TABLE_SIZE ==> -128 <= lookup[c] < 128)
      && (lookup == Table(nodes, TABLE_SIZE, TABLE_SIZE) <==> |nodes| <= 128)
      && forall h {:trigger cache[h]} :: h in cache ==> cache[h] == AsUsize(lookup[h % |lookup|])
    }

    constructor (nodes: seq<Node>)
      requires 1 <= |nodes|
      ensures Valid() && this.nodes == nodes
    {
      TableSizePrime();
      var table := Populate(nodes, TABLE_SIZE);
      this.nodes, lookup, cache := nodes, table, map[];
    }

    /** The node for a flow. Whatever the cache holds or evicts, the answer is the table's. With at most 128
        nodes it is a node; with more it is one of the first 128 or no index at all. */
    method GetIndexFromHash(hash: nat, evicted: set<nat>) returns (x: nat)
      requires Valid()
      modifies this`cache
      ensures Valid() && x == AsUsize(lookup[hash % TABLE_SIZE])
      ensures |nodes| <= 128 ==> x < |nodes| && x == Table(nodes, TABLE_SIZE, TABLE_SIZE)[hash % TABLE_SIZE]
      ensures x < 128 || U64 - 128 <= x < U64
    {
      TableSizePrime();
      Balanced(nodes, TABLE_SIZE, 0, 0);
      if hash in cache {
        x := cache[hash];
      } else {
        x := AsUsize(lookup[hash % |lookup|]);
        cache := (cache - evicted)[hash := x];
      }
    }
  }
}
