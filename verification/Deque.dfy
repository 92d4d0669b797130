/** The ring deque of shared-heap references, over an array of optional references. */
module Deque {
  import opened Collections
  import opened Common

  /** Position `i` places after `t` on a ring of `n`. */
  function Wrap(t: nat, i: nat, n: nat): (r: nat)
    requires t < n && i <= n
    ensures r < n
  {
    if t + i < n then t + i else t + i - n
  }

  lemma NextIsWrap(t: nat, n: nat)
    requires t < n
    ensures (t + 1) % n == Wrap(t, 1, n)
  {
    if t + 1 < n {
      assert (t + 1) % n == t + 1;
    } else {
      assert n % n == 0;
    }
  }

  // ---- The bounded queue that the deque stands for ----

  datatype Op = Push(x: nat) | Pop

  /** A push to a full queue gives the element back; a pop from an empty one gives nothing. */
  function Step(n: nat, q: seq<nat>, op: Op): (r: (seq<nat>, Option<nat>)) {
    match op
    case Push(x) => if |q| == n then (q, Some(x)) else (q + [x], None)
    case Pop => if q == [] then (q, None) else (q[1..], Some(q[0]))
  }

  function After(n: nat, q: seq<nat>, ops: seq<Op>): seq<nat> {
    if ops == [] then q else Step(n, After(n, q, ops[..|ops| - 1]), ops[|ops| - 1]).0
  }

  function Results(n: nat, q: seq<nat>, ops: seq<Op>): (r: seq<Option<nat>>)
    ensures |r| == |ops|
  {
    if ops == [] then []
    else Results(n, q, ops[..|ops| - 1]) + [Step(n, After(n, q, ops[..|ops| - 1]), ops[|ops| - 1]).1]
  }

  /** A reference that is pushed is owned by the caller, so it is not in the queue already. */
  ghost predicate Owned(n: nat, q: seq<nat>, ops: seq<Op>) {
    forall k {:trigger ops[k]} :: 0 <= k < |ops| && ops[k].Push? ==> ops[k].x !in After(n, q, ops[..k])
  }

  /** The occupied slots are the interval of the ring from `tail` on that holds `q`. */
  ghost predicate Ring(slots: seq<Option<nat>>, tail: nat, q: seq<nat>)
    requires tail < |slots|
  {
    |q| <= |slots| && forall i {:trigger Wrap(tail, i, |slots|)} :: 0 <= i < |slots| ==>
      slots[Wrap(tail, i, |slots|)] == if i < |q| then Some(q[i]) else None
  }

  lemma Pushed(slots: seq<Option<nat>>, tail: nat, q: seq<nat>, x: nat)
    requires tail < |slots| && Ring(slots, tail, q) && |q| < |slots|
    ensures Ring(slots[Wrap(tail, |q|, |slots|) := Some(x)], tail, q + [x])
  {
  }

  lemma Popped(slots: seq<Option<nat>>, tail: nat, q: seq<nat>)
    requires tail < |slots| && Ring(slots, tail, q) && |q| > 0
    ensures Ring(slots[tail := None], Wrap(tail, 1, |slots|), q[1..])
  {
    var n := |slots|;
    var tail', slots' := Wrap(tail, 1, n), slots[tail := None];
    forall i | 0 <= i < n ensures slots'[Wrap(tail', i, n)] == if i < |q| - 1 then Some(q[1..][i]) else None {
      if i < n - 1 {
        assert Wrap(tail', i, n) == Wrap(tail, i + 1, n);
      }
    }
  }

  class RRefDeque {
    const n: nat
    const slots: array<Option<nat>>
    var head: nat
    var tail: nat
    /** The domain mark of every reference. */
    var marks: map<nat, nat>
    ghost var q: seq<nat>

    ghost predicate Valid()
      reads this, slots
    {
      && n > 0 && slots.Length == n && head < n && tail < n
      && Ring(slots[..], tail, q) && head == Wrap(tail, |q|, n)
      && Distinct(q)
      && forall i {:trigger q[i]} :: 0 <= i < |q| ==> q[i] in marks && marks[q[i]] == 0
    }

    constructor (n: nat)
      requires n > 0
      ensures Valid() && this.n == n && q == [] && fresh(slots)
    {
      this.n := n;
      slots := new Option<nat>[n](_ => None);
      head, tail, marks, q := 0, 0, map[], [];
    }

    method Has(index: nat) returns (b: bool)
      requires index < slots.Length
      ensures b <==> slots[index].Some?
    {
      b := slots[index].Some?;
    }

    /** Take the reference out of a slot; it is marked with the current domain. */
    method Get(index: nat, current: nat) returns (value: Option<nat>)
      requires index < slots.Length
      modifies this`marks, slots
      ensures value == old(slots[index]) && slots[..] == old(slots[..])[index := None]
      ensures marks == if value.Some? then old(marks)[value.value := current] else old(marks)
    {
      value := slots[index];
      slots[index] := None;
      if value.Some? {
        marks := marks[value.value := current];
      }
    }

    /** Put a reference into a slot; it is marked 0. What was there before is given up. */
    method Set(index: nat, x: nat) returns (dropped: Option<nat>)
      requires index < slots.Length
      modifies this`marks, slots
      ensures dropped == old(slots[index])
      ensures slots[..] == old(slots[..])[index := Some(x)] && marks == old(marks)[x := 0]
    {
      marks := marks[x := 0];
      dropped := slots[index];
      slots[index] := Some(x);
    }

    /** The number of elements, also when the deque is full and `head` meets `tail`. */
    method Len() returns (r: nat)
      requires Valid()
      ensures r == |q|
    {
      assert slots[..][Wrap(tail, 0, n)] == slots[tail];
      if head > tail {
        r := head - tail;
      } else if head == tail {
        var full := Has(head);
        r := if full then n else 0;
      } else {
        r := n - (tail - head);
      }
    }

    method PushBack(x: nat) returns (r: Option<nat>)
      requires Valid() && x !in q
      modifies this`head, this`marks, this`q, slots
      ensures Valid() && (q, r) == Step(n, old(q), Push(x))
      ensures if |old(q)| == n then q == old(q) && r == Some(x) else q == old(q) + [x] && r == None
      ensures if r.None? then marks == old(marks)[x := 0] else marks == old(marks) && slots[..] == old(slots[..])
    {
      assert slots[..][Wrap(tail, if |q| == n then 0 else |q|, n)] == slots[head];
      var full := Has(head);
      if full { return Some(x); }
      Pushed(slots[..], tail, q, x);
      var dropped := Set(head, x);
      NextIsWrap(head, n);
      head := (head + 1) % n;
      q := q + [x];
      r := None;
    }

    method PopFront(current: nat) returns (r: Option<nat>)
      requires Valid()
      modifies this`tail, this`marks, this`q, slots
      ensures Valid() && (q, r) == Step(n, old(q), Pop)
      ensures if old(q) == [] then q == [] && r == None else r.Some? && old(q) == [r.value] + q
      ensures marks == if r.Some? then old(marks)[r.value := current] else old(marks)
    {
      ghost var before := slots[..];
      assert before[Wrap(tail, 0, n)] == slots[tail];
      r := Get(tail, current);
      if r.Some? {
        Popped(before, tail, q);
        NextIsWrap(tail, n);
        tail := (tail + 1) % n;
        q := q[1..];
      } else {
        assert slots[..] == before;
      }
    }

    /** The references an iterator visits, in order. */
    method Iterate() returns (s: seq<nat>)
      requires Valid()
      ensures s == q
    {
      var curr := tail;
      var remaining: nat := Len();
      s := [];
      while remaining > 0
        invariant remaining + |s| == |q| && curr == Wrap(tail, |s|, n) && s == q[..|s|]
      {
        assert slots[..][Wrap(tail, |s|, n)] == slots[curr];
        var el := slots[curr];
        if el.None? { return; }
        NextIsWrap(curr, n);
        curr := (curr + 1) % n;
        remaining := remaining - 1;
        s := s + [el.value];
      }
    }

    /** Any run of pushes and pops gives the results of the bounded queue. */
    method Perform(ops: seq<Op>, current: nat) returns (results: seq<Option<nat>>)
      requires Valid() && Owned(n, q, ops)
      modifies this, slots
      ensures Valid() && q == After(n, old(q), ops) && results == Results(n, old(q), ops)
    {
      results := [];
      var k := 0;
      while k < |ops|
        invariant 0 <= k <= |ops| && Valid()
        invariant q == After(n, old(q), ops[..k]) && results == Results(n, old(q), ops[..k])
      {
        assert ops[..k + 1][..k] == ops[..k];
        var r: Option<nat>;
        match ops[k] {
          case Push(x) => r := PushBack(x);
          case Pop => r := PopFront(current);
        }
        results := results + [r];
        k := k + 1;
      }
      assert ops[..k] == ops;
    }
  }
}
