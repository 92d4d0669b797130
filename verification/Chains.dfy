/** Singly linked lists threaded through a memory of `next` words, with 0 as the null pointer.

    The frame allocator threads its free lists through the free blocks themselves, and the
    scheduler threads its queues through the `next` field of each thread; both are a head
    pointer plus one word per node, which is what `Chain` describes. */
module Chains {
  import opened Collections

  /** Following `next` from `head` visits exactly `nodes`, in order, and then meets null. */
  ghost predicate Chain(next: map<nat, nat>, head: nat, nodes: seq<nat>)
    decreases |nodes|
  {
    if nodes == [] then
      head == 0
    else
      && head == nodes[0] != 0
      && head in next
      && Chain(next, next[head], nodes[1..])
  }

  /** A chain survives any write that misses its nodes. */
  lemma {:induction false} Unaffected(next: map<nat, nat>, next': map<nat, nat>, head: nat, nodes: seq<nat>)
    requires Chain(next, head, nodes)
    requires forall x :: x in nodes && x in next ==> x in next' && next'[x] == next[x]
    ensures Chain(next', head, nodes)
    decreases |nodes|
  {
    if nodes != [] {
      assert head in nodes;
      forall x | x in nodes[1..] && x in next
        ensures x in next' && next'[x] == next[x]
      {
        assert x in nodes;
      }
      Unaffected(next, next', next[head], nodes[1..]);
    }
  }

  /** A head pointer determines the nodes visited. */
  lemma {:induction false} Unique(next: map<nat, nat>, head: nat, a: seq<nat>, b: seq<nat>)
    requires Chain(next, head, a) && Chain(next, head, b)
    ensures a == b
    decreases |a|
  {
    if a != [] && b != [] {
      Unique(next, next[head], a[1..], b[1..]);
      assert a == [a[0]] + a[1..] && b == [b[0]] + b[1..];
    }
  }

  lemma {:induction false} Suffix(next: map<nat, nat>, head: nat, nodes: seq<nat>, k: nat)
    requires Chain(next, head, nodes) && k < |nodes|
    ensures nodes[k] != 0 && Chain(next, nodes[k], nodes[k..])
    decreases k
  {
    if k == 0 {
      assert nodes[0..] == nodes;
    } else {
      Suffix(next, next[head], nodes[1..], k - 1);
      assert nodes[1..][k - 1..] == nodes[k..];
    }
  }

  /** A chain that ends never visits a node twice: it is acyclic. */
  lemma Acyclic(next: map<nat, nat>, head: nat, nodes: seq<nat>)
    requires Chain(next, head, nodes)
    ensures Distinct(nodes) && 0 !in nodes
  {
    forall i, j | 0 <= i < j < |nodes|
      ensures nodes[i] != nodes[j]
    {
      Suffix(next, head, nodes, i);
      Suffix(next, head, nodes, j);
      if nodes[i] == nodes[j] {
        Unique(next, nodes[i], nodes[i..], nodes[j..]);
        assert false;
      }
    }
    forall k | 0 <= k < |nodes|
      ensures nodes[k] != 0
    {
      Suffix(next, head, nodes, k);
    }
  }

  /** Unlinking node `k` from its predecessor `k - 1` drops it from the chain. */
  lemma {:induction false} Unlink(next: map<nat, nat>, head: nat, nodes: seq<nat>, k: nat)
    requires Chain(next, head, nodes) && 0 < k < |nodes|
    requires nodes[k - 1] in next && nodes[k] in next
    ensures Chain(next[nodes[k - 1] := next[nodes[k]]], head, nodes[..k] + nodes[k + 1..])
    decreases k
  {
    Acyclic(next, head, nodes);
    var next' := next[nodes[k - 1] := next[nodes[k]]];
    var rest := nodes[..k] + nodes[k + 1..];
    if k == 1 {
      Suffix(next, head, nodes, 1);
      assert nodes[1..][1..] == nodes[2..] == rest[1..];
      forall x | x in nodes[2..] && x in next ensures x in next' && next'[x] == next[x] {
        var j :| 2 <= j < |nodes| && nodes[j] == x;
      }
      Unaffected(next, next', next[nodes[1]], nodes[2..]);
    } else {
      Unlink(next, next[head], nodes[1..], k - 1);
      assert nodes[1..][..k - 1] + nodes[1..][k..] == rest[1..];
    }
  }
}
