/** Power-of-two blocks of page frames: the geometry behind the buddy allocator.

    A block of order `k` is a naturally aligned run of 2^k pages, named by its order and its
    position among the blocks of that order. */
module Dyadic {
  import opened Arith

  datatype Block = Block(order: nat, index: nat)

  /** First page of the block. */
  function Start(b: Block): nat {
    b.index * Pow2(b.order)
  }

  predicate Covers(b: Block, page: nat) {
    Start(b) <= page < Start(b) + Pow2(b.order)
  }

  function Lower(b: Block): Block requires b.order > 0 { Block(b.order - 1, 2 * b.index) }

  function Upper(b: Block): Block requires b.order > 0 { Block(b.order - 1, 2 * b.index + 1) }

  function Parent(b: Block): Block { Block(b.order + 1, b.index / 2) }

  /** The other half of the parent. */
  function Buddy(b: Block): Block {
    Block(b.order, if b.index % 2 == 0 then b.index + 1 else b.index - 1)
  }

  predicate InRoot(b: Block, root: nat) {
    b.order <= root && Start(b) + Pow2(b.order) <= Pow2(root)
  }

  /** The blocks lie inside the root block, are pairwise disjoint and leave no page out. */
  ghost predicate Tiles(s: set<Block>, root: nat) {
    && (forall b :: b in s ==> InRoot(b, root))
    && (forall b, c, p: nat :: b in s && c in s && Covers(b, p) && Covers(c, p) ==> b == c)
    && (forall p: nat :: p < Pow2(root) ==> Holds(s, p))
  }

  ghost predicate Holds(s: set<Block>, page: nat) {
    exists b :: b in s && Covers(b, page)
  }

  /** Every page of `q` lies in some block of `s`. */
  ghost predicate FullyIn(q: Block, s: set<Block>) {
    forall p: nat :: Covers(q, p) ==> Holds(s, p)
  }

  /** No two blocks of `s` could be merged. */
  ghost predicate Coalesced(s: set<Block>) {
    forall b :: b in s ==> Buddy(b) !in s
  }

  lemma Halves(b: Block)
    requires b.order > 0
    ensures Start(Lower(b)) == Start(b)
    ensures Start(Upper(b)) == Start(b) + Pow2(b.order - 1)
    ensures Buddy(Lower(b)) == Upper(b) && Buddy(Upper(b)) == Lower(b)
    ensures Parent(Lower(b)) == b && Parent(Upper(b)) == b
    ensures forall p: nat :: Covers(b, p) <==> Covers(Lower(b), p) || Covers(Upper(b), p)
    ensures forall p: nat :: !(Covers(Lower(b), p) && Covers(Upper(b), p))
  {
    var h := Pow2(b.order - 1);
    assert b.index * (2 * h) == (2 * b.index) * h;
    assert (2 * b.index + 1) * h == (2 * b.index) * h + h;
  }

  lemma BuddyIsOtherHalf(b: Block)
    ensures Buddy(Buddy(b)) == b
    ensures {b, Buddy(b)} == {Lower(Parent(b)), Upper(Parent(b))}
    ensures Parent(Buddy(b)) == Parent(b)
  {
  }

  /** Only one block of a given order covers a given page. */
  lemma SameOrder(b: Block, c: Block, page: nat)
    requires b.order == c.order && Covers(b, page) && Covers(c, page)
    ensures b == c
  {
    if b.index < c.index {
      Gap(b.index, c.index, Pow2(b.order));
      assert false;
    } else if c.index < b.index {
      Gap(c.index, b.index, Pow2(b.order));
      assert false;
    }
  }

  lemma StartCovered(b: Block)
    ensures Covers(b, Start(b))
  {
  }

  /** Replacing a block by its two halves keeps the tiling. */
  lemma Split(s: set<Block>, b: Block, root: nat)
    requires Tiles(s, root) && b in s && b.order > 0
    ensures Tiles(s - {b} + {Lower(b), Upper(b)}, root)
    ensures Lower(b) !in s && Upper(b) !in s
  {
    var t := s - {b} + {Lower(b), Upper(b)};
    Halves(b);
    StartCovered(Lower(b));
    StartCovered(Upper(b));
    forall p: nat | p < Pow2(root)
      ensures Holds(t, p)
    {
      assert Holds(s, p);
      var c :| c in s && Covers(c, p);
      assert c == b || c in t;
      assert Lower(b) in t && Upper(b) in t;
    }
    assert forall c, p: nat :: c in s && c != b && Covers(c, p) ==> !Covers(b, p);
  }

  /** Replacing two buddies by their parent keeps the tiling. */
  lemma Join(s: set<Block>, b: Block, root: nat)
    requires Tiles(s, root) && b in s && Buddy(b) in s
    ensures Tiles(s - {b, Buddy(b)} + {Parent(b)}, root)
    ensures Parent(b) !in s && b.order < root
  {
    var m := Parent(b);
    var t := s - {b, Buddy(b)} + {m};
    BuddyIsOtherHalf(b);
    Halves(m);
    StartCovered(m);
    assert {Lower(m), Upper(m)} == {b, Buddy(b)};
    assert InRoot(Lower(m), root) && InRoot(Upper(m), root);
    assert Start(m) + Pow2(m.order) <= Pow2(root);
    if b.order >= root {
      Pow2Monotone(root, b.order);
      assert false;
    }
    forall p: nat | p < Pow2(root)
      ensures Holds(t, p)
    {
      assert Holds(s, p);
      var c :| c in s && Covers(c, p);
      assert m in t;
      assert c == b || c == Buddy(b) || c in t;
    }
    assert forall c, p: nat :: c in s && c != b && c != Buddy(b) && Covers(c, p) ==> !Covers(m, p);
  }

  /** A run of free pages that is itself a naturally aligned block lies inside one free block. */
  lemma {:induction false} FreeRunInOneBlock(free: set<Block>, q: Block) returns (b: Block)
    requires Coalesced(free)
    requires FullyIn(q, free)
    ensures b in free && b.order >= q.order
    ensures forall p: nat :: Covers(q, p) ==> Covers(b, p)
    decreases q.order
  {
    if q.order == 0 {
      StartCovered(q);
      b :| b in free && Covers(b, Start(q));
    } else {
      Halves(q);
      var lo := FreeRunInOneBlock(free, Lower(q));
      var hi := FreeRunInOneBlock(free, Upper(q));
      if lo.order == q.order - 1 {
        StartCovered(Lower(q));
        SameOrder(lo, Lower(q), Start(Lower(q)));
        if hi.order == q.order - 1 {
          StartCovered(Upper(q));
          SameOrder(hi, Upper(q), Start(Upper(q)));
          assert false;
        }
        b := hi;
        StartCovered(Upper(q));
        Nested(Upper(q), hi);
      } else {
        b := lo;
        StartCovered(Lower(q));
        Nested(Lower(q), lo);
      }
    }
  }

  /** A block covering all of `c` and larger than it covers all of the parent of `c`. */
  lemma Nested(c: Block, b: Block)
    requires b.order > c.order && Covers(b, Start(c))
    ensures forall p: nat :: Covers(Parent(c), p) ==> Covers(b, p)
  {
    Ancestor(Parent(c), b, Start(c));
    BuddyIsOtherHalf(c);
    Halves(Parent(c));
  }

  /** Blocks that share a page are nested, the smaller in the larger. */
  lemma {:induction false} Ancestor(c: Block, b: Block, page: nat)
    requires b.order >= c.order && Covers(b, page)
    requires Covers(c, page) || (c.order > 0 && (Covers(Lower(c), page) || Covers(Upper(c), page)))
    ensures forall p: nat :: Covers(c, p) ==> Covers(b, p)
    decreases b.order - c.order
  {
    if c.order > 0 { Halves(c); }
    if b.order == c.order {
      SameOrder(b, c, page);
    } else {
      BuddyIsOtherHalf(c);
      Halves(Parent(c));
      Ancestor(Parent(c), b, page);
    }
  }

  /** When nothing is handed out, a coalesced tiling is the root block alone. */
  lemma AllFree(free: set<Block>, root: nat)
    requires Tiles(free, root) && Coalesced(free)
    ensures free == {Block(root, 0)}
  {
    var r := Block(root, 0);
    var b := FreeRunInOneBlock(free, r);
    StartCovered(r);
    SameOrder(b, r, Start(r));
    forall c | c in free ensures c == r {
      StartCovered(c);
      Pow2Monotone(c.order, root);
      assert Covers(r, Start(c));
    }
  }
}
