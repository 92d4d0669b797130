/** The physical frame allocator. */
module Buddy {
  import opened Collections
  import opened Common
  import opened Chains
  import opened Dyadic
  import opened Bits
  import opened Arith

  const PAGE: nat := 4096
  const PAGE_LOG2: nat := 12
  const HEAP_ALIGN: nat := 0x20_0000
  const LISTS: nat := 27
  /** The largest region whose root block has a list of its own: 2^39 bytes. */
  const MAX_REGION: nat := 0x80_0000_0000

  datatype Layout = Layout(size: nat, align: nat)

  datatype Frame = Frame(base: nat, size: nat)

  ghost predicate ValidLayout(layout: Layout) {
    exists k: nat :: layout.align == Pow2(k)
  }

  /** Block size for a request: a power of two, at least a page, no larger than the region. */
  function AllocationSize(regionSize: nat, layout: Layout): Option<nat> {
    if layout.align > HEAP_ALIGN then
      None
    else
      var size := NextPow2(Max(Max(layout.size, layout.align), PAGE));
      if size <= regionSize then Some(size) else None
  }

  function LayoutToOrder(regionSize: nat, layout: Layout): Option<int> {
    match AllocationSize(regionSize, layout)
    case None => None
    case Some(size) => Some(Log2(size) - PAGE_LOG2)
  }

  function OrderToSize(order: nat): nat {
    Pow2(PAGE_LOG2 + order)
  }

  /** Address of the block `order` could merge with, found by flipping a bit of the offset. */
  function BuddyOf(base: nat, regionSize: nat, order: nat, block: nat): Option<nat>
    requires block >= base
  {
    if OrderToSize(order) >= regionSize then None else Some(base + Xor(block - base, OrderToSize(order)))
  }

  function Addr(base: nat, b: Block): nat {
    base + PAGE * Start(b)
  }

  ghost predicate Listed(base: nat, s: set<Block>, order: nat, addr: nat) {
    exists b :: b in s && b.order == order && Addr(base, b) == addr
  }

  lemma OrderSize(order: nat)
    ensures OrderToSize(order) == PAGE * Pow2(order)
  {
    Pow2Add(PAGE_LOG2, order);
    assert Pow2(12) == 4096;
  }

  /** Within one order, a block is determined by its address. */
  lemma AddrInjective(base: nat, b: Block, c: Block)
    requires b.order == c.order && Addr(base, b) == Addr(base, c)
    ensures b == c
  {
  }

  /** The bit flip finds the buddy block. */
  lemma BuddyOfIsBuddy(base: nat, regionSize: nat, b: Block)
    ensures OrderToSize(b.order) < regionSize ==>
              BuddyOf(base, regionSize, b.order, Addr(base, b)) == Some(Addr(base, Buddy(b)))
    ensures Min(Addr(base, b), Addr(base, Buddy(b))) == Addr(base, Parent(b))
  {
    OffsetInBytes(b);
    OffsetInBytes(Buddy(b));
    XorOne(b.index, Buddy(b).index);
    XorFlipsIndex(b.index, Buddy(b).index, PAGE_LOG2 + b.order);
    BuddyIsOtherHalf(b);
    Halves(Parent(b));
  }

  lemma OffsetInBytes(b: Block)
    ensures PAGE * Start(b) == b.index * OrderToSize(b.order)
  {
    OrderSize(b.order);
    var u := Pow2(b.order);
    assert PAGE * (b.index * u) == b.index * (PAGE * u);
  }

  /** A block of `n` bytes holds the request, with its alignment, in whole pages. */
  ghost predicate Suffices(layout: Layout, n: nat) {
    n >= layout.size && n >= layout.align && n >= PAGE
  }

  /** `n` is the least power of two that suffices. */
  ghost predicate LeastSize(layout: Layout, n: nat) {
    && Suffices(layout, n) && (exists k: nat :: n == Pow2(k))
    && forall k: nat :: Suffices(layout, Pow2(k)) ==> n <= Pow2(k)
  }

  lemma {:induction false} LeastUnique(layout: Layout, m: nat, n: nat)
    requires LeastSize(layout, m) && LeastSize(layout, n)
    ensures m == n
  {
    var i, j :| m == Pow2(i) && n == Pow2(j);
  }

  /** The size an acceptable request is rounded to is the least that suffices. */
  lemma {:induction false} RoundedIsLeast(layout: Layout)
    ensures LeastSize(layout, NextPow2(Max(Max(layout.size, layout.align), PAGE)))
  {
    var n := Max(Max(layout.size, layout.align), PAGE);
    NextPow2IsLeast(n);
    assert forall m :: Suffices(layout, m) <==> m >= n;
  }

  /** ... and a power-of-two number of pages. */
  lemma {:induction false} RoundedSize(layout: Layout)
    ensures var size := NextPow2(Max(Max(layout.size, layout.align), PAGE));
            Log2(size) >= PAGE_LOG2 && size == PAGE * Pow2(Log2(size) - PAGE_LOG2)
  {
    var n := Max(Max(layout.size, layout.align), PAGE);
    NextPow2IsLeast(n);
    var k := Log2(NextPow2(n));
    assert Pow2(12) == 4096;
    if k < 12 {
      Pow2Monotone(k, 11);
      assert false;
    }
    OrderSize(k - 12);
  }

  /** Natural alignment of the block, on a 2 MiB aligned base, gives every smaller alignment. */
  lemma {:induction false} AddrAligned(base: nat, b: Block, align: nat, k: nat)
    requires base % HEAP_ALIGN == 0 && align == Pow2(k) <= HEAP_ALIGN && align <= PAGE * Pow2(b.order)
    ensures Addr(base, b) % align == 0
  {
    Pow2Add(12, 9);
    assert Pow2(12) == 4096 && Pow2(9) == 512;
    OrderSize(b.order);
    Pow2Strict(k, 21);
    Pow2Strict(k, PAGE_LOG2 + b.order);
    OffsetInBytes(b);
    var u := MultipleOfPow2(base / HEAP_ALIGN, 21, k);
    var v := MultipleOfPow2(b.index, PAGE_LOG2 + b.order, k);
    SumOfMultiples(base, PAGE * Start(b), u, v, align);
  }

  lemma SumOfMultiples(x: nat, y: nat, u: nat, v: nat, m: nat)
    requires m > 0 && x == u * m && y == v * m
    ensures (x + y) % m == 0
  {
    assert (u + v) * m == u * m + v * m;
    MultipleMod(u + v, m);
  }

  lemma MultipleOfPow2(x: nat, a: nat, k: nat) returns (q: nat)
    requires k <= a
    ensures x * Pow2(a) == q * Pow2(k)
  {
    Pow2Add(a - k, k);
    q := x * Pow2(a - k);
    var s, t := Pow2(a - k), Pow2(k);
    assert x * (s * t) == (x * s) * t;
  }

  lemma Pow2Strict(a: nat, b: nat)
    requires Pow2(a) <= Pow2(b)
    ensures a <= b
  {
    if b + 1 <= a {
      Pow2Monotone(b + 1, a);
      assert false;
    }
  }

  /** Blocks of a tiling have different addresses, whatever their orders. */
  lemma AddrDistinct(base: nat, s: set<Block>, root: nat, b: Block, c: Block)
    requires Tiles(s, root) && b in s && c in s && Addr(base, b) == Addr(base, c)
    ensures b == c
  {
    StartCovered(b);
    StartCovered(c);
  }

  /** List `o` holds the addresses of the blocks of order `o` in `s`, and nothing else. */
  ghost predicate Matches(base: nat, lists: seq<seq<nat>>, s: set<Block>) {
    && |lists| == LISTS
    && (forall o, a :: 0 <= o < LISTS ==> (a in lists[o] <==> Listed(base, s, o, a)))
  }

  lemma MatchesAdd(base: nat, lists: seq<seq<nat>>, s: set<Block>, b: Block)
    requires Matches(base, lists, s) && b.order < LISTS
    ensures Matches(base, lists[b.order := [Addr(base, b)] + lists[b.order]], s + {b})
  {
  }

  lemma MatchesDrop(base: nat, lists: seq<seq<nat>>, s: set<Block>, b: Block, k: nat)
    requires Matches(base, lists, s) && b.order < LISTS && k < |lists[b.order]|
    requires Distinct(lists[b.order]) && lists[b.order][k] == Addr(base, b)
    ensures b in s
    ensures Matches(base, lists[b.order := lists[b.order][..k] + lists[b.order][k + 1..]], s - {b})
  {
    var nodes := lists[b.order];
    var lists' := lists[b.order := nodes[..k] + nodes[k + 1..]];
    assert nodes[k] in nodes;
    var d :| d in s && d.order == b.order && Addr(base, d) == nodes[k];
    AddrInjective(base, d, b);
    forall o, a | 0 <= o < LISTS
      ensures a in lists'[o] <==> Listed(base, s - {b}, o, a)
    {
      assert o == b.order ==> (a in lists'[o] <==> a in nodes && a != nodes[k]);
      if Listed(base, s, o, a) {
        var c :| c in s && c.order == o && Addr(base, c) == a;
        assert c != b ==> c in s - {b};
      }
      if Listed(base, s - {b}, o, a) {
        var c :| c in s - {b} && c.order == o && Addr(base, c) == a;
        if o == b.order && a == Addr(base, b) {
          AddrInjective(base, c, b);
          assert false;
        }
        assert Listed(base, s, o, a);
      }
    }
  }

  lemma {:induction false} OnlyLeast(layout: Layout, n: nat)
    requires LeastSize(layout, n)
    ensures NextPow2(Max(Max(layout.size, layout.align), PAGE)) == n
  {
    RoundedIsLeast(layout);
    LeastUnique(layout, n, NextPow2(Max(Max(layout.size, layout.align), PAGE)));
  }

  /** The order of a request is that of the least size, if the region holds it. */
  lemma {:induction false} LayoutOrder(regionSize: nat, layout: Layout, order: nat, bytes: nat, k: nat)
    requires bytes == PAGE * Pow2(order) <= regionSize && k == PAGE_LOG2 + order
    requires LeastSize(layout, bytes) && layout.align <= HEAP_ALIGN
    ensures LayoutToOrder(regionSize, layout) == Some(order)
  {
    OnlyLeast(layout, bytes);
    OrderSize(order);
    Log2Pow2(k);
  }

  /** Some naturally aligned run of `bytes` inside the root block is entirely free. */
  ghost predicate HasFreeRun(free: set<Block>, root: nat, bytes: nat) {
    exists q :: InRoot(q, root) && PAGE * Pow2(q.order) == bytes && FullyIn(q, free)
  }

  /** The root block is the largest power of two below the region size, or the region itself
      when that is a single page. */
  lemma RootOrder(regionSize: nat) returns (order: nat)
    requires regionSize >= PAGE
    ensures LayoutToOrder(regionSize, Layout(NextPow2(regionSize) / 2, 1)) == Some(order)
    ensures PAGE * Pow2(order) <= regionSize <= 2 * (PAGE * Pow2(order))
    ensures if regionSize > PAGE then PAGE * Pow2(order) < regionSize else order == 0
  {
    var k := RegionPower(regionSize);
    if k == 12 {
      order := 0;
      PowerLayout(Layout(Pow2(11), 1), 12);
    } else {
      order := k - 13;
      OrderSize(order);
      PowerLayout(Layout(Pow2(k - 1), 1), k - 1);
    }
  }

  lemma {:induction false} RootOrderBound(regionSize: nat, order: nat)
    requires PAGE * Pow2(order) < regionSize <= MAX_REGION || order == 0
    ensures order < LISTS
  {
    Pow2Add(12, 15);
    assert Pow2(12) == 4096 && Pow2(15) == 32768;
    if LISTS <= order {
      Pow2Monotone(LISTS, order);
      assert false;
    }
  }

  lemma RegionPower(regionSize: nat) returns (k: nat)
    requires regionSize >= PAGE
    ensures k >= 12 && NextPow2(regionSize) == Pow2(k) >= regionSize
    ensures k == 12 ==> regionSize == PAGE && Pow2(11) < PAGE == Pow2(12)
    ensures k > 12 ==> PAGE <= Pow2(k - 1) < regionSize
  {
    NextPow2IsLeast(regionSize);
    k := Log2(NextPow2(regionSize));
    assert Pow2(12) == 4096;
    Pow2Strict(12, k);
    if k > 12 { Pow2Monotone(12, k - 1); }
  }

  lemma PowerLayout(layout: Layout, k: nat)
    requires layout.align == 1 && k >= 12 && Max(Max(layout.size, layout.align), PAGE) == Pow2(k)
    ensures AllocationSize(Pow2(k), layout) == Some(Pow2(k))
    ensures forall n: nat :: n >= Pow2(k) ==> LayoutToOrder(n, layout) == Some(k - 12)
  {
    NextPow2Pow2(k);
    Log2Pow2(k);
  }

  lemma RootTiles(root: nat)
    ensures Tiles({Block(root, 0)}, root)
  {
  }

  /** A page of the root block is free exactly when it is in no outstanding frame. */
  lemma FreePagesAreTheRest(free: set<Block>, used: set<Block>, root: nat, p: nat)
    requires Tiles(free + used, root) && free !! used
    ensures Holds(free, p) <==> p < Pow2(root) && !Holds(used, p)
  {
    if p < Pow2(root) {
      assert Holds(free + used, p);
      var b :| b in free + used && Covers(b, p);
    }
  }

  /** Outstanding frames, in bytes: inside the root block and pairwise disjoint. */
  lemma FramesDisjoint(base: nat, free: set<Block>, used: set<Block>, root: nat, b: Block, c: Block)
    requires Tiles(free + used, root) && b in used && c in used
    ensures base <= Addr(base, b) && Addr(base, b) + OrderToSize(b.order) <= base + OrderToSize(root)
    ensures b != c ==> Addr(base, b) + OrderToSize(b.order) <= Addr(base, c)
                       || Addr(base, c) + OrderToSize(c.order) <= Addr(base, b)
  {
    assert InRoot(b, root);
    if b != c { Apart(free + used, root, b, c); }
    OrderSize(root);
    OrderSize(b.order);
    OrderSize(c.order);
  }

  /** The offset of a block is a multiple of its size. */
  lemma NaturallyAligned(base: nat, b: Block)
    ensures (Addr(base, b) - base) % OrderToSize(b.order) == 0
  {
    OffsetInBytes(b);
    MultipleMod(b.index, OrderToSize(b.order));
  }

  lemma Apart(s: set<Block>, root: nat, b: Block, c: Block)
    requires Tiles(s, root) && b in s && c in s && b != c
    ensures Start(b) + Pow2(b.order) <= Start(c) || Start(c) + Pow2(c.order) <= Start(b)
  {
    StartCovered(b);
    StartCovered(c);
    assert !Covers(c, Start(b)) && !Covers(b, Start(c));
  }

  /** A block cut from the free block `whole` satisfies the request. */
  lemma Granted(base: nat, free: set<Block>, root: nat, whole: Block, b: Block, layout: Layout, bytes: nat)
    requires ValidLayout(layout) && base % HEAP_ALIGN == 0 && layout.align <= HEAP_ALIGN
    requires InRoot(b, root) && PAGE * Pow2(b.order) == bytes && LeastSize(layout, bytes)
    requires whole in free && forall p: nat :: Covers(b, p) ==> Covers(whole, p)
    ensures FullyIn(b, free) && HasFreeRun(free, root, bytes)
    ensures Addr(base, b) % layout.align == 0
  {
    forall p: nat | Covers(b, p) ensures Holds(free, p) {
      assert Covers(whole, p);
    }
    var k: nat :| layout.align == Pow2(k);
    AddrAligned(base, b, layout.align, k);
  }

  /** When every free block is too small there is no free run of the wanted size. */
  lemma NoFreeRun(free: set<Block>, root: nat, order: nat)
    requires Coalesced(free) && forall c :: c in free ==> c.order < order
    ensures !HasFreeRun(free, root, PAGE * Pow2(order))
  {
    forall q | InRoot(q, root) && PAGE * Pow2(q.order) == PAGE * Pow2(order) && FullyIn(q, free) ensures false {
      var c := FreeRunInOneBlock(free, q);
      Pow2Strict(order, q.order);
    }
  }

  lemma MatchesEmpty(base: nat, lists: seq<seq<nat>>)
    requires |lists| == LISTS && forall o :: 0 <= o < LISTS ==> lists[o] == []
    ensures Matches(base, lists, {})
  {
  }

  lemma Singleton(s: seq<nat>, x: nat)
    requires Distinct(s) && x in s && forall a :: a in s ==> a == x
    ensures s == [x]
  {
    assert s[0] in s && s[|s| - 1] in s;
  }

  class BuddyFrameAllocator {
    var base: nat
    var size: nat
    var freeLists: array<nat>
    /** The first word of each block: the `next` pointer while the block is free. */
    var memory: map<nat, nat>

    ghost var root: nat
    ghost var lists: seq<seq<nat>>
    ghost var free: set<Block>
    ghost var used: set<Block>

    /** Each free list is a null-terminated chain through memory holding the addresses of the
        free blocks of its order, and nothing else. */
    ghost predicate Threaded()
      reads this, freeLists
    {
      && freeLists.Length == LISTS
      && Matches(base, lists, free)
      && (forall o :: 0 <= o < LISTS ==> Chain(memory, freeLists[o], lists[o]))
    }

    /** The allocator between two steps, with the blocks `hand` on neither side. */
    ghost predicate Inv(hand: set<Block>)
      reads this, freeLists
    {
      && base > 0 && base % HEAP_ALIGN == 0
      && root < LISTS && PAGE * Pow2(root) <= size
      && Tiles(free + used + hand, root)
      && free !! used && free !! hand && used !! hand
      && Coalesced(free)
      && Threaded()
    }

    ghost predicate Empty()
      reads this, freeLists
    {
      && base == 0 && size == 0 && free == {} && used == {}
      && freeLists.Length == |lists| == LISTS
      && (forall o :: 0 <= o < LISTS ==> freeLists[o] == 0 && lists[o] == [])
    }

    ghost predicate Valid()
      reads this, freeLists
    {
      Empty() || Inv({})
    }

    constructor ()
      ensures Valid() && Empty() && fresh(freeLists)
    {
      base, size, memory := 0, 0, map[];
      freeLists := new nat[LISTS](_ => 0);
      free, used, root := {}, {}, 0;
      lists := seq(LISTS, _ => []);
    }

    /** Put a block at the front of its list. */
    method FreeListInsert(order: nat, ptr: nat, ghost b: Block, ghost hand: set<Block>)
      requires Inv(hand) && b in hand && b.order == order && ptr == Addr(base, b)
      requires Buddy(b) !in free
      modifies this, freeLists
      ensures Inv(hand - {b})
      ensures free == old(free) + {b} && used == old(used)
      ensures base == old(base) && size == old(size) && root == old(root) && freeLists == old(freeLists)
      ensures memory.Keys == old(memory.Keys) + {ptr}
      ensures forall a :: a in old(memory) && a != ptr ==> memory[a] == old(memory[a])
    {
      assert InRoot(b, root);
      ghost var all := free + used + hand;
      assert forall o :: 0 <= o < LISTS ==> ptr !in lists[o] by {
        forall o | 0 <= o < LISTS && ptr in lists[o] ensures false {
          var c :| c in free && c.order == o && Addr(base, c) == ptr;
          AddrDistinct(base, all, root, b, c);
        }
      }
      ghost var before := memory;
      memory := memory[ptr := freeLists[order]];
      freeLists[order] := ptr;
      ghost var grown := [ptr] + lists[order];
      forall o | 0 <= o < LISTS ensures Chain(memory, old(freeLists[o]), lists[o]) {
        Unaffected(before, memory, old(freeLists[o]), lists[o]);
      }
      assert grown[1..] == lists[order];
      MatchesAdd(base, lists, free, b);
      lists := lists[order := grown];
      free := free + {b};
      assert free + used + (hand - {b}) == all;
      BuddyIsOtherHalf(b);
      assert Coalesced(free) by {
        forall c | c in free ensures Buddy(c) !in free {
          BuddyIsOtherHalf(c);
        }
      }
    }

    /** A node address is on one list only. */
    lemma OnOneList(hand: set<Block>, o: nat, p: nat, a: nat)
      requires Inv(hand) && o < LISTS && p < LISTS && a in lists[o] && a in lists[p]
      ensures o == p
    {
      var b :| b in free && b.order == o && Addr(base, b) == a;
      var c :| c in free && c.order == p && Addr(base, c) == a;
      AddrDistinct(base, free + used + hand, root, b, c);
    }

    /** Take the first block off a list. */
    method FreeListPop(order: nat) returns (r: Option<nat>, ghost b: Block)
      requires Inv({}) && order < LISTS
      modifies this, freeLists
      ensures r.None? ==> Inv({}) && free == old(free) && (forall c :: c in free ==> c.order != order)
      ensures r.Some? ==> Inv({b}) && b in old(free) && b.order == order && r.value == Addr(base, b)
                          && free == old(free) - {b}
      ensures used == old(used) && memory == old(memory)
      ensures base == old(base) && size == old(size) && root == old(root) && freeLists == old(freeLists)
    {
      var candidate := freeLists[order];
      b := Block(order, 0);
      if candidate != 0 {
        ghost var nodes := lists[order];
        Acyclic(memory, candidate, nodes);
        assert candidate in nodes;
        b :| b in free && b.order == order && Addr(base, b) == candidate;
        MatchesDrop(base, lists, free, b, 0);
        freeLists[order] := memory[candidate];
        assert nodes[..0] + nodes[1..] == nodes[1..];
        lists, free := lists[order := nodes[1..]], free - {b};
        assert free + used + {b} == old(free + used + {});
        r := Some(candidate);
      } else {
        r := None;
        forall c | c in free ensures c.order != order {
          assert c.order == order ==> Listed(base, free, order, Addr(base, c));
        }
      }
    }

    /** Follow the links of a list to the word that points at `ptr`: the head of the list when
        `prev` is null, otherwise the `next` word of `prev`. */
    method Locate(order: nat, ptr: nat) returns (found: bool, prev: nat, ghost k: nat)
      requires Threaded() && order < LISTS
      ensures found <==> ptr in lists[order]
      ensures found ==> k < |lists[order]| && lists[order][k] == ptr && ptr in memory
      ensures found ==> if k == 0 then prev == 0 else prev == lists[order][k - 1] != 0 && prev in memory
    {
      var cur := freeLists[order];
      ghost var nodes := lists[order];
      prev, k := 0, 0;
      assert nodes[0..] == nodes;
      while cur != 0
        invariant k <= |nodes| && Chain(memory, cur, nodes[k..]) && ptr !in nodes[..k]
        invariant if k == 0 then prev == 0 else prev == nodes[k - 1] != 0 && prev in memory
        decreases |nodes| - k
      {
        assert cur == nodes[k..][0] == nodes[k];
        if cur == ptr {
          return true, prev, k;
        }
        assert nodes[k..][1..] == nodes[k + 1..];
        assert nodes[..k + 1] == nodes[..k] + [nodes[k]];
        prev, cur, k := cur, memory[cur], k + 1;
      }
      assert nodes[..k] == nodes;
      found := false;
    }

    /** Unlink a block from its list if it is there. */
    method FreeListRemove(order: nat, ptr: nat, ghost b: Block, ghost hand: set<Block>) returns (found: bool)
      requires Inv(hand) && order < LISTS && b.order == order && ptr == Addr(base, b)
      modifies this, freeLists
      ensures found <==> b in old(free)
      ensures found ==> Inv(hand + {b}) && free == old(free) - {b}
      ensures !found ==> Inv(hand) && free == old(free)
      ensures used == old(used) && memory.Keys == old(memory.Keys)
      ensures base == old(base) && size == old(size) && root == old(root) && freeLists == old(freeLists)
    {
      var prev;
      ghost var k;
      found, prev, k := Locate(order, ptr);
      if found {
        ghost var nodes := lists[order];
        ghost var rest := nodes[..k] + nodes[k + 1..];
        Acyclic(memory, freeLists[order], nodes);
        MatchesDrop(base, lists, free, b, k);
        assert forall o :: 0 <= o < LISTS && o != order && prev != 0 ==> prev !in lists[o] by {
          forall o | 0 <= o < LISTS && prev != 0 && prev in lists[o] ensures o == order {
            OnOneList(hand, o, order, prev);
          }
        }
        Splice(order, ptr, prev, k, rest);
        lists, free := lists[order := rest], free - {b};
        assert free + used + (hand + {b}) == old(free + used + hand);
      } else {
        assert b in free ==> Listed(base, free, order, ptr);
      }
    }

    /** The write that unlinks node `k`, and what every list looks like after it. */
    method Splice(order: nat, ptr: nat, prev: nat, ghost k: nat, ghost rest: seq<nat>)
      requires Threaded() && order < LISTS && Distinct(lists[order])
      requires k < |lists[order]| && lists[order][k] == ptr && ptr in memory
      requires if k == 0 then prev == 0 else prev == lists[order][k - 1] != 0 && prev in memory
      requires forall o :: 0 <= o < LISTS && o != order && prev != 0 ==> prev !in lists[o]
      requires rest == lists[order][..k] + lists[order][k + 1..]
      modifies this`memory, freeLists
      ensures memory.Keys == old(memory.Keys)
      ensures Chain(memory, freeLists[order], rest)
      ensures forall o :: 0 <= o < LISTS && o != order ==> Chain(memory, freeLists[o], lists[o])
    {
      ghost var before, heads := memory, freeLists[..];
      if prev == 0 {
        assert rest == lists[order][1..];
        freeLists[order] := memory[ptr];
      } else {
        Unlink(memory, freeLists[order], lists[order], k);
        memory := memory[prev := memory[ptr]];
      }
      forall o | 0 <= o < LISTS && o != order ensures Chain(memory, freeLists[o], lists[o]) {
        assert freeLists[o] == heads[o];
        Unaffected(before, memory, freeLists[o], lists[o]);
      }
    }

    /** Free the upper half of the block in hand, leaving the lower half. */
    method FreeUpperHalf(block: nat, sizeToSplit: nat, order: nat, ghost r: Block) returns (ghost lo: Block)
      requires Inv({r}) && r.order == order + 1 && block == Addr(base, r) && sizeToSplit == OrderToSize(order)
      modifies this, freeLists
      ensures lo == Lower(r) && Inv({lo}) && Addr(base, lo) == block
      ensures used == old(used) && free == old(free) + {Upper(r)}
      ensures base == old(base) && size == old(size) && root == old(root) && freeLists == old(freeLists)
    {
      ghost var hi := Upper(r);
      lo := Lower(r);
      Halves(r);
      Split(free + used + {r}, r, root);
      assert free + used + {r} - {r} + {lo, hi} == free + used + {lo, hi};
      OrderSize(order);
      FreeListInsert(order, block + sizeToSplit, hi, {lo, hi});
      assert {lo, hi} - {hi} == {lo};
    }

    /** Cut a block in hand down to `orderNeeded`, freeing the upper half at every step. */
    method SplitFreeBlock(block: nat, order: nat, orderNeeded: nat, ghost b: Block) returns (ghost r: Block)
      requires Inv({b}) && b.order == order >= orderNeeded && block == Addr(base, b)
      modifies this, freeLists
      ensures Inv({r}) && r.order == orderNeeded && Addr(base, r) == block
      ensures forall p: nat :: Covers(r, p) ==> Covers(b, p)
      ensures used == old(used) && old(free) <= free
      ensures base == old(base) && size == old(size) && root == old(root) && freeLists == old(freeLists)
    {
      var order := order;
      var sizeToSplit := OrderToSize(order);
      r := b;
      while order > orderNeeded
        invariant orderNeeded <= order == r.order && sizeToSplit == OrderToSize(order)
        invariant Inv({r}) && Addr(base, r) == block
        invariant forall p: nat :: Covers(r, p) ==> Covers(b, p)
        invariant used == old(used) && old(free) <= free
        invariant base == old(base) && size == old(size) && root == old(root) && freeLists == old(freeLists)
      {
        sizeToSplit := sizeToSplit / 2;
        order := order - 1;
        Halves(r);
        r := FreeUpperHalf(block, sizeToSplit, order, r);
      }
    }

    /** Put the whole root block on its list. */
    method Adopt(at: nat, order: nat)
      requires base == 0 && free == {} && used == {} && freeLists.Length == |lists| == LISTS
      requires forall o :: 0 <= o < LISTS ==> freeLists[o] == 0 && lists[o] == []
      requires at > 0 && at % HEAP_ALIGN == 0 && order < LISTS && PAGE * Pow2(order) <= size
      modifies this, freeLists
      ensures Inv({}) && root == order && base == at && free == {Block(root, 0)} && used == {}
      ensures size == old(size) && freeLists == old(freeLists)
    {
      base := at;
      root := order;
      ghost var b := Block(order, 0);
      RootTiles(root);
      MatchesEmpty(base, lists);
      assert free + used + {b} == {b};
      assert Buddy(b) !in free;
      FreeListInsert(order, base, b, {b});
      assert {b} - {b} == {};
    }

    /** Adopt the root block of a region; only the first region is accepted. */
    method AddMemory(region: Frame) returns (added: bool)
      requires Valid()
      requires region.base > 0 && region.base % HEAP_ALIGN == 0
      requires PAGE <= region.size <= MAX_REGION
      modifies this, freeLists
      ensures added <==> old(base) == 0
      ensures !added ==> Inv({}) && free == old(free) && used == old(used) && memory == old(memory)
                         && base == old(base) && size == old(size) && root == old(root)
      ensures added ==> Inv({}) && free == {Block(root, 0)} && used == {}
                        && base == region.base && size == region.size
                        && PAGE * Pow2(root) <= size <= 2 * (PAGE * Pow2(root))
                        && (size > PAGE ==> PAGE * Pow2(root) < size)
      ensures freeLists == old(freeLists)
    {
      if base == 0 {
        var s := NextPow2(region.size) / 2;
        size := region.size;
        ghost var o := RootOrder(region.size);
        RootOrderBound(region.size, o);
        var order := LayoutToOrder(size, Layout(s, 1)).value;
        Adopt(region.base, order);
        return true;
      } else {
        return false;
      }
    }

    /** Serve a request of order `orderNeeded` from the list of order `order`. */
    method TakeFrom(order: nat, orderNeeded: nat) returns (r: Option<nat>, ghost whole: Block, ghost b: Block)
      requires Inv({}) && orderNeeded <= order < LISTS
      modifies this, freeLists
      ensures Inv({})
      ensures r.None? ==> free == old(free) && used == old(used) && memory == old(memory)
                          && (forall c :: c in free ==> c.order != order)
      ensures r.Some? ==> r.value == Addr(base, b) && b.order == orderNeeded && InRoot(b, root)
                          && b !in old(used) && used == old(used) + {b}
                          && whole in old(free) && (forall p: nat :: Covers(b, p) ==> Covers(whole, p))
      ensures base == old(base) && size == old(size) && root == old(root) && freeLists == old(freeLists)
    {
      r, whole := FreeListPop(order);
      b := whole;
      if r.Some? {
        if order > orderNeeded {
          b := SplitFreeBlock(r.value, order, orderNeeded, whole);
        }
        used := used + {b};
        assert free + used + {} == free + (used - {b}) + {b};
      }
    }

    /** Hand out a block for `layout`, of `bytes`, the least power of two that suffices: it succeeds exactly
        when the root block still holds a free, naturally aligned run of that size. */
    method Allocate(layout: Layout) returns (r: Option<Frame>, ghost b: Block, ghost bytes: nat)
      requires Valid() && ValidLayout(layout)
      modifies this, freeLists
      ensures Valid()
      ensures LeastSize(layout, bytes)
      ensures r.Some? <==> layout.align <= HEAP_ALIGN && HasFreeRun(old(free), old(root), bytes)
      ensures r.None? ==> free == old(free) && used == old(used) && memory == old(memory)
      ensures r.Some? ==>
                && b !in old(used) && used == old(used) + {b} && FullyIn(b, old(free))
                && r.value == Frame(Addr(base, b), PAGE * Pow2(b.order))
                && r.value.size == bytes
                && r.value.base % layout.align == 0
      ensures base == old(base) && size == old(size) && root == old(root) && freeLists == old(freeLists)
    {
      RoundedSize(layout);
      RoundedIsLeast(layout);
      b, bytes := Block(0, 0), NextPow2(Max(Max(layout.size, layout.align), PAGE));
      match LayoutToOrder(size, layout)
      case None =>
        r := None;
        if layout.align <= HEAP_ALIGN { TooBig(bytes); }
      case Some(orderNeeded) =>
        OrderSize(orderNeeded);
        for order := orderNeeded to Max(orderNeeded, LISTS)
          invariant Inv({})
          invariant free == old(free) && used == old(used) && memory == old(memory)
          invariant base == old(base) && size == old(size) && root == old(root) && freeLists == old(freeLists)
          invariant forall c :: c in free ==> !(orderNeeded <= c.order < order)
        {
          ghost var whole;
          var block;
          block, whole, b := TakeFrom(order, orderNeeded);
          if block.Some? {
            Granted(base, old(free), root, whole, b, layout, bytes);
            return Some(Frame(block.value, OrderToSize(orderNeeded))), b, bytes;
          }
        }
        r := None;
        assert forall c :: c in free ==> InRoot(c, root);
        NoFreeRun(free, root, orderNeeded);
    }

    lemma TooBig(bytes: nat)
      requires Valid() && size < bytes
      ensures !HasFreeRun(free, root, bytes)
    {
      forall q | InRoot(q, root) && PAGE * Pow2(q.order) == bytes && FullyIn(q, free) ensures false {
        StartCovered(q);
        Pow2Monotone(q.order, root);
      }
    }

    lemma OrderOfUsed(layout: Layout, b: Block)
      requires Valid() && b in used && LeastSize(layout, PAGE * Pow2(b.order)) && layout.align <= HEAP_ALIGN
      ensures LayoutToOrder(size, layout) == Some(b.order)
    {
      assert InRoot(b, root);
      Pow2Monotone(b.order, root);
      LayoutOrder(size, layout, b.order, PAGE * Pow2(b.order), PAGE_LOG2 + b.order);
    }

    /** Put a block that is on neither side on a list, merging it with its buddy as long as that is free. */
    method Merge(first: nat, addr: nat, ghost b: Block)
      requires Inv({b}) && b.order == first && Addr(base, b) == addr
      modifies this, freeLists
      ensures Inv({}) && used == old(used)
      ensures base == old(base) && size == old(size) && root == old(root) && freeLists == old(freeLists)
    {
      ghost var h := b;
      var order, block := first, addr;
      assert InRoot(h, root);
      while order < LISTS
        invariant h.order == order <= root && Addr(base, h) == block && Inv({h})
        invariant used == old(used)
        invariant base == old(base) && size == old(size) && root == old(root) && freeLists == old(freeLists)
        decreases LISTS - order
      {
        BuddyOfIsBuddy(base, size, h);
        var buddy := BuddyOf(base, size, order, block);
        if buddy.Some? {
          var removed := FreeListRemove(order, buddy.value, Buddy(h), {h});
          if removed {
            Join(free + used + ({h} + {Buddy(h)}), h, root);
            assert free + used + ({h} + {Buddy(h)}) - {h, Buddy(h)} + {Parent(h)} == free + used + {Parent(h)};
            block := Min(block, buddy.value);
            h := Parent(h);
            order := order + 1;
            continue;
          }
        } else {
          NoBuddyAtRoot(h);
        }
        FreeListInsert(order, block, h, {h});
        assert {h} - {h} == {};
        return;
      }
      assert false;
    }

    /** Take back an outstanding frame, merging it with its buddy as long as that is free.
        The block always ends up on a list. */
    method Deallocate(frame: Frame, layout: Layout) returns (ghost b: Block)
      requires Valid()
      requires layout.align <= HEAP_ALIGN
      requires exists c :: c in used && Addr(base, c) == frame.base && LeastSize(layout, PAGE * Pow2(c.order))
      modifies this, freeLists
      ensures Inv({})
      ensures b in old(used) && used == old(used) - {b}
      ensures Addr(base, b) == frame.base && LeastSize(layout, PAGE * Pow2(b.order))
      ensures used == {} ==> free == {Block(root, 0)}
      ensures base == old(base) && size == old(size) && root == old(root) && freeLists == old(freeLists)
    {
      b :| b in used && Addr(base, b) == frame.base && LeastSize(layout, PAGE * Pow2(b.order));
      OrderOfUsed(layout, b);
      var order: nat := LayoutToOrder(size, layout).value;
      used := used - {b};
      assert free + used + {b} == old(free + used + {});
      Merge(order, frame.base, b);
      if used == {} {
        assert free + used + {} == free;
        AllFree(free, root);
      }
    }

    lemma NoBuddyAtRoot(h: Block)
      requires Inv({h}) && OrderToSize(h.order) >= size
      ensures Buddy(h) !in free
    {
      OrderSize(h.order);
      Pow2Strict(root, h.order);
      assert InRoot(h, root);
      if Buddy(h) in free {
        Join(free + used + {h}, h, root);
        assert false;
      }
    }

    /** The holder of a frame may write anything into it: no list is threaded through it. */
    method ClientWrite(addr: nat, word: nat, ghost b: Block)
      requires Inv({}) && b in used
      requires Addr(base, b) <= addr < Addr(base, b) + PAGE * Pow2(b.order)
      modifies this`memory
      ensures Inv({}) && memory == old(memory)[addr := word]
    {
      assert forall o :: 0 <= o < LISTS ==> addr !in lists[o] by {
        forall o | 0 <= o < LISTS && addr in lists[o] ensures false {
          var c :| c in free && c.order == o && Addr(base, c) == addr;
          StartCovered(c);
          assert Covers(b, Start(c));
        }
      }
      ghost var before := memory;
      memory := memory[addr := word];
      forall o | 0 <= o < LISTS ensures Chain(memory, freeLists[o], lists[o]) {
        Unaffected(before, memory, freeLists[o], lists[o]);
      }
    }

    /** Once every frame is back, the lists hold the single root block, as after `AddMemory`. */
    lemma BackToRoot()
      requires Inv({}) && used == {}
      ensures free == {Block(root, 0)}
      ensures freeLists[root] == base && base in memory && memory[base] == 0
      ensures forall o :: 0 <= o < LISTS && o != root ==> freeLists[o] == 0
    {
      assert free + used + {} == free;
      AllFree(free, root);
      forall o | 0 <= o < LISTS && lists[o] != [] ensures o == root {
        assert lists[o][0] in lists[o];
        var c :| c in free && c.order == o && Addr(base, c) == lists[o][0];
      }
      assert Listed(base, free, root, base) by { assert Block(root, 0) in free; }
      forall a | a in lists[root] ensures a == base {
        var c :| c in free && c.order == root && Addr(base, c) == a;
      }
      Acyclic(memory, freeLists[root], lists[root]);
      Singleton(lists[root], base);
      assert Chain(memory, memory[base], lists[root][1..]);
    }
  }
}
