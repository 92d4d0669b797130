/** The block pointers of a disk image: which slot refers to which block, and what a file contains. */
module Image {
  import opened Common
  import opened Inode

  const FSSIZE: nat := 15000
  const INODE_START: nat := 32
  /** First block after the boot block, super block, log, inodes and bitmap. */
  const FIRST_DATA: nat := 37

  /** The places where a block number can be stored: a direct slot or the table slot of an inode, an
      entry of its first-level table, or an entry of one of its second-level tables. */
  datatype Slot =
    | Direct(inum: nat, k: nat)
    | Table(inum: nat)
    | Second(inum: nat, i: nat)
    | Leaf(inum: nat, i: nat, j: nat)

  /** The image, the inodes, for every allocated block the slot that refers to it, and the first
      block not allocated yet. */
  datatype Fs = Fs(disk: seq<Block>, inodes: map<nat, DINode>, owner: map<nat, Slot>, free: nat)

  ghost function BlockAt(disk: seq<Block>, b: nat): Block {
    if b < |disk| then disk[b] else Zeroes()
  }

  ghost function Addr(inodes: map<nat, DINode>, n: nat, k: nat): nat {
    if n in inodes && k < |inodes[n].addresses| then inodes[n].addresses[k] else 0
  }

  ghost function EntryAt(disk: seq<Block>, p: nat, i: nat): nat {
    if p == 0 || i >= NINDIRECT then 0 else Entry(BlockAt(disk, p), i)
  }

  ghost function SecondPtr(disk: seq<Block>, inodes: map<nat, DINode>, n: nat, i: nat): nat {
    EntryAt(disk, Addr(inodes, n, NDIRECT), i)
  }

  /** The block a slot refers to, 0 for none. */
  ghost function Ptr(disk: seq<Block>, inodes: map<nat, DINode>, s: Slot): nat {
    match s
    case Direct(n, k) => if k < NDIRECT then Addr(inodes, n, k) else 0
    case Table(n) => Addr(inodes, n, NDIRECT)
    case Second(n, i) => SecondPtr(disk, inodes, n, i)
    case Leaf(n, i, j) => EntryAt(disk, SecondPtr(disk, inodes, n, i), j)
  }

  ghost predicate OwnedAt(fs: Fs, s: Slot) {
    var p := Ptr(fs.disk, fs.inodes, s);
    p != 0 ==> p in fs.owner && fs.owner[p] == s
  }

  ghost predicate AllocatedAt(fs: Fs, b: nat) {
    && (b in fs.owner <==> FIRST_DATA <= b < fs.free)
    && (b in fs.owner ==> Ptr(fs.disk, fs.inodes, fs.owner[b]) == b)
    && (fs.free <= b < |fs.disk| ==> fs.disk[b] == Zeroes())
  }

  /** Every allocated block is referred to by exactly one slot, every reference is to an allocated
      block, and every block not allocated yet is zero. */
  ghost predicate Tidy(fs: Fs) {
    && |fs.disk| == FSSIZE && FIRST_DATA <= fs.free <= FSSIZE
    && (forall s {:trigger OwnedAt(fs, s)} :: OwnedAt(fs, s))
    && (forall b {:trigger AllocatedAt(fs, b)} :: AllocatedAt(fs, b))
    && (forall n :: n in fs.inodes ==> ValidInode(fs.inodes[n]))
  }

  /** Giving the next free block to an empty slot. */
  lemma AllocKeeps(fs: Fs, fs': Fs, s: Slot)
    requires Tidy(fs) && fs.free < FSSIZE && Ptr(fs.disk, fs.inodes, s) == 0
    requires fs'.owner == fs.owner[fs.free := s] && fs'.free == fs.free + 1 && |fs'.disk| == FSSIZE
    requires Ptr(fs'.disk, fs'.inodes, s) == fs.free
    requires forall t {:trigger Ptr(fs'.disk, fs'.inodes, t)} :: t != s ==>
               Ptr(fs'.disk, fs'.inodes, t) == Ptr(fs.disk, fs.inodes, t)
    requires forall b {:trigger fs'.disk[b]} :: fs.free < b < FSSIZE ==> fs'.disk[b] == fs.disk[b]
    requires forall n :: n in fs'.inodes ==> ValidInode(fs'.inodes[n])
    ensures Tidy(fs')
  {
    forall t ensures OwnedAt(fs', t) {
      assert OwnedAt(fs, t);
      if t != s && Ptr(fs.disk, fs.inodes, t) != 0 { assert AllocatedAt(fs, Ptr(fs.disk, fs.inodes, t)); }
    }
    forall b ensures AllocatedAt(fs', b) {
      assert AllocatedAt(fs, b);
      assert b in fs.owner ==> fs.owner[b] != s;
    }
  }

  /** A reference is to a block in the data area below the free ones. */
  lemma PtrRange(fs: Fs, s: Slot)
    requires Tidy(fs) && Ptr(fs.disk, fs.inodes, s) != 0
    ensures FIRST_DATA <= Ptr(fs.disk, fs.inodes, s) < fs.free
    ensures Ptr(fs.disk, fs.inodes, s) in fs.owner && fs.owner[Ptr(fs.disk, fs.inodes, s)] == s
  {
    assert OwnedAt(fs, s);
    assert AllocatedAt(fs, Ptr(fs.disk, fs.inodes, s));
  }

  lemma FreeIsZero(fs: Fs, b: nat)
    requires Tidy(fs) && fs.free <= b
    ensures BlockAt(fs.disk, b) == Zeroes()
  {
    assert AllocatedAt(fs, b);
  }

  /** Writing a block changes at most the entries stored in it. */
  lemma PtrAfterWrite(fs: Fs, p: nat, blk: Block, t: Slot)
    requires Tidy(fs) && p < FSSIZE
    requires t.Second? ==> Ptr(fs.disk, fs.inodes, Table(t.inum)) != p
    requires t.Leaf? ==>
               Ptr(fs.disk, fs.inodes, Table(t.inum)) != p && Ptr(fs.disk, fs.inodes, Second(t.inum, t.i)) != p
    ensures Ptr(fs.disk[p := blk], fs.inodes, t) == Ptr(fs.disk, fs.inodes, t)
  {
  }

  /** Writing a block that holds file data changes no reference. */
  lemma DataWriteKeepsPtr(fs: Fs, s: Slot, blk: Block, t: Slot)
    requires Tidy(fs) && (s.Direct? || s.Leaf?) && Ptr(fs.disk, fs.inodes, s) != 0
    ensures Ptr(fs.disk, fs.inodes, s) < FSSIZE
    ensures Ptr(fs.disk[Ptr(fs.disk, fs.inodes, s) := blk], fs.inodes, t) == Ptr(fs.disk, fs.inodes, t)
  {
    PtrRange(fs, s);
    if t.Second? || t.Leaf? {
      assert OwnedAt(fs, Table(t.inum));
      assert OwnedAt(fs, Second(t.inum, t.i));
    }
    PtrAfterWrite(fs, Ptr(fs.disk, fs.inodes, s), blk, t);
  }

  // ---- The four ways a block is allocated ----

  ghost function WithAddress(inodes: map<nat, DINode>, n: nat, k: nat, b: u32): map<nat, DINode>
    requires n in inodes && k < |inodes[n].addresses|
  {
    inodes[n := inodes[n].(addresses := inodes[n].addresses[k := b])]
  }

  /** In a direct slot or the table slot of an inode. */
  lemma AllocInInode(fs: Fs, n: nat, k: nat) returns (fs': Fs)
    requires Tidy(fs) && fs.free < FSSIZE && n in fs.inodes && k <= NDIRECT && Addr(fs.inodes, n, k) == 0
    ensures var s := if k < NDIRECT then Direct(n, k) else Table(n);
            fs' == Fs(fs.disk, WithAddress(fs.inodes, n, k, fs.free), fs.owner[fs.free := s], fs.free + 1)
    ensures Tidy(fs') && Ptr(fs'.disk, fs'.inodes, if k < NDIRECT then Direct(n, k) else Table(n)) == fs.free
    ensures forall t {:trigger Ptr(fs'.disk, fs'.inodes, t)} ::
              t != (if k < NDIRECT then Direct(n, k) else Table(n)) ==>
              Ptr(fs'.disk, fs'.inodes, t) == Ptr(fs.disk, fs.inodes, t)
  {
    var s := if k < NDIRECT then Direct(n, k) else Table(n);
    fs' := Fs(fs.disk, WithAddress(fs.inodes, n, k, fs.free), fs.owner[fs.free := s], fs.free + 1);
    FreeIsZero(fs, fs.free);
    forall t | t != s ensures Ptr(fs'.disk, fs'.inodes, t) == Ptr(fs.disk, fs.inodes, t) {
      if k == NDIRECT && (t.Second? || t.Leaf?) && t.inum == n {
        if t.i < NINDIRECT { ZeroEntries(t.i); }
      }
    }
    AllocKeeps(fs, fs', s);
  }

  /** In entry `i` of the table block `p` that slot `parent` refers to. */
  lemma AllocInTable(fs: Fs, parent: Slot, s: Slot, i: nat) returns (fs': Fs)
    requires Tidy(fs) && fs.free < FSSIZE && i < NINDIRECT
    requires (parent.Table? && s == Second(parent.inum, i)) || (parent.Second? && s == Leaf(parent.inum, parent.i, i))
    requires Ptr(fs.disk, fs.inodes, parent) != 0 && Ptr(fs.disk, fs.inodes, s) == 0
    ensures var p := Ptr(fs.disk, fs.inodes, parent);
            p < FSSIZE &&
            fs' == Fs(fs.disk[p := SetEntry(fs.disk[p], i, fs.free)], fs.inodes, fs.owner[fs.free := s], fs.free + 1)
    ensures Tidy(fs')
    ensures Ptr(fs'.disk, fs'.inodes, s) == fs.free
    ensures forall t {:trigger Ptr(fs'.disk, fs'.inodes, t)} :: t != s ==>
              Ptr(fs'.disk, fs'.inodes, t) == Ptr(fs.disk, fs.inodes, t)
  {
    var p := Ptr(fs.disk, fs.inodes, parent);
    PtrRange(fs, parent);
    fs' := Fs(fs.disk[p := SetEntry(fs.disk[p], i, fs.free)], fs.inodes, fs.owner[fs.free := s], fs.free + 1);
    EntryOfSet(fs.disk[p], i, fs.free, i);
    assert Ptr(fs'.disk, fs'.inodes, s) == fs.free by {
      if s.Leaf? {
        assert OwnedAt(fs, Table(s.inum));
        PtrAfterWrite(fs, p, fs'.disk[p], parent);
      }
    }
    forall t | t != s ensures Ptr(fs'.disk, fs'.inodes, t) == Ptr(fs.disk, fs.inodes, t) {
      AllocInTableOther(fs, fs', parent, s, i, t);
    }
    AllocKeeps(fs, fs', s);
  }

  lemma AllocInTableOther(fs: Fs, fs': Fs, parent: Slot, s: Slot, i: nat, t: Slot)
    requires Tidy(fs) && fs.free < FSSIZE && i < NINDIRECT && t != s
    requires (parent.Table? && s == Second(parent.inum, i)) || (parent.Second? && s == Leaf(parent.inum, parent.i, i))
    requires Ptr(fs.disk, fs.inodes, parent) != 0 && Ptr(fs.disk, fs.inodes, s) == 0
    requires var p := Ptr(fs.disk, fs.inodes, parent);
             p < FSSIZE && fs'.disk == fs.disk[p := SetEntry(fs.disk[p], i, fs.free)] && fs'.inodes == fs.inodes
    ensures Ptr(fs'.disk, fs'.inodes, t) == Ptr(fs.disk, fs.inodes, t)
  {
    var p := Ptr(fs.disk, fs.inodes, parent);
    PtrRange(fs, parent);
    if t.Second? || t.Leaf? {
      var table, second := Table(t.inum), Second(t.inum, t.i);
      assert OwnedAt(fs, table) && OwnedAt(fs, second);
      if parent == table {
        if t.Second? {
          if t.i < NINDIRECT { EntryOfSet(fs.disk[p], i, fs.free, t.i); }
        } else if t.i == i {
          FreshLeaf(fs, fs', parent, i, t.j);
        } else {
          if t.i < NINDIRECT { EntryOfSet(fs.disk[p], i, fs.free, t.i); }
        }
      } else if parent == second && t.Leaf? {
        PtrAfterWrite(fs, p, fs'.disk[p], second);
        if t.j < NINDIRECT { EntryOfSet(fs.disk[p], i, fs.free, t.j); }
      } else {
        PtrAfterWrite(fs, p, fs'.disk[p], t);
      }
    }
  }

  /** A second-level table that was just allocated is empty. */
  lemma FreshLeaf(fs: Fs, fs': Fs, parent: Slot, i: nat, j: nat)
    requires Tidy(fs) && fs.free < FSSIZE && i < NINDIRECT && parent.Table?
    requires Ptr(fs.disk, fs.inodes, parent) != 0 && Ptr(fs.disk, fs.inodes, Second(parent.inum, i)) == 0
    requires var p := Ptr(fs.disk, fs.inodes, parent);
             p < FSSIZE && fs'.disk == fs.disk[p := SetEntry(fs.disk[p], i, fs.free)] && fs'.inodes == fs.inodes
    ensures Ptr(fs'.disk, fs'.inodes, Leaf(parent.inum, i, j)) == 0 == Ptr(fs.disk, fs.inodes, Leaf(parent.inum, i, j))
  {
    var p := Ptr(fs.disk, fs.inodes, parent);
    PtrRange(fs, parent);
    EntryOfSet(fs.disk[p], i, fs.free, i);
    FreeIsZero(fs, fs.free);
    if j < NINDIRECT { ZeroEntries(j); }
  }

  // ---- Files ----

  /** The slot for block `b` of a file. */
  function DataSlot(n: nat, b: nat): Slot {
    if b < NDIRECT then Direct(n, b) else Leaf(n, (b - NDIRECT) / NINDIRECT, (b - NDIRECT) % NINDIRECT)
  }

  ghost function DataPtr(fs: Fs, n: nat, b: nat): nat {
    Ptr(fs.disk, fs.inodes, DataSlot(n, b))
  }

  lemma DataSlotInjective(n: nat, b: nat, m: nat, c: nat)
    ensures DataSlot(n, b) == DataSlot(m, c) <==> n == m && b == c
  {
  }

  /** Blocks needed for `size` bytes. */
  function Blocks(size: nat): nat { (size + BSIZE - 1) / BSIZE }

  /** The slots a file of `m` blocks uses, index tables included. */
  predicate Needed(s: Slot, m: nat) {
    match s
    case Direct(_, k) => k < NDIRECT && k < m
    case Table(_) => NDIRECT < m
    case Second(_, i) => i < NINDIRECT && NDIRECT + NINDIRECT * i < m
    case Leaf(_, i, j) => i < NINDIRECT && j < NINDIRECT && NDIRECT + NINDIRECT * i + j < m
  }

  ghost predicate CoveredAt(fs: Fs, n: nat, m: nat, extra: set<Slot>, s: Slot) {
    s.inum == n ==> (Ptr(fs.disk, fs.inodes, s) != 0 <==> Needed(s, m) || s in extra)
  }

  /** The file has the blocks and index tables for its first `m` blocks, those in `extra`, and no more. */
  ghost predicate Covered(fs: Fs, n: nat, m: nat, extra: set<Slot>) {
    forall s {:trigger CoveredAt(fs, n, m, extra, s)} :: CoveredAt(fs, n, m, extra, s)
  }

  ghost predicate SizedAt(fs: Fs, n: nat)
    requires n in fs.inodes
  {
    Covered(fs, n, Blocks(fs.inodes[n].size), {})
  }

  ghost function ByteAt(fs: Fs, n: nat, k: nat): byte {
    BlockAt(fs.disk, DataPtr(fs, n, k / BSIZE))[k % BSIZE]
  }

  /** What a reader gets by walking the pointers of inode `n` for its recorded size. */
  ghost function Content(fs: Fs, n: nat): seq<byte>
    requires n in fs.inodes
  {
    seq(fs.inodes[n].size, k requires 0 <= k => ByteAt(fs, n, k))
  }

  /** Blocks taken by a file of `m` blocks with its index tables. */
  function Total(m: nat): nat {
    if m <= NDIRECT then m else m + 1 + (m - NDIRECT + NINDIRECT - 1) / NINDIRECT
  }

  lemma TotalStep(m: nat)
    ensures Total(m + 1) == Total(m) + 1 + (if m == NDIRECT then 1 else 0)
                            + (if m >= NDIRECT && (m - NDIRECT) % NINDIRECT == 0 then 1 else 0)
  {
  }

  lemma {:induction false} TotalMonotone(a: nat, b: nat)
    requires a <= b
    ensures Total(a) + (b - a) <= Total(b)
    decreases b - a
  {
    if a < b {
      TotalStep(a);
      TotalMonotone(a + 1, b);
    }
  }

  /** Blocks taken by the files 1..last. */
  ghost function Used(inodes: map<nat, DINode>, last: nat): nat {
    if last == 0 then 0
    else Used(inodes, last - 1) + if last in inodes then Total(Blocks(inodes[last].size)) else 0
  }

  lemma {:induction false} UsedAfter(before: map<nat, DINode>, after: map<nat, DINode>, last: nat, n: nat)
    requires n in before && after.Keys == before.Keys
    requires forall m {:trigger after[m]} :: m in before && m != n ==> after[m].size == before[m].size
    ensures Used(after, last) == Used(before, last)
            + if 1 <= n <= last then Total(Blocks(after[n].size)) - Total(Blocks(before[n].size)) else 0
  {
    if last > 0 {
      UsedAfter(before, after, last - 1, n);
      assert last in before && last != n ==> after[last].size == before[last].size;
    }
  }

  lemma {:induction false} UsedAtLeast(inodes: map<nat, DINode>, last: nat, n: nat)
    requires 1 <= n <= last && n in inodes
    ensures Total(Blocks(inodes[n].size)) <= Used(inodes, last)
  {
    if n < last { UsedAtLeast(inodes, last - 1, n); }
  }

  lemma {:induction false} UsedSame(a: map<nat, DINode>, b: map<nat, DINode>, last: nat)
    requires forall n {:trigger n in a} {:trigger n in b} :: n <= last ==> (n in a <==> n in b)
    requires forall n {:trigger a[n]} :: n <= last && n in a ==> a[n] == b[n]
    ensures Used(a, last) == Used(b, last)
  {
    if last > 0 {
      UsedSame(a, b, last - 1);
      assert last in a ==> a[last] == b[last];
    }
  }

  /** The inode numbers in use are those below `next`. */
  ghost predicate Numbered(inodes: map<nat, DINode>, next: nat) {
    forall n {:trigger n in inodes} :: n in inodes <==> 1 <= n < next
  }

  /** A well-formed image holding the files below `next`. */
  ghost predicate Good(fs: Fs, next: nat) {
    && Tidy(fs)
    && Numbered(fs.inodes, next)
    && (forall n {:trigger SizedAt(fs, n)} :: n in fs.inodes ==> SizedAt(fs, n))
    && fs.free == FIRST_DATA + Used(fs.inodes, next)
  }

  /** Files are smaller than the disk: no size and no block number overflows its field. */
  lemma SizeBound(fs: Fs, next: nat, n: nat)
    requires Good(fs, next) && n in fs.inodes
    ensures Blocks(fs.inodes[n].size) <= Total(Blocks(fs.inodes[n].size)) <= fs.free - FIRST_DATA
  {
    UsedAtLeast(fs.inodes, next, n);
  }

  /** Where byte `k` of a file is: in the block that one of the twelve direct addresses names, or through the
      table that the thirteenth names and one of the tables this refers to. */
  lemma ContentAt(fs: Fs, next: nat, n: nat, k: nat)
    requires Good(fs, next) && n in fs.inodes && k < fs.inodes[n].size
    ensures var a, b := fs.inodes[n].addresses, k / 4096;
            Content(fs, n)[k] ==
            if b < 12 then BlockAt(fs.disk, a[b])[k % 4096]
            else
              var table := BlockAt(fs.disk, a[12]);
              var second := BlockAt(fs.disk, Entry(table, (b - 12) / 1024));
              BlockAt(fs.disk, Entry(second, (b - 12) % 1024))[k % 4096]
  {
    var b, m := k / BSIZE, Blocks(fs.inodes[n].size);
    SizeBound(fs, next, n);
    if b >= NDIRECT {
      var i := (b - NDIRECT) / NINDIRECT;
      assert SizedAt(fs, n);
      assert CoveredAt(fs, n, m, {}, Table(n)) && CoveredAt(fs, n, m, {}, Second(n, i));
    }
  }

  // ---- What allocating a block leaves alone ----

  /** Block `b` of file `n`, if it was there, is still there with the same bytes. */
  ghost predicate KeptAt(fs: Fs, fs': Fs, n: nat, b: nat) {
    var p := DataPtr(fs, n, b);
    p != 0 ==> DataPtr(fs', n, b) == p && BlockAt(fs'.disk, p) == BlockAt(fs.disk, p)
  }

  ghost predicate Kept(fs: Fs, fs': Fs) {
    forall n, b {:trigger KeptAt(fs, fs', n, b)} :: KeptAt(fs, fs', n, b)
  }

  /** The reserved blocks are the same. */
  ghost predicate SameMeta(a: seq<Block>, b: seq<Block>) {
    |a| == |b| == FSSIZE && a[..FIRST_DATA] == b[..FIRST_DATA]
  }

  lemma KeptCompose(a: Fs, b: Fs, c: Fs)
    requires Kept(a, b) && Kept(b, c)
    ensures Kept(a, c)
  {
    forall n, k ensures KeptAt(a, c, n, k) {
      assert KeptAt(a, b, n, k) && KeptAt(b, c, n, k);
    }
  }

  /** Slot `s` got the next free block; nothing else changed but the block holding the slot. */
  ghost predicate Grew(fs: Fs, fs': Fs, s: Slot) {
    && Tidy(fs') && fs'.free == fs.free + 1
    && Ptr(fs'.disk, fs'.inodes, s) == fs.free
    && (forall t {:trigger Ptr(fs'.disk, fs'.inodes, t)} :: t != s ==>
          Ptr(fs'.disk, fs'.inodes, t) == Ptr(fs.disk, fs.inodes, t))
    && Kept(fs, fs') && SameMeta(fs.disk, fs'.disk)
    && fs'.inodes.Keys == fs.inodes.Keys
    && (forall n {:trigger fs'.inodes[n]} :: n in fs.inodes ==>
          fs'.inodes[n] == if n == s.inum then fs.inodes[n].(addresses := fs'.inodes[n].addresses) else fs.inodes[n])
  }

  lemma AllocKeepsData(fs: Fs, fs': Fs, s: Slot, p: nat)
    requires Tidy(fs) && Ptr(fs.disk, fs.inodes, s) == 0
    requires p == 0 || (p in fs.owner && (fs.owner[p].Table? || fs.owner[p].Second?))
    requires |fs'.disk| == |fs.disk|
    requires forall b {:trigger fs'.disk[b]} :: 0 <= b < |fs.disk| && b != p ==> fs'.disk[b] == fs.disk[b]
    requires forall t {:trigger Ptr(fs'.disk, fs'.inodes, t)} :: t != s ==>
               Ptr(fs'.disk, fs'.inodes, t) == Ptr(fs.disk, fs.inodes, t)
    ensures Kept(fs, fs')
  {
    forall n, b ensures KeptAt(fs, fs', n, b) {
      var t := DataSlot(n, b);
      if Ptr(fs.disk, fs.inodes, t) != 0 {
        PtrRange(fs, t);
        assert t != s;
      }
    }
  }

  /** A direct slot or the table slot of an inode is filled. */
  lemma GrowInode(fs: Fs, n: nat, k: nat) returns (fs': Fs)
    requires Tidy(fs) && fs.free < FSSIZE && n in fs.inodes && k <= NDIRECT && Addr(fs.inodes, n, k) == 0
    ensures var s := if k < NDIRECT then Direct(n, k) else Table(n);
            && fs' == Fs(fs.disk, WithAddress(fs.inodes, n, k, fs.free), fs.owner[fs.free := s], fs.free + 1)
            && Grew(fs, fs', s)
  {
    fs' := AllocInInode(fs, n, k);
    AllocKeepsData(fs, fs', if k < NDIRECT then Direct(n, k) else Table(n), 0);
  }

  /** An entry of an index table is filled. */
  lemma GrowTable(fs: Fs, parent: Slot, s: Slot, i: nat) returns (fs': Fs)
    requires Tidy(fs) && fs.free < FSSIZE && i < NINDIRECT
    requires (parent.Table? && s == Second(parent.inum, i)) || (parent.Second? && s == Leaf(parent.inum, parent.i, i))
    requires Ptr(fs.disk, fs.inodes, parent) != 0 && Ptr(fs.disk, fs.inodes, s) == 0
    ensures var p := Ptr(fs.disk, fs.inodes, parent);
            && p < FSSIZE
            && fs' == Fs(fs.disk[p := SetEntry(fs.disk[p], i, fs.free)], fs.inodes, fs.owner[fs.free := s], fs.free + 1)
    ensures Grew(fs, fs', s)
  {
    fs' := AllocInTable(fs, parent, s, i);
    PtrRange(fs, parent);
    AllocKeepsData(fs, fs', s, Ptr(fs.disk, fs.inodes, parent));
  }

  lemma GrewCovers(fs: Fs, fs': Fs, s: Slot, n: nat, m: nat, extra: set<Slot>)
    requires Tidy(fs) && Grew(fs, fs', s) && Covered(fs, n, m, extra)
    ensures Covered(fs', n, m, if n == s.inum then extra + {s} else extra)
  {
    var extra' := if n == s.inum then extra + {s} else extra;
    forall t ensures CoveredAt(fs', n, m, extra', t) {
      assert CoveredAt(fs, n, m, extra, t);
    }
  }

  // ---- Writing file data ----

  /** Writing a data block changes that block of that file only. */
  lemma DataWrite(fs: Fs, n: nat, b: nat, blk: Block) returns (fs': Fs)
    requires Tidy(fs) && DataPtr(fs, n, b) != 0
    ensures DataPtr(fs, n, b) < FSSIZE && fs' == fs.(disk := fs.disk[DataPtr(fs, n, b) := blk])
    ensures Tidy(fs') && SameMeta(fs.disk, fs'.disk)
    ensures forall t {:trigger Ptr(fs'.disk, fs'.inodes, t)} ::
              Ptr(fs'.disk, fs'.inodes, t) == Ptr(fs.disk, fs.inodes, t)
  {
    var s := DataSlot(n, b);
    PtrRange(fs, s);
    fs' := fs.(disk := fs.disk[DataPtr(fs, n, b) := blk]);
    forall t ensures Ptr(fs'.disk, fs'.inodes, t) == Ptr(fs.disk, fs.inodes, t) {
      DataWriteKeepsPtr(fs, s, blk, t);
    }
    forall t ensures OwnedAt(fs', t) { assert OwnedAt(fs, t); }
    forall c ensures AllocatedAt(fs', c) { assert AllocatedAt(fs, c); }
  }

  lemma DataWriteByte(fs: Fs, fs': Fs, n: nat, b: nat, blk: Block, m: nat, k: nat)
    requires Tidy(fs) && DataPtr(fs, n, b) != 0 && DataPtr(fs, n, b) < FSSIZE
    requires fs' == fs.(disk := fs.disk[DataPtr(fs, n, b) := blk])
    requires forall t {:trigger Ptr(fs'.disk, fs'.inodes, t)} ::
               Ptr(fs'.disk, fs'.inodes, t) == Ptr(fs.disk, fs.inodes, t)
    ensures ByteAt(fs', m, k) == if m == n && k / BSIZE == b then blk[k % BSIZE] else ByteAt(fs, m, k)
  {
    DataSlotInjective(n, b, m, k / BSIZE);
    PtrRange(fs, DataSlot(n, b));
    var q := DataPtr(fs, m, k / BSIZE);
    if q != 0 { PtrRange(fs, DataSlot(m, k / BSIZE)); }
  }

  // ---- Extending a file by a block ----

  /** From `fs`, file `n` with `m` blocks got the slots in `extra`, `taken` of them; no other file changed. */
  ghost predicate Extended(fs: Fs, fs': Fs, n: nat, m: nat, extra: set<Slot>, taken: nat) {
    && Tidy(fs') && Covered(fs', n, m, extra)
    && Kept(fs, fs') && SameMeta(fs.disk, fs'.disk)
    && fs'.free == fs.free + taken
    && (forall t: Slot {:trigger Ptr(fs'.disk, fs'.inodes, t)} :: t.inum != n ==>
          Ptr(fs'.disk, fs'.inodes, t) == Ptr(fs.disk, fs.inodes, t))
    && n in fs.inodes && n in fs'.inodes
    && fs'.inodes == fs.inodes[n := fs.inodes[n].(addresses := fs'.inodes[n].addresses)]
  }

  lemma ExtendedStart(fs: Fs, n: nat, m: nat)
    requires Tidy(fs) && Covered(fs, n, m, {}) && n in fs.inodes
    ensures Extended(fs, fs, n, m, {}, 0)
  {
  }

  lemma ExtendedStep(fs0: Fs, fs: Fs, fs': Fs, n: nat, m: nat, extra: set<Slot>, taken: nat, s: Slot)
    requires Tidy(fs) && Extended(fs0, fs, n, m, extra, taken) && Grew(fs, fs', s) && s.inum == n
    ensures Extended(fs0, fs', n, m, extra + {s}, taken + 1)
  {
    GrewCovers(fs, fs', s, n, m, extra);
    KeptCompose(fs0, fs, fs');
    forall t: Slot | t.inum != n ensures Ptr(fs'.disk, fs'.inodes, t) == Ptr(fs0.disk, fs0.inodes, t) {
      assert Ptr(fs'.disk, fs'.inodes, t) == Ptr(fs.disk, fs.inodes, t);
    }
    assert fs'.inodes == fs0.inodes[n := fs0.inodes[n].(addresses := fs'.inodes[n].addresses)];
  }

  /** The slots block `m` of a file calls for beyond those of the blocks before it. */
  ghost function StepSlots(n: nat, m: nat): set<Slot> {
    {DataSlot(n, m)}
    + (if m == NDIRECT then {Table(n)} else {})
    + (if m >= NDIRECT && (m - NDIRECT) % NINDIRECT == 0 then {Second(n, (m - NDIRECT) / NINDIRECT)} else {})
  }

  lemma NeededStep(n: nat, m: nat, s: Slot)
    requires s.inum == n && m <= FSSIZE
    ensures Needed(s, m + 1) <==> Needed(s, m) || s in StepSlots(n, m)
  {
    if m >= NDIRECT {
      var i, j := (m - NDIRECT) / NINDIRECT, (m - NDIRECT) % NINDIRECT;
      assert m == NDIRECT + NINDIRECT * i + j;
    }
  }

  lemma ExtendedDone(fs: Fs, fs': Fs, n: nat, m: nat, extra: set<Slot>, taken: nat)
    requires Extended(fs, fs', n, m, extra, taken) && extra == StepSlots(n, m) && m <= FSSIZE
    ensures Extended(fs, fs', n, m + 1, {}, taken)
  {
    var m' := m + 1;
    forall s ensures CoveredAt(fs', n, m', {}, s) {
      assert CoveredAt(fs', n, m, extra, s);
      if s.inum == n { NeededStep(n, m, s); }
    }
  }

  // ---- Appending ----

  /** The boot block, the super block and the log are the same. */
  ghost predicate HeadKept(a: seq<Block>, b: seq<Block>) {
    forall q {:trigger BlockAt(b, q)} :: 0 <= q < INODE_START ==> BlockAt(b, q) == BlockAt(a, q)
  }

  lemma HeadThrough(a: seq<Block>, b: seq<Block>, c: seq<Block>)
    requires HeadKept(a, b) && HeadKept(b, c)
    ensures HeadKept(a, c)
  {
    forall q | 0 <= q < INODE_START ensures BlockAt(c, q) == BlockAt(a, q) {
      assert BlockAt(b, q) == BlockAt(a, q);
    }
  }

  lemma MetaHead(a: seq<Block>, b: seq<Block>, c: seq<Block>)
    requires SameMeta(a, b) && SameMeta(b, c)
    ensures HeadKept(a, c)
  {
    forall q | 0 <= q < INODE_START ensures BlockAt(c, q) == BlockAt(a, q) {
      assert a[..FIRST_DATA][q] == b[..FIRST_DATA][q] == c[..FIRST_DATA][q];
    }
  }

  /** File `n` grew by `data`; every other file is as it was. */
  ghost predicate Appended(fs: Fs, fs': Fs, n: nat, data: seq<byte>) {
    && fs'.inodes.Keys == fs.inodes.Keys && n in fs.inodes
    && fs'.inodes[n] == fs.inodes[n].(size := fs'.inodes[n].size, addresses := fs'.inodes[n].addresses)
    && Content(fs', n) == Content(fs, n) + data && HeadKept(fs.disk, fs'.disk)
    && (Addr(fs.inodes, n, 0) != 0 ==> Addr(fs'.inodes, n, 0) == Addr(fs.inodes, n, 0))
    && (forall m {:trigger fs'.inodes[m]} :: m in fs.inodes && m != n ==>
          fs'.inodes[m] == fs.inodes[m] && Content(fs', m) == Content(fs, m))
  }

  lemma AppendedCompose(a: Fs, b: Fs, c: Fs, n: nat, x: seq<byte>, y: seq<byte>)
    requires Appended(a, b, n, x) && Appended(b, c, n, y)
    ensures Appended(a, c, n, x + y)
  {
  }

  /** `blk` is `before` with `chunk` written at offset `o`. */
  ghost predicate Patched(before: Block, blk: Block, o: nat, chunk: seq<byte>) {
    o + |chunk| <= BSIZE && blk[..o] == before[..o] && blk[o..o + |chunk|] == chunk
  }

  /** The image after a chunk was written to the block at `p` and the size moved on. */
  ghost function AfterChunk(fs: Fs, n: nat, p: nat, blk: Block, size: u32): Fs
    requires n in fs.inodes && p < |fs.disk|
  {
    Fs(fs.disk[p := blk], fs.inodes[n := fs.inodes[n].(size := size)], fs.owner, fs.free)
  }

  lemma SizeIrrelevant(fs: Fs, n: nat, p: nat, blk: Block, size: u32, t: Slot)
    requires n in fs.inodes && p < |fs.disk|
    ensures var fs' := AfterChunk(fs, n, p, blk, size);
            Ptr(fs'.disk, fs'.inodes, t) == Ptr(fs'.disk, fs.inodes, t)
  {
  }

  /** One turn of the append loop: block `b` holds the end of the file, and `chunk` fits in it. */
  lemma ChunkWritten(fs: Fs, n: nat, b: nat, blk: Block, size: u32) returns (fs': Fs)
    requires Tidy(fs) && n in fs.inodes && DataPtr(fs, n, b) != 0
    ensures DataPtr(fs, n, b) < FSSIZE && fs' == AfterChunk(fs, n, DataPtr(fs, n, b), blk, size)
    ensures Tidy(fs') && SameMeta(fs.disk, fs'.disk)
    ensures forall t {:trigger Ptr(fs'.disk, fs'.inodes, t)} ::
              Ptr(fs'.disk, fs'.inodes, t) == Ptr(fs.disk, fs.inodes, t)
    ensures forall m: nat, k: nat {:trigger ByteAt(fs', m, k)} ::
              ByteAt(fs', m, k) == if m == n && k / BSIZE == b then blk[k % BSIZE] else ByteAt(fs, m, k)
  {
    var mid := DataWrite(fs, n, b, blk);
    var p := DataPtr(fs, n, b);
    fs' := AfterChunk(fs, n, p, blk, size);
    forall t ensures Ptr(fs'.disk, fs'.inodes, t) == Ptr(fs.disk, fs.inodes, t) {
      SizeIrrelevant(fs, n, p, blk, size, t);
      assert Ptr(mid.disk, mid.inodes, t) == Ptr(fs.disk, fs.inodes, t);
    }
    forall t ensures OwnedAt(fs', t) { assert OwnedAt(fs, t); }
    forall c ensures AllocatedAt(fs', c) { assert AllocatedAt(mid, c); }
    forall m: nat, k: nat
      ensures ByteAt(fs', m, k) == if m == n && k / BSIZE == b then blk[k % BSIZE] else ByteAt(fs, m, k)
    {
      DataWriteByte(fs, mid, n, b, blk, m, k);
      assert DataPtr(fs', m, k / BSIZE) == DataPtr(mid, m, k / BSIZE);
    }
  }

  lemma CoveredFrame(fs: Fs, fs': Fs, n: nat, m: nat)
    requires Covered(fs, n, m, {})
    requires forall t: Slot {:trigger Ptr(fs'.disk, fs'.inodes, t)} :: t.inum == n ==>
               Ptr(fs'.disk, fs'.inodes, t) == Ptr(fs.disk, fs.inodes, t)
    ensures Covered(fs', n, m, {})
  {
    forall t ensures CoveredAt(fs', n, m, {}, t) {
      assert CoveredAt(fs, n, m, {}, t);
    }
  }

  /** Bytes within the blocks a file had are kept. */
  lemma KeptByte(fs: Fs, fs': Fs, n: nat, size: nat, k: nat)
    requires Kept(fs, fs') && Covered(fs, n, Blocks(size), {}) && k < size && Blocks(size) <= FSSIZE
    ensures ByteAt(fs', n, k) == ByteAt(fs, n, k)
  {
    assert CoveredAt(fs, n, Blocks(size), {}, DataSlot(n, k / BSIZE));
    DataNeeded(n, k / BSIZE, Blocks(size));
    assert KeptAt(fs, fs', n, k / BSIZE);
  }

  lemma DataNeeded(n: nat, b: nat, m: nat)
    requires m <= FSSIZE
    ensures Needed(DataSlot(n, b), m) <==> b < m
  {
  }

  lemma AppendBytes(fs: Fs, mid: Fs, fs': Fs, n: nat, chunk: seq<byte>, blk: Block, size: nat)
    requires n in fs.inodes && n in fs'.inodes && fs.inodes[n].size == size && fs'.inodes[n].size == size + |chunk|
    requires Kept(fs, mid) && SizedAt(fs, n) && Blocks(size) <= FSSIZE
    requires Patched(BlockAt(mid.disk, DataPtr(mid, n, size / BSIZE)), blk, size % BSIZE, chunk)
    requires forall m: nat, k: nat {:trigger ByteAt(fs', m, k)} ::
               ByteAt(fs', m, k) == if m == n && k / BSIZE == size / BSIZE then blk[k % BSIZE] else ByteAt(mid, m, k)
    ensures Content(fs', n) == Content(fs, n) + chunk
  {
    var o := size % BSIZE;
    forall k | 0 <= k < size + |chunk|
      ensures ByteAt(fs', n, k) == if k < size then ByteAt(fs, n, k) else chunk[k - size]
    {
      if k < size {
        KeptByte(fs, mid, n, size, k);
        if k / BSIZE == size / BSIZE {
          assert k % BSIZE < o;
          assert blk[..o][k % BSIZE] == BlockAt(mid.disk, DataPtr(mid, n, size / BSIZE))[..o][k % BSIZE];
        }
      } else {
        assert k / BSIZE == size / BSIZE && k % BSIZE == o + (k - size);
        assert blk[o..o + |chunk|][k - size] == chunk[k - size];
      }
    }
  }

  lemma OthersKept(fs: Fs, mid: Fs, fs': Fs, n: nat, b: nat, blk: Block, m: nat)
    requires m in fs.inodes && m in fs'.inodes && m != n && fs'.inodes[m] == fs.inodes[m]
    requires Kept(fs, mid) && SizedAt(fs, m) && Blocks(fs.inodes[m].size) <= FSSIZE
    requires forall j: nat, k: nat {:trigger ByteAt(fs', j, k)} ::
               ByteAt(fs', j, k) == if j == n && k / BSIZE == b then blk[k % BSIZE] else ByteAt(mid, j, k)
    ensures Content(fs', m) == Content(fs, m)
  {
    var size := fs.inodes[m].size;
    forall k | 0 <= k < size ensures ByteAt(fs', m, k) == ByteAt(fs, m, k) {
      KeptByte(fs, mid, m, size, k);
    }
  }

  lemma BlocksOfEnd(size: nat, n: nat)
    requires 0 < n && size % BSIZE + n <= BSIZE
    ensures Blocks(size + n) == size / BSIZE + 1 && size / BSIZE <= Blocks(size) <= size / BSIZE + 1
  {
  }

  /** Only block `b` of file `n` changed, to `blk`. */
  ghost predicate Rewrote(fs: Fs, fs': Fs, n: nat, b: nat, blk: Block) {
    && (forall t {:trigger Ptr(fs'.disk, fs'.inodes, t)} :: Ptr(fs'.disk, fs'.inodes, t) == Ptr(fs.disk, fs.inodes, t))
    && (forall j: nat, k: nat {:trigger ByteAt(fs', j, k)} ::
          ByteAt(fs', j, k) == if j == n && k / BSIZE == b then blk[k % BSIZE] else ByteAt(fs, j, k))
  }

  /** What one turn of the append loop did: `mid` has the block for the end of file `n`, and `fs'`
      the chunk in it and the new size. */
  ghost predicate Turn(fs: Fs, mid: Fs, fs': Fs, n: nat, b: nat, m: nat, blk: Block, taken: nat, size': u32) {
    && Extended(fs, mid, n, m, {}, taken) && Rewrote(mid, fs', n, b, blk)
    && fs'.inodes == mid.inodes[n := mid.inodes[n].(size := size')] && fs'.free == mid.free
  }

  lemma OtherFile(fs: Fs, mid: Fs, fs': Fs, next: nat, n: nat, b: nat, m: nat, blk: Block, taken: nat, size': u32,
                  k: nat)
    requires Good(fs, next) && k in fs.inodes && k != n && Turn(fs, mid, fs', n, b, m, blk, taken, size')
    ensures k in fs'.inodes && fs'.inodes[k] == fs.inodes[k] && Content(fs', k) == Content(fs, k) && SizedAt(fs', k)
  {
    assert SizedAt(fs, k);
    SizeBound(fs, next, k);
    OthersKept(fs, mid, fs', n, b, blk, k);
    CoveredFrame(fs, fs', k, Blocks(fs.inodes[k].size));
  }

  lemma EndOfFile(fs: Fs, mid: Fs, fs': Fs, next: nat, n: nat, b: nat, m: nat, chunk: seq<byte>, blk: Block,
                  taken: nat, size: nat, size': u32)
    requires Good(fs, next) && n in fs.inodes && fs.inodes[n].size == size
    requires b == size / BSIZE && size' == size + |chunk|
    requires Turn(fs, mid, fs', n, b, m, blk, taken, size')
    requires Patched(BlockAt(mid.disk, DataPtr(mid, n, b)), blk, size % BSIZE, chunk)
    ensures Content(fs', n) == Content(fs, n) + chunk
  {
    assert SizedAt(fs, n);
    SizeBound(fs, next, n);
    AppendBytes(fs, mid, fs', n, chunk, blk, size);
  }

  lemma TurnAppends(fs: Fs, mid: Fs, fs': Fs, next: nat, n: nat, b: nat, m: nat, chunk: seq<byte>, blk: Block,
                    taken: nat, size: nat, size': u32)
    requires Good(fs, next) && n in fs.inodes && fs.inodes[n].size == size
    requires b == size / BSIZE && size' == size + |chunk|
    requires Turn(fs, mid, fs', n, b, m, blk, taken, size') && HeadKept(fs.disk, fs'.disk)
    requires Patched(BlockAt(mid.disk, DataPtr(mid, n, b)), blk, size % BSIZE, chunk)
    ensures Appended(fs, fs', n, chunk)
  {
    EndOfFile(fs, mid, fs', next, n, b, m, chunk, blk, taken, size, size');
    assert KeptAt(fs, mid, n, 0);
    forall k | k in fs.inodes && k != n ensures fs'.inodes[k] == fs.inodes[k] && Content(fs', k) == Content(fs, k) {
      OtherFile(fs, mid, fs', next, n, b, m, blk, taken, size', k);
    }
  }

  lemma TurnKeepsGood(fs: Fs, mid: Fs, fs': Fs, next: nat, n: nat, b: nat, m: nat, blk: Block, taken: nat, size': u32)
    requires Good(fs, next) && n in fs.inodes && Tidy(fs') && Turn(fs, mid, fs', n, b, m, blk, taken, size')
    requires m == Blocks(size') && taken + Total(Blocks(fs.inodes[n].size)) == Total(m)
    ensures Good(fs', next)
  {
    CoveredFrame(mid, fs', n, m);
    forall k | k in fs.inodes ensures SizedAt(fs', k) && (k != n ==> fs'.inodes[k].size == fs.inodes[k].size) {
      if k != n { OtherFile(fs, mid, fs', next, n, b, m, blk, taken, size', k); }
    }
    UsedAfter(fs.inodes, fs'.inodes, next, n);
  }

  /** One turn of the append loop: the chunk is added to the end of file `n`. */
  lemma AppendStep(fs: Fs, mid: Fs, next: nat, n: nat, b: nat, m: nat, chunk: seq<byte>, blk: Block, size: nat,
                   taken: nat)
    returns (fs': Fs)
    requires Good(fs, next) && n in fs.inodes && fs.inodes[n].size == size && b == size / BSIZE && m == b + 1
    requires 0 < |chunk| && size % BSIZE + |chunk| <= BSIZE && size + |chunk| < U32
    requires Extended(fs, mid, n, m, {}, taken) && taken + Total(Blocks(size)) == Total(m) && b < FSSIZE
    requires Patched(BlockAt(mid.disk, DataPtr(mid, n, b)), blk, size % BSIZE, chunk)
    ensures DataPtr(mid, n, b) < FSSIZE && fs' == AfterChunk(mid, n, DataPtr(mid, n, b), blk, size + |chunk|)
    ensures Good(fs', next) && Appended(fs, fs', n, chunk) && SameMeta(fs.disk, fs'.disk)
  {
    BlocksOfEnd(size, |chunk|);
    assert DataPtr(mid, n, b) != 0 by {
      DataNeeded(n, b, m);
      assert CoveredAt(mid, n, m, {}, DataSlot(n, b));
    }
    var size' := size + |chunk|;
    fs' := ChunkWritten(mid, n, b, blk, size');
    assert Turn(fs, mid, fs', n, b, m, blk, taken, size');
    MetaHead(fs.disk, mid.disk, fs'.disk);
    TurnAppends(fs, mid, fs', next, n, b, m, chunk, blk, taken, size, size');
    TurnKeepsGood(fs, mid, fs', next, n, b, m, blk, taken, size');
  }
}
