/** The image builder: inodes stored in the inode area, data appended block by block, and the
    free-block bitmap. */
module Mkfs {
  import opened Arith
  import opened Common
  import opened Inode
  import opened Image

  const BITMAP_START: nat := 36
  const BPB: nat := 32768
  const NBITMAP: nat := 1
  /** Inodes 0..255 fit in the inode area, and up to 319 in the reserved blocks. */
  const INODES: nat := 256
  const RESERVED: nat := 320

  function IBlock(n: nat): nat { n / IPB + INODE_START }

  function InodeOffset(n: nat): (o: nat)
    ensures o + DINODE_SIZE <= BSIZE
  {
    (n % IPB) * DINODE_SIZE
  }

  /** An inode's block is in the inode area exactly for numbers below 256; then comes the bitmap, and from
      320 on the data area. */
  lemma InodeArea(n: nat)
    ensures INODE_START <= IBlock(n)
    ensures IBlock(n) < BITMAP_START <==> n < INODES
    ensures IBlock(n) < FIRST_DATA <==> n < RESERVED
  {
  }

  function InodeBytes(b: Block, n: nat): (s: seq<byte>)
    ensures |s| == DINODE_SIZE
  {
    b[InodeOffset(n)..InodeOffset(n) + DINODE_SIZE]
  }

  /** Inode `n` is the `n`-th 64 bytes of the inode area, which starts at block 32. */
  lemma InodePlace(n: nat)
    ensures BSIZE * IBlock(n) + InodeOffset(n) == BSIZE * 32 + 64 * n
  {
  }

  function PutInode(b: Block, n: nat, s: seq<byte>): Block
    requires |s| == DINODE_SIZE
  {
    b[..InodeOffset(n)] + s + b[InodeOffset(n) + DINODE_SIZE..]
  }

  ghost predicate StoredAt(disk: seq<Block>, inodes: map<nat, DINode>, n: nat)
    requires n in inodes
  {
    Decode(InodeBytes(BlockAt(disk, IBlock(n)), n)) == Some(inodes[n])
  }

  /** Every inode, except `skip`, is in its place on the disk. */
  ghost predicate Stored(disk: seq<Block>, inodes: map<nat, DINode>, skip: nat) {
    forall n {:trigger StoredAt(disk, inodes, n)} :: n in inodes && n != skip ==> StoredAt(disk, inodes, n)
  }

  lemma PutThenGet(b: Block, n: nat, s: seq<byte>, m: nat)
    requires |s| == DINODE_SIZE && (IBlock(n) == IBlock(m))
    ensures InodeBytes(PutInode(b, n, s), m) == if n == m then s else InodeBytes(b, m)
  {
    var r, o, p := PutInode(b, n, s), InodeOffset(n), InodeOffset(m);
    forall i | 0 <= i < DINODE_SIZE ensures r[p + i] == if n == m then s[i] else b[p + i] {
      assert n < m ==> o + DINODE_SIZE <= p;
      assert m < n ==> p + DINODE_SIZE <= o;
    }
  }

  /** Storing inode `n` completes the inode area. */
  lemma StoreInode(disk: seq<Block>, inodes: map<nat, DINode>, n: nat)
    requires |disk| == FSSIZE && n in inodes && ValidInode(inodes[n]) && Stored(disk, inodes, n)
    requires forall m {:trigger m in inodes} :: m in inodes ==> m < RESERVED
    ensures Stored(disk[IBlock(n) := PutInode(disk[IBlock(n)], n, Encode(inodes[n]))], inodes, 0)
  {
    var disk' := disk[IBlock(n) := PutInode(disk[IBlock(n)], n, Encode(inodes[n]))];
    forall m | m in inodes && m != 0 ensures StoredAt(disk', inodes, m) {
      if IBlock(m) == IBlock(n) { PutThenGet(disk[IBlock(n)], n, Encode(inodes[n]), m); }
      if m == n { InodeRoundTrip(inodes[n]); } else { assert StoredAt(disk, inodes, m); }
    }
  }

  function WithInode(disk: seq<Block>, n: nat, d: DINode): seq<Block>
    requires IBlock(n) < |disk| && |d.addresses| == NDIRECT + 1
  {
    disk[IBlock(n) := PutInode(disk[IBlock(n)], n, Encode(d))]
  }

  /** Stored inodes do not depend on the data area. */
  lemma StoredFrame(disk: seq<Block>, disk': seq<Block>, inodes: map<nat, DINode>, inodes': map<nat, DINode>, skip: nat)
    requires Stored(disk, inodes, skip) && SameMeta(disk, disk') && inodes'.Keys == inodes.Keys
    requires forall m {:trigger m in inodes} :: m in inodes ==> m < RESERVED
    requires forall m {:trigger inodes'[m]} :: m in inodes && m != skip ==> inodes'[m] == inodes[m]
    ensures Stored(disk', inodes', skip)
  {
    forall m | m in inodes' && m != skip ensures StoredAt(disk', inodes', m) {
      assert StoredAt(disk, inodes, m);
      assert disk[..FIRST_DATA][IBlock(m)] == disk'[..FIRST_DATA][IBlock(m)];
    }
  }

  /** Bytes of a file are in the data area, or in the boot block if the file lacks the block. */
  lemma SameBytes(fs: Fs, fs': Fs, n: nat)
    requires Tidy(fs) && n in fs.inodes && n in fs'.inodes && fs'.inodes[n].size == fs.inodes[n].size
    requires |fs'.disk| == FSSIZE && fs'.disk[0] == fs.disk[0]
    requires forall b {:trigger fs'.disk[b]} :: FIRST_DATA <= b < FSSIZE ==> fs'.disk[b] == fs.disk[b]
    requires forall t {:trigger Ptr(fs'.disk, fs'.inodes, t)} ::
               Ptr(fs'.disk, fs'.inodes, t) == Ptr(fs.disk, fs.inodes, t)
    ensures Content(fs', n) == Content(fs, n)
  {
    forall k | 0 <= k < fs.inodes[n].size ensures ByteAt(fs', n, k) == ByteAt(fs, n, k) {
      var t := DataSlot(n, k / BSIZE);
      if Ptr(fs.disk, fs.inodes, t) != 0 { PtrRange(fs, t); }
    }
  }

  /** Writing a reserved block disturbs no file. */
  lemma MetaWrite(fs: Fs, q: nat, blk: Block) returns (fs': Fs)
    requires Tidy(fs) && 0 < q < FIRST_DATA
    ensures fs' == fs.(disk := fs.disk[q := blk]) && Tidy(fs')
    ensures forall n {:trigger Content(fs', n)} :: n in fs.inodes ==> Content(fs', n) == Content(fs, n)
    ensures forall next :: Good(fs', next) <==> Good(fs, next)
  {
    fs' := fs.(disk := fs.disk[q := blk]);
    forall t ensures Ptr(fs'.disk, fs'.inodes, t) == Ptr(fs.disk, fs.inodes, t) {
      MetaWritePtr(fs, q, blk, t);
    }
    forall t ensures OwnedAt(fs', t) { assert OwnedAt(fs, t); }
    forall c ensures AllocatedAt(fs', c) { assert AllocatedAt(fs, c); }
    forall n | n in fs.inodes ensures Content(fs', n) == Content(fs, n) && (SizedAt(fs', n) <==> SizedAt(fs, n)) {
      SameBytes(fs, fs', n);
      SameSized(fs, fs', n);
    }
  }

  lemma SameSized(fs: Fs, fs': Fs, n: nat)
    requires n in fs.inodes && fs'.inodes == fs.inodes
    requires forall t {:trigger Ptr(fs'.disk, fs'.inodes, t)} ::
               Ptr(fs'.disk, fs'.inodes, t) == Ptr(fs.disk, fs.inodes, t)
    ensures SizedAt(fs', n) <==> SizedAt(fs, n)
  {
    var m := Blocks(fs.inodes[n].size);
    if SizedAt(fs, n) {
      CoveredFrame(fs, fs', n, m);
    } else if SizedAt(fs', n) {
      forall t ensures CoveredAt(fs, n, m, {}, t) { assert CoveredAt(fs', n, m, {}, t); }
    }
  }

  lemma MetaWritePtr(fs: Fs, q: nat, blk: Block, t: Slot)
    requires Tidy(fs) && q < FIRST_DATA
    ensures Ptr(fs.disk[q := blk], fs.inodes, t) == Ptr(fs.disk, fs.inodes, t)
  {
    if t.Second? || t.Leaf? {
      if Ptr(fs.disk, fs.inodes, Table(t.inum)) != 0 { PtrRange(fs, Table(t.inum)); }
      if Ptr(fs.disk, fs.inodes, Second(t.inum, t.i)) != 0 { PtrRange(fs, Second(t.inum, t.i)); }
    }
  }

  function NewInode(t: FileType): DINode {
    DINode(t, 0, 0, 1, 0, seq(NDIRECT + 1, _ => 0))
  }

  lemma AddInodePtr(fs: Fs, n: nat, t: FileType, s: Slot)
    requires n !in fs.inodes
    ensures Ptr(fs.disk, fs.inodes[n := NewInode(t)], s) == Ptr(fs.disk, fs.inodes, s)
    ensures s.inum == n ==> Ptr(fs.disk, fs.inodes, s) == 0
  {
  }

  lemma AddInodeTidy(fs: Fs, next: nat, n: nat, t: FileType, fs': Fs)
    requires Good(fs, next) && n == next >= 1 && fs' == fs.(inodes := fs.inodes[n := NewInode(t)])
    ensures Tidy(fs') && SizedAt(fs', n)
    ensures forall s {:trigger Ptr(fs'.disk, fs'.inodes, s)} ::
              Ptr(fs'.disk, fs'.inodes, s) == Ptr(fs.disk, fs.inodes, s)
  {
    forall s ensures Ptr(fs'.disk, fs'.inodes, s) == Ptr(fs.disk, fs.inodes, s) { AddInodePtr(fs, n, t, s); }
    forall s ensures OwnedAt(fs', s) { assert OwnedAt(fs, s); }
    forall c ensures AllocatedAt(fs', c) { assert AllocatedAt(fs, c); }
    forall s ensures CoveredAt(fs', n, 0, {}, s) { AddInodePtr(fs, n, t, s); }
  }

  lemma FileFrame(fs: Fs, next: nat, fs': Fs, m: nat)
    requires Good(fs, next) && m in fs.inodes && m in fs'.inodes && fs'.inodes[m] == fs.inodes[m] && fs'.disk == fs.disk
    requires forall s {:trigger Ptr(fs'.disk, fs'.inodes, s)} ::
               Ptr(fs'.disk, fs'.inodes, s) == Ptr(fs.disk, fs.inodes, s)
    ensures Content(fs', m) == Content(fs, m) && SizedAt(fs', m)
  {
    assert SizedAt(fs, m);
    CoveredFrame(fs, fs', m, Blocks(fs.inodes[m].size));
    SameBytes(fs, fs', m);
  }

  /** A new inode is an empty file. */
  lemma AddInode(fs: Fs, next: nat, n: nat, t: FileType, fs': Fs)
    requires Good(fs, next) && n == next >= 1 && fs' == fs.(inodes := fs.inodes[n := NewInode(t)])
    ensures Good(fs', n + 1) && Content(fs', n) == []
    ensures forall m {:trigger Content(fs', m)} :: m in fs.inodes ==> Content(fs', m) == Content(fs, m)
  {
    AddInodeTidy(fs, next, n, t, fs');
    forall m | m in fs.inodes ensures Content(fs', m) == Content(fs, m) && SizedAt(fs', m) {
      FileFrame(fs, next, fs', m);
    }
    UsedSame(fs.inodes, fs'.inodes, next - 1);
  }

  /** Once the inode edited in memory is written back, the image is complete. */
  lemma SealInode(fs: Fs, next: nat, n: nat) returns (fs': Fs)
    requires Good(fs, next) && next <= RESERVED && n in fs.inodes && Stored(fs.disk, fs.inodes, n)
    ensures IBlock(n) < |fs.disk| && ValidInode(fs.inodes[n]) && fs' == fs.(disk := WithInode(fs.disk, n, fs.inodes[n]))
    ensures Good(fs', next) && Stored(fs'.disk, fs'.inodes, 0)
    ensures forall m {:trigger Content(fs', m)} :: m in fs.inodes ==> Content(fs', m) == Content(fs, m)
  {
    InodeArea(n);
    StoreInode(fs.disk, fs.inodes, n);
    fs' := MetaWrite(fs, IBlock(n), PutInode(fs.disk[IBlock(n)], n, Encode(fs.inodes[n])));
  }

  lemma FreshInode(fs: Fs, next: nat, n: nat, t: FileType) returns (fs': Fs)
    requires Good(fs, next) && n == next && 1 <= n < RESERVED && Stored(fs.disk, fs.inodes, 0)
    ensures fs' == Fs(WithInode(fs.disk, n, NewInode(t)), fs.inodes[n := NewInode(t)], fs.owner, fs.free)
    ensures Good(fs', n + 1) && Stored(fs'.disk, fs'.inodes, 0) && Content(fs', n) == []
    ensures forall m {:trigger Content(fs', m)} :: m in fs.inodes ==> Content(fs', m) == Content(fs, m)
  {
    var mid := fs.(inodes := fs.inodes[n := NewInode(t)]);
    AddInode(fs, next, n, t, mid);
    forall m | m in mid.inodes && m != n ensures StoredAt(mid.disk, mid.inodes, m) {
      assert StoredAt(fs.disk, fs.inodes, m);
    }
    fs' := SealInode(mid, n + 1, n);
    forall m | m in fs.inodes ensures Content(fs', m) == Content(fs, m) {
      assert Content(mid, m) == Content(fs, m);
    }
  }

  lemma Spliced(was: seq<byte>, now: seq<byte>, d: seq<byte>, pos: nat)
    requires |d| == DINODE_SIZE && pos + DINODE_SIZE <= |was| == |now|
    requires forall k {:trigger now[k]} :: 0 <= k < |was| ==>
               now[k] == if pos <= k < pos + DINODE_SIZE then d[k - pos] else was[k]
    ensures now == was[..pos] + d + was[pos + DINODE_SIZE..]
    ensures now == was <==> was[pos..pos + DINODE_SIZE] == d
  {
    assert now[pos..pos + DINODE_SIZE] == d;
    assert was == was[..pos] + was[pos..pos + DINODE_SIZE] + was[pos + DINODE_SIZE..];
  }

  /** From number 320 on an inode is written over file data: where it lands in the contents of a file
      these become the encoded inode, so they are kept exactly if they were that already. */
  lemma InodeOverData(fs: Fs, n: nat, t: FileType, m: nat, b: nat, pos: nat) returns (fs': Fs)
    requires Tidy(fs) && n !in fs.inodes && m in fs.inodes && DataPtr(fs, m, b) == IBlock(n)
    requires pos == b * BSIZE + InodeOffset(n) && pos + DINODE_SIZE <= fs.inodes[m].size
    ensures IBlock(n) < |fs.disk|
    ensures fs' == Fs(WithInode(fs.disk, n, NewInode(t)), fs.inodes[n := NewInode(t)], fs.owner, fs.free)
    ensures Content(fs', m) == Content(fs, m)[..pos] + Encode(NewInode(t)) + Content(fs, m)[pos + DINODE_SIZE..]
    ensures Content(fs', m) == Content(fs, m) <==> Content(fs, m)[pos..pos + DINODE_SIZE] == Encode(NewInode(t))
  {
    InodeArea(n);
    PtrRange(fs, DataSlot(m, b));
    var d := Encode(NewInode(t));
    var blk := PutInode(fs.disk[IBlock(n)], n, d);
    var mid := DataWrite(fs, m, b, blk);
    fs' := mid.(inodes := fs.inodes[n := NewInode(t)]);
    var was, now := Content(fs, m), Content(fs', m);
    forall k | 0 <= k < |was|
      ensures now[k] == if pos <= k < pos + DINODE_SIZE then d[k - pos] else was[k]
    {
      DataWriteByte(fs, mid, m, b, blk, m, k);
      AddInodePtr(mid, n, t, DataSlot(m, k / BSIZE));
    }
    Spliced(was, now, d, pos);
  }

  // ---- The bitmap ----

  predicate BitSet(b: byte, k: nat) { (b / Pow2(k)) % 2 == 1 }

  /** `b | 1 << k`. */
  function OrBit(b: byte, k: nat): (r: byte)
    requires k < 8
  {
    if BitSet(b, k) then b else (BitSmall(b, k); b + Pow2(k))
  }

  lemma BitSmall(b: byte, k: nat)
    requires k < 8 && !BitSet(b, k)
    ensures b + Pow2(k) < 256
  {
    PowValues();
    assert k == 0 || k == 1 || k == 2 || k == 3 || k == 4 || k == 5 || k == 6 || k == 7;
  }

  lemma PowValues()
    ensures Pow2(0) == 1 && Pow2(1) == 2 && Pow2(2) == 4 && Pow2(3) == 8 && Pow2(4) == 16
    ensures Pow2(5) == 32 && Pow2(6) == 64 && Pow2(7) == 128 && Pow2(8) == 256
  {
    assert Pow2(4) == 16;
    assert Pow2(6) == 64;
  }

  /** A byte whose lowest `c` bits are set. */
  function Ones(c: nat): (b: byte)
    requires c <= 8
  {
    PowValues();
    Pow2(c) - 1
  }

  lemma OddQuotient(q: nat, e: nat, h: nat, x: nat)
    requires q > 0 && h > 0 && e == 2 * h && x == q * e
    ensures x > 0 && ((x - 1) / q) % 2 == 1
  {
    assert x - 1 == (e - 1) * q + (q - 1);
    DivUnique(x - 1, q, e - 1, q - 1);
  }

  lemma OnesBits(c: nat, j: nat)
    requires c <= 8
    ensures BitSet(Ones(c), j) <==> j < c
  {
    var q := Pow2(j);
    if j < c {
      var e := Pow2(c - j);
      assert Pow2(c) == q * e by { Pow2Add(j, c - j); }
      OddQuotient(q, e, Pow2(c - j - 1), Pow2(c));
    } else {
      Pow2Monotone(c, j);
      DivUnique(Ones(c), q, 0, Ones(c));
    }
  }

  lemma OnesStep(c: nat)
    requires c < 8
    ensures OrBit(Ones(c), c) == Ones(c + 1)
  {
    OnesBits(c, c);
  }

  /** The bitmap marks block `n`. */
  predicate Marked(b: Block, n: nat)
    requires n < BPB
  {
    BitSet(b[n / 8], n % 8)
  }

  /** Blocks to allocate before block `b` of a file with `m` blocks can be written. */
  function Step(b: nat, m: nat): nat {
    if b < m then 0
    else if b < NDIRECT then 1
    else 1 + (if b == NDIRECT then 1 else 0) + (if (b - NDIRECT) % NINDIRECT == 0 then 1 else 0)
  }

  /** The slots filled on the way to block `b` of a file with `m` blocks, and how many they are. */
  ghost function PathSlots(n: nat, b: nat, m: nat): set<Slot> {
    (if m == NDIRECT then {Table(n)} else {})
    + (if m == b && b >= NDIRECT && (b - NDIRECT) % NINDIRECT == 0 then {Second(n, (b - NDIRECT) / NINDIRECT)} else {})
  }

  ghost function PathCost(b: nat, m: nat): nat {
    (if m == NDIRECT then 1 else 0) + (if m == b && b >= NDIRECT && (b - NDIRECT) % NINDIRECT == 0 then 1 else 0)
  }

  lemma IndirectPath(n: nat, b: nat, m: nat, i: nat, j: nat)
    requires NDIRECT <= b <= m <= b + 1 && m <= FSSIZE
    requires i == (b - NDIRECT) / NINDIRECT && j == b - NDIRECT - i * NINDIRECT
    ensures i < NINDIRECT && j < NINDIRECT && DataSlot(n, b) == Leaf(n, i, j)
    ensures Step(b, m) == PathCost(b, m) + (b + 1 - m)
    ensures m == b ==> PathSlots(n, b, m) + {Leaf(n, i, j)} == StepSlots(n, m)
    ensures m != b ==> PathSlots(n, b, m) == {} && PathCost(b, m) == 0
  {
  }

  /** The blocks that a file growing from `size` to `size'` bytes calls for. */
  function Growth(size: nat, size': nat): int { Total(Blocks(size')) - Total(Blocks(size)) }

  lemma GrowthAdds(a: nat, b: nat, c: nat, d: nat)
    requires b <= c <= d
    ensures Growth(a, b) + Growth(b, c) <= Growth(a, d)
  {
    TotalMonotone(Blocks(c), Blocks(d));
  }

  predicate Room(free: nat, size: nat, size': nat) { free + Growth(size, size') <= FSSIZE }

  lemma StepIsGrowth(size: nat, len: nat)
    requires 0 < len && size % BSIZE + len <= BSIZE
    ensures Step(size / BSIZE, Blocks(size)) == Growth(size, size + len)
  {
    BlocksOfEnd(size, len);
    TotalStep(size / BSIZE);
  }

  /** The space a file grew by is what was taken from the free blocks. */
  lemma SpaceTaken(fs: Fs, fs': Fs, next: nat, n: nat, data: seq<byte>)
    requires Good(fs, next) && Good(fs', next) && Appended(fs, fs', n, data)
    ensures fs'.inodes[n].size == fs.inodes[n].size + |data|
    ensures fs'.free == fs.free + Growth(fs.inodes[n].size, fs'.inodes[n].size)
  {
    AppendedSize(fs, fs', n, data);
    UsedAfter(fs.inodes, fs'.inodes, next, n);
  }

  lemma AppendedSize(fs: Fs, fs': Fs, n: nat, data: seq<byte>)
    requires Appended(fs, fs', n, data)
    ensures fs'.inodes[n].size == fs.inodes[n].size + |data|
  {
    assert |Content(fs', n)| == |Content(fs, n)| + |data|;
  }

  lemma WasRoom(fs: Fs, fs': Fs, next: nat, n: nat, data: seq<byte>, size: nat, size': nat)
    requires Good(fs, next) && Good(fs', next) && Appended(fs, fs', n, data)
    requires size == fs.inodes[n].size && size' == size + |data|
    ensures Room(fs.free, size, size') && fs'.free == fs.free + Growth(size, size')
  {
    SpaceTaken(fs, fs', next, n, data);
  }

  lemma RoomShrinks(free: nat, free': nat, size: nat, offset: nat, offset': nat, size': nat)
    requires free' == free + Growth(size, offset) && offset <= offset' <= size' && !Room(free', offset, offset')
    ensures !Room(free, size, size')
  {
    GrowthAdds(size, offset, offset', size');
  }

  /** When a chunk does not fit, neither does the data it is part of. */
  lemma NoRoom(fs: Fs, now: Fs, next: nat, n: nat, done: seq<byte>, size: nat, offset: nat, offset': nat, size': nat)
    requires Good(fs, next) && Good(now, next) && Appended(fs, now, n, done)
    requires size == fs.inodes[n].size && offset == size + |done| && offset <= offset' <= size'
    requires !Room(now.free, offset, offset')
    ensures !Room(fs.free, size, size')
  {
    SpaceTaken(fs, now, next, n, done);
    RoomShrinks(fs.free, now.free, size, offset, offset', size');
  }

  /** How much of `left` bytes goes into the block where offset `offset` lies. */
  function ChunkLength(offset: nat, left: nat): (n: nat)
    requires left > 0
    ensures 0 < n <= left && offset % BSIZE + n <= BSIZE
  {
    Min(left, (offset / BSIZE + 1) * BSIZE - offset)
  }

  function BlockOffset(offset: nat): (o: nat)
    ensures o == offset % BSIZE
  {
    offset - offset / BSIZE * BSIZE
  }

  /** The block a chunk goes to is the last of the file or the next one, and the sizes fit in 32 bits. */
  lemma RoomForChunk(fs: Fs, next: nat, n: nat, size: nat, size': nat, b: nat, m: nat)
    requires Good(fs, next) && n in fs.inodes && size == fs.inodes[n].size && b == size / BSIZE && m == Blocks(size)
    requires size < size' && size % BSIZE + (size' - size) <= BSIZE
    ensures Covered(fs, n, m, {}) && b <= m <= b + 1 && m <= FSSIZE && b < FSSIZE
    ensures size' < U32 && Total(m) + Step(b, m) == Total(b + 1)
    ensures Room(fs.free, size, size') <==> fs.free + Step(b, m) <= FSSIZE
  {
    BlocksOfEnd(size, size' - size);
    assert SizedAt(fs, n);
    SizeBound(fs, next, n);
    StepIsGrowth(size, size' - size);
  }

  lemma AppendedNothing(fs: Fs, next: nat, n: nat)
    requires Good(fs, next) && n in fs.inodes
    ensures Appended(fs, fs, n, [])
  {
  }

  lemma AppendedUpTo(a: Fs, b: Fs, c: Fs, n: nat, data: seq<byte>, at: nat, end: nat)
    requires at <= end <= |data| && Appended(a, b, n, data[..at]) && Appended(b, c, n, data[at..end])
    ensures Appended(a, c, n, data[..end])
    ensures end == |data| ==> data[..end] == data
  {
  }

  /** Bits of byte `q` that are among the first `n` bits. */
  function OnesIn(q: nat, n: nat): (c: nat)
    ensures c <= 8
  {
    if n <= 8 * q then 0 else Min(8, n - 8 * q)
  }

  /** The first `n` bits of the block are set, and no others. */
  ghost predicate IsBitmap(b: Block, n: nat) {
    forall q {:trigger b[q]} :: 0 <= q < BSIZE ==> b[q] == Ones(OnesIn(q, n))
  }

  lemma BitmapMarks(b: Block, n: nat, k: nat)
    requires IsBitmap(b, n) && k < BPB
    ensures Marked(b, k) <==> k < n
  {
    OnesBits(OnesIn(k / 8, n), k % 8);
  }

  /** With the blocks below `free` marked, the bitmap marks the reserved blocks and the blocks that
      some slot of a file refers to, and no others. */
  lemma BitmapExact(fs: Fs, bitmap: Block, b: nat)
    requires Tidy(fs) && b < FSSIZE && IsBitmap(bitmap, fs.free)
    ensures Marked(bitmap, b) <==>
            b < FIRST_DATA || exists s {:trigger Ptr(fs.disk, fs.inodes, s)} :: Ptr(fs.disk, fs.inodes, s) == b
  {
    assert AllocatedAt(fs, b);
    BitmapMarks(bitmap, fs.free, b);
    if s :| Ptr(fs.disk, fs.inodes, s) == b && b != 0 { PtrRange(fs, s); }
  }

  /** No inode with one link can be read out of a bitmap. */
  lemma BitmapIsNoInode(b: Block, blocks: nat, n: nat, d: DINode)
    requires IsBitmap(b, blocks) && d.nlink == 1
    ensures Decode(InodeBytes(b, n)) != Some(d)
  {
    var s, o := InodeBytes(b, n), InodeOffset(n);
    assert s[0] == b[o] && s[1] == b[o + 1] && s[6] == b[o + 6] && s[7] == b[o + 7];
    PowValues();
    if TypeOf(ReadU16(s, 0)).Some? {
      assert s[1] == 0;
      OnesZero(OnesIn(o + 1, blocks));
      assert s[6] == 0 && s[7] == 0;
    }
  }

  lemma OnesZero(c: nat)
    requires c <= 8
    ensures Ones(c) == 0 <==> c == 0
  {
    PowValues();
    if c > 0 { Pow2Monotone(1, c); }
  }

  ghost predicate Linked(inodes: map<nat, DINode>) {
    forall n {:trigger inodes[n]} :: n in inodes ==> inodes[n].nlink == 1
  }

  /** Writing the bitmap destroys the inodes that were stored in its block: those from 256 on. */
  lemma BitmapOverInodes(disk: seq<Block>, inodes: map<nat, DINode>, bitmap: Block, blocks: nat, n: nat)
    requires |disk| == FSSIZE && Stored(disk, inodes, 0) && Linked(inodes) && IsBitmap(bitmap, blocks)
    requires n in inodes && 0 < n < RESERVED
    ensures StoredAt(disk[BITMAP_START := bitmap], inodes, n) <==> n < INODES
  {
    InodeArea(n);
    assert StoredAt(disk, inodes, n);
    BitmapIsNoInode(bitmap, blocks, n, inodes[n]);
  }

  lemma BitmapWritten(fs: Fs, next: nat, bitmap: Block, blocks: nat)
    requires Tidy(fs) && Numbered(fs.inodes, next) && next <= RESERVED
    requires Stored(fs.disk, fs.inodes, 0) && Linked(fs.inodes)
    requires IsBitmap(bitmap, blocks)
    ensures var fs' := fs.(disk := fs.disk[BITMAP_START := bitmap]);
            && Tidy(fs') && (Good(fs', next) <==> Good(fs, next))
            && (forall n {:trigger Content(fs', n)} :: n in fs.inodes ==> Content(fs', n) == Content(fs, n))
            && (forall n {:trigger StoredAt(fs'.disk, fs'.inodes, n)} :: n in fs.inodes ==>
                  (StoredAt(fs'.disk, fs'.inodes, n) <==> n < INODES))
  {
    var fs' := MetaWrite(fs, BITMAP_START, bitmap);
    forall n | n in fs.inodes ensures StoredAt(fs'.disk, fs'.inodes, n) <==> n < INODES {
      BitmapOverInodes(fs.disk, fs.inodes, bitmap, blocks, n);
    }
  }

  /** Inode 256 goes into the block of the bitmap. The image is well formed with it, until the bitmap is
      written: then this inode is lost, and it alone. */
  lemma InodeInBitmap(fs: Fs, t: FileType, bitmap: Block, blocks: nat) returns (fs': Fs)
    requires Good(fs, INODES) && Stored(fs.disk, fs.inodes, 0) && Linked(fs.inodes) && IsBitmap(bitmap, blocks)
    ensures fs' == Fs(WithInode(fs.disk, INODES, NewInode(t)), fs.inodes[INODES := NewInode(t)], fs.owner, fs.free)
    ensures Good(fs', INODES + 1) && Stored(fs'.disk, fs'.inodes, 0)
    ensures forall n {:trigger StoredAt(fs'.disk[BITMAP_START := bitmap], fs'.inodes, n)} :: n in fs'.inodes ==>
              (StoredAt(fs'.disk[BITMAP_START := bitmap], fs'.inodes, n) <==> n != INODES)
  {
    fs' := FreshInode(fs, INODES, INODES, t);
    forall n | n in fs'.inodes ensures StoredAt(fs'.disk[BITMAP_START := bitmap], fs'.inodes, n) <==> n != INODES {
      BitmapOverInodes(fs'.disk, fs'.inodes, bitmap, blocks, n);
    }
  }

  // ---- Rounding the size of the root directory ----

  function RoundedUp(size: nat): nat { (size / BSIZE + 1) * BSIZE % U32 }

  lemma RoundedBlocks(size: nat)
    requires Blocks(size) <= FSSIZE
    ensures size < RoundedUp(size) == (size / BSIZE + 1) * BSIZE
    ensures Blocks(RoundedUp(size)) == Blocks(size) + if size % BSIZE == 0 then 1 else 0
  {
  }

  lemma RoundedSized(fs: Fs, next: nat, n: nat, fs': Fs)
    requires Good(fs, next) && n in fs.inodes
    requires fs' == fs.(inodes := fs.inodes[n := fs.inodes[n].(size := RoundedUp(fs.inodes[n].size))])
    ensures Tidy(fs') && (SizedAt(fs', n) <==> fs.inodes[n].size % BSIZE != 0)
    ensures forall t {:trigger Ptr(fs'.disk, fs'.inodes, t)} ::
              Ptr(fs'.disk, fs'.inodes, t) == Ptr(fs.disk, fs.inodes, t)
  {
    var size := fs.inodes[n].size;
    var m := Blocks(size);
    assert SizedAt(fs, n);
    SizeBound(fs, next, n);
    RoundedBlocks(size);
    forall t ensures Ptr(fs'.disk, fs'.inodes, t) == Ptr(fs.disk, fs.inodes, t) {
    }
    forall t ensures OwnedAt(fs', t) { assert OwnedAt(fs, t); }
    forall c ensures AllocatedAt(fs', c) { assert AllocatedAt(fs, c); }
    if size % BSIZE == 0 {
      var s, m' := DataSlot(n, m), m + 1;
      DataNeeded(n, m, m);
      DataNeeded(n, m, m');
      assert CoveredAt(fs, n, m, {}, s) && !CoveredAt(fs', n, m', {}, s);
    } else {
      CoveredFrame(fs, fs', n, m);
    }
  }

  /** Rounding the size of file `n` up keeps the image well formed iff it was not a multiple of the block size. */
  lemma RoundedGood(fs: Fs, next: nat, n: nat, fs': Fs)
    requires Good(fs, next) && n in fs.inodes
    requires fs' == fs.(inodes := fs.inodes[n := fs.inodes[n].(size := RoundedUp(fs.inodes[n].size))])
    ensures Good(fs', next) <==> fs.inodes[n].size % BSIZE != 0
    ensures fs.inodes[n].size <= fs'.inodes[n].size && Content(fs', n)[..fs.inodes[n].size] == Content(fs, n)
    ensures forall m {:trigger Content(fs', m)} :: m in fs.inodes && m != n ==> Content(fs', m) == Content(fs, m)
  {
    var size := fs.inodes[n].size;
    SizeBound(fs, next, n);
    RoundedBlocks(size);
    RoundedSized(fs, next, n, fs');
    forall m, k: nat ensures ByteAt(fs', m, k) == ByteAt(fs, m, k) {
    }
    forall m | m in fs.inodes && m != n ensures SizedAt(fs', m) && Content(fs', m) == Content(fs, m) {
      FileFrame(fs, next, fs', m);
    }
    UsedAfter(fs.inodes, fs'.inodes, next, n);
  }

  lemma Rounded(fs: Fs, next: nat, n: nat) returns (fs': Fs)
    requires Good(fs, next) && next <= RESERVED && n in fs.inodes && Stored(fs.disk, fs.inodes, 0)
    ensures IBlock(n) < |fs.disk| && ValidInode(fs.inodes[n])
    ensures var d := fs.inodes[n].(size := RoundedUp(fs.inodes[n].size));
            fs' == fs.(disk := WithInode(fs.disk, n, d), inodes := fs.inodes[n := d])
    ensures Tidy(fs') && Stored(fs'.disk, fs'.inodes, 0) && (Good(fs', next) <==> fs.inodes[n].size % BSIZE != 0)
    ensures fs.inodes[n].size <= fs'.inodes[n].size && Content(fs', n)[..fs.inodes[n].size] == Content(fs, n)
    ensures forall m {:trigger Content(fs', m)} :: m in fs.inodes && m != n ==> Content(fs', m) == Content(fs, m)
  {
    var d := fs.inodes[n].(size := RoundedUp(fs.inodes[n].size));
    InodeArea(n);
    var mid := MetaWrite(fs, IBlock(n), PutInode(fs.disk[IBlock(n)], n, Encode(d)));
    fs' := mid.(inodes := fs.inodes[n := d]);
    RoundedGood(mid, next, n, fs');
    RoundedSized(mid, next, n, fs');
    forall m | m in fs'.inodes && m != n ensures StoredAt(fs.disk, fs'.inodes, m) {
      assert StoredAt(fs.disk, fs.inodes, m);
    }
    StoreInode(fs.disk, fs'.inodes, n);
    forall m | m in fs.inodes ensures Content(mid, m) == Content(fs, m) {
    }
  }

  /** The image under construction. `inodes` and `owner` are what a reader of the disk would find. */
  class FSHandler {
    var disk: seq<Block>
    var freeblock: nat
    var freeinode: nat
    ghost var inodes: map<nat, DINode>
    ghost var owner: map<nat, Slot>

    ghost function View(): Fs
      reads this
    {
      Fs(disk, inodes, owner, freeblock)
    }

    /** Well formed, with every inode in its place on the disk, except that `skip` is not stored yet. */
    ghost predicate Open(skip: nat)
      reads this
    {
      && 1 <= freeinode && Good(View(), freeinode)
      && Stored(disk, inodes, skip) && Linked(inodes)
    }

    ghost predicate Valid()
      reads this
    {
      Open(0)
    }

    /** As valid, but for the sizes of files. */
    ghost predicate Sound()
      reads this
    {
      && 1 <= freeinode && Tidy(View()) && Numbered(inodes, freeinode)
      && Stored(disk, inodes, 0) && Linked(inodes)
    }

    /** A zeroed disk with the reserved blocks set aside. */
    constructor ()
      ensures Valid() && inodes == map[] && freeinode == 1 && freeblock == FIRST_DATA
      ensures |disk| == FSSIZE && forall q :: 0 <= q < FSSIZE ==> disk[q] == Zeroes()
    {
      disk := seq(FSSIZE, _ => Zeroes());
      freeblock := FIRST_DATA;
      freeinode := 1;
      inodes := map[];
      owner := map[];
      new;
      forall s ensures OwnedAt(View(), s) {
      }
      forall b ensures AllocatedAt(View(), b) {
      }
    }

    method ReadInode(inum: nat) returns (d: DINode)
      requires Valid() && inum in inodes && freeinode <= RESERVED
      ensures d == inodes[inum]
    {
      InodeArea(inum);
      assert StoredAt(disk, inodes, inum);
      var r := FromBytes(InodeBytes(disk[IBlock(inum)], inum));
      d := r.value;
    }

    method WriteInode(inum: nat, d: DINode)
      requires ValidInode(d) && IBlock(inum) < |disk|
      modifies this`disk
      ensures disk == WithInode(old(disk), inum, d)
    {
      var q := IBlock(inum);
      var bytes := ToBytes(d, InodeBytes(disk[q], inum));
      disk := disk[q := PutInode(disk[q], inum, bytes)];
    }

    /** The next inode number, with a fresh inode stored for it; fails only beyond the end of the disk. Nothing
        keeps the inode within the inode area. Below 320 it is stored in a reserved block and no file
        changes; from there on `InodeOverData` says what it does to file data. */
    method AllocInode(t: FileType) returns (ok: bool, inum: nat)
      requires Valid()
      modifies this
      ensures ok <==> IBlock(old(freeinode)) < FSSIZE
      ensures ok ==>
                && inum == old(freeinode) && freeinode == inum + 1 && freeblock == old(freeblock) && owner == old(owner)
                && disk == WithInode(old(disk), inum, NewInode(t)) && inodes == old(inodes)[inum := NewInode(t)]
      ensures HeadKept(old(disk), disk)
      ensures old(freeinode) < RESERVED ==>
                && ok && Valid() && Content(View(), inum) == []
                && forall n :: n in old(inodes) ==> Content(View(), n) == old(Content(View(), n))
    {
      inum := freeinode;
      ok := IBlock(inum) < |disk|;
      InodeArea(inum);
      if ok {
        freeinode := freeinode + 1;
        var d := NewInode(t);
        ghost var fs := View();
        WriteInode(inum, d);
        inodes := inodes[inum := d];
        if inum < RESERVED {
          ghost var fs' := FreshInode(fs, inum, inum, t);
          assert View() == fs';
        }
      }
    }

    /** `addresses[k]` gets the next free block. */
    method AllocAddress(inum: nat, d: DINode, k: nat) returns (r: DINode)
      requires Tidy(View()) && inum in inodes && inodes[inum].addresses == d.addresses
      requires k <= NDIRECT && d.addresses[k] == 0 && freeblock < FSSIZE
      modifies this`freeblock, this`inodes, this`owner
      ensures r == d.(addresses := d.addresses[k := old(freeblock)])
      ensures inum in inodes && inodes[inum].addresses == r.addresses
      ensures Grew(old(View()), View(), if k < NDIRECT then Direct(inum, k) else Table(inum))
    {
      ghost var fs := View();
      ghost var fs' := GrowInode(fs, inum, k);
      r := d.(addresses := d.addresses[k := freeblock]);
      freeblock := freeblock + 1;
      inodes, owner := fs'.inodes, fs'.owner;
      assert View() == fs';
    }

    /** Entry `i` of the index table in block `p` gets the next free block. */
    method AllocEntry(p: nat, table: Block, i: nat, ghost parent: Slot, ghost s: Slot) returns (r: Block)
      requires Tidy(View()) && freeblock < FSSIZE && i < NINDIRECT
      requires (parent.Table? && s == Second(parent.inum, i)) || (parent.Second? && s == Leaf(parent.inum, parent.i, i))
      requires Ptr(disk, inodes, parent) == p && p != 0 && Ptr(disk, inodes, s) == 0 && BlockAt(disk, p) == table
      modifies this`disk, this`freeblock, this`owner
      ensures p < |disk| && disk[p] == r && Entry(r, i) == old(freeblock)
      ensures Grew(old(View()), View(), s)
    {
      ghost var fs := View();
      ghost var fs' := GrowTable(fs, parent, s, i);
      r := SetEntry(table, i, freeblock);
      EntryOfSet(table, i, freeblock, i);
      disk := disk[p := r];
      freeblock := freeblock + 1;
      owner := fs'.owner;
      assert View() == fs';
    }

    /** The block that `addresses[k]` refers to, allocated if it was empty. */
    method EnsureAddress(inum: nat, d: DINode, k: nat, ghost fs: Fs, ghost m: nat) returns (ok: bool, r: DINode)
      requires Extended(fs, View(), inum, m, {}, 0) && inodes[inum].addresses == d.addresses && k <= NDIRECT
      modifies this`freeblock, this`inodes, this`owner
      ensures ok <==> d.addresses[k] != 0 || old(freeblock) < FSSIZE
      ensures r == d.(addresses := r.addresses) && |r.addresses| == NDIRECT + 1
      ensures ok ==>
                var s := if k < NDIRECT then Direct(inum, k) else Table(inum);
                && r.addresses[k] == Ptr(disk, inodes, s) != 0
                && inum in inodes && inodes[inum].addresses == r.addresses
                && if d.addresses[k] == 0 then Extended(fs, View(), inum, m, {s}, 1)
                   else Extended(fs, View(), inum, m, {}, 0)
    {
      ok, r := true, d;
      if r.addresses[k] == 0 {
        ok := freeblock < FSSIZE;
        if ok {
          ghost var before := View();
          ghost var s := if k < NDIRECT then Direct(inum, k) else Table(inum);
          r := AllocAddress(inum, d, k);
          ExtendedStep(fs, before, View(), inum, m, {}, 0, s);
          assert {} + {s} == {s};
        }
      }
    }

    /** The block that entry `i` of the index table in block `p` refers to, allocated if it was empty. */
    method EnsureEntry(p: nat, i: nat, ghost parent: Slot, ghost s: Slot, ghost fs: Fs, ghost n: nat, ghost m: nat,
                       ghost extra: set<Slot>, ghost taken: nat) returns (ok: bool, q: nat)
      requires Extended(fs, View(), n, m, extra, taken) && i < NINDIRECT && parent.inum == n
      requires (parent.Table? && s == Second(n, i)) || (parent.Second? && s == Leaf(n, parent.i, i))
      requires Ptr(disk, inodes, parent) == p && p != 0
      modifies this`disk, this`freeblock, this`owner
      ensures ok <==> old(Ptr(disk, inodes, s)) != 0 || old(freeblock) < FSSIZE
      ensures ok ==>
                && q == Ptr(disk, inodes, s) != 0
                && if old(Ptr(disk, inodes, s)) == 0 then Extended(fs, View(), n, m, extra + {s}, taken + 1)
                   else Extended(fs, View(), n, m, extra, taken)
    {
      PtrRange(View(), parent);
      var table := disk[p];
      ok, q := true, Entry(table, i);
      assert q == Ptr(disk, inodes, s);
      if q == 0 {
        ok := freeblock < FSSIZE;
        if ok {
          ghost var before := View();
          q := freeblock;
          table := AllocEntry(p, table, i, parent, s);
          ExtendedStep(fs, before, View(), n, m, extra, taken, s);
        }
      }
    }

    method FindDirect(inum: nat, d: DINode, b: nat, ghost m: nat) returns (ok: bool, r: DINode, sector: nat)
      requires Tidy(View()) && inum in inodes && inodes[inum].addresses == d.addresses
      requires Covered(View(), inum, m, {}) && b <= m <= b + 1 && b < NDIRECT
      modifies this`freeblock, this`inodes, this`owner
      ensures ok <==> old(freeblock) + Step(b, m) <= FSSIZE
      ensures r == d.(addresses := r.addresses)
      ensures ok ==>
                && Extended(old(View()), View(), inum, b + 1, {}, Step(b, m))
                && sector == DataPtr(View(), inum, b) != 0 && inodes[inum].addresses == r.addresses
    {
      ghost var fs := View();
      ExtendedStart(fs, inum, m);
      assert CoveredAt(fs, inum, m, {}, Direct(inum, b));
      ok, r := EnsureAddress(inum, d, b, fs, m);
      sector := r.addresses[b];
      if ok && m == b { ExtendedDone(fs, View(), inum, m, {Direct(inum, b)}, 1); }
    }

    /** The first-level table. */
    method FindTable(inum: nat, d: DINode, ghost b: nat, ghost m: nat, ghost fs: Fs) returns (ok: bool, r: DINode)
      requires Extended(fs, View(), inum, m, {}, 0) && inodes[inum].addresses == d.addresses
      requires b <= m <= b + 1 && NDIRECT <= b
      modifies this`freeblock, this`inodes, this`owner
      ensures ok <==> old(freeblock) + (if m == NDIRECT then 1 else 0) <= FSSIZE
      ensures r == d.(addresses := r.addresses) && |r.addresses| == NDIRECT + 1
      ensures ok ==>
                && Extended(fs, View(), inum, m, if m == NDIRECT then {Table(inum)} else {},
                            if m == NDIRECT then 1 else 0)
                && r.addresses[NDIRECT] == Ptr(disk, inodes, Table(inum)) != 0 && inodes[inum].addresses == r.addresses
    {
      assert CoveredAt(View(), inum, m, {}, Table(inum));
      ok, r := EnsureAddress(inum, d, NDIRECT, fs, m);
    }

    /** The second-level table on the way to block `b`. */
    method FindSecond(p: nat, i: nat, ghost b: nat, ghost fs: Fs, ghost n: nat, ghost m: nat) returns (ok: bool, q: nat)
      requires Extended(fs, View(), n, m, if m == NDIRECT then {Table(n)} else {}, if m == NDIRECT then 1 else 0)
      requires p == Ptr(disk, inodes, Table(n)) != 0
      requires b <= m <= b + 1 && NDIRECT <= b && i == (b - NDIRECT) / NINDIRECT < NINDIRECT
      modifies this`disk, this`freeblock, this`owner
      ensures ok <==> fs.free + PathCost(b, m) <= FSSIZE
      ensures ok ==>
                && q == Ptr(disk, inodes, Second(n, i)) != 0
                && Extended(fs, View(), n, m, PathSlots(n, b, m), PathCost(b, m))
    {
      ghost var extra, taken := if m == NDIRECT then {Table(n)} else {}, if m == NDIRECT then 1 else 0;
      assert CoveredAt(View(), n, m, extra, Second(n, i));
      ok, q := EnsureEntry(p, i, Table(n), Second(n, i), fs, n, m, extra, taken);
    }

    /** Block `b` itself. */
    method FindLeaf(p: nat, i: nat, j: nat, ghost b: nat, ghost fs: Fs, ghost n: nat, ghost m: nat)
      returns (ok: bool, q: nat)
      requires NDIRECT <= b <= m <= b + 1 && m <= FSSIZE
      requires i == (b - NDIRECT) / NINDIRECT && j == b - NDIRECT - i * NINDIRECT
      requires Extended(fs, View(), n, m, PathSlots(n, b, m), PathCost(b, m))
      requires p == Ptr(disk, inodes, Second(n, i)) != 0
      modifies this`disk, this`freeblock, this`owner
      ensures ok <==> fs.free + Step(b, m) <= FSSIZE
      ensures ok ==> q == DataPtr(View(), n, b) != 0 && Extended(fs, View(), n, b + 1, {}, Step(b, m))
    {
      ghost var s, extra, taken := Leaf(n, i, j), PathSlots(n, b, m), PathCost(b, m);
      IndirectPath(n, b, m, i, j);
      assert CoveredAt(View(), n, m, extra, s);
      ok, q := EnsureEntry(p, j, Second(n, i), s, fs, n, m, extra, taken);
      if ok && m == b { ExtendedDone(fs, View(), n, m, extra + {s}, taken + 1); }
    }

    method FindIndirect(inum: nat, d: DINode, b: nat, ghost m: nat) returns (ok: bool, r: DINode, sector: nat)
      requires Tidy(View()) && inum in inodes && inodes[inum].addresses == d.addresses
      requires Covered(View(), inum, m, {}) && b <= m <= b + 1 && NDIRECT <= b && m <= FSSIZE
      modifies this`disk, this`freeblock, this`inodes, this`owner
      ensures ok <==> old(freeblock) + Step(b, m) <= FSSIZE
      ensures r == d.(addresses := r.addresses)
      ensures ok ==>
                && Extended(old(View()), View(), inum, b + 1, {}, Step(b, m))
                && sector == DataPtr(View(), inum, b) != 0 && inodes[inum].addresses == r.addresses
    {
      ghost var fs := View();
      ExtendedStart(fs, inum, m);
      sector := 0;
      var blockNum := b - NDIRECT;
      var i := blockNum / NINDIRECT;
      var j := blockNum - i * NINDIRECT;
      IndirectPath(inum, b, m, i, j);
      ok, r := FindTable(inum, d, b, m, fs);
      if ok {
        var second: nat;
        ok, second := FindSecond(r.addresses[NDIRECT], i, b, fs, inum, m);
        if ok {
          ok, sector := FindLeaf(second, i, j, b, fs, inum, m);
        }
      }
    }

    /** The sector holding block `b` of file `inum`, which has `m` blocks; it is allocated, with the
        index tables on the way to it, when `b` is the next block. Fails exactly when the disk is full. */
    method FindSector(inum: nat, d: DINode, b: nat, ghost m: nat) returns (ok: bool, r: DINode, sector: nat)
      requires Tidy(View()) && inum in inodes && inodes[inum].addresses == d.addresses
      requires Covered(View(), inum, m, {}) && b <= m <= b + 1 && m <= FSSIZE
      modifies this`disk, this`freeblock, this`inodes, this`owner
      ensures ok <==> old(freeblock) + Step(b, m) <= FSSIZE
      ensures r == d.(addresses := r.addresses)
      ensures ok ==>
                && Extended(old(View()), View(), inum, b + 1, {}, Step(b, m))
                && sector == DataPtr(View(), inum, b) != 0 && inodes[inum].addresses == r.addresses
    {
      if b < NDIRECT {
        ok, r, sector := FindDirect(inum, d, b, m);
      } else {
        ok, r, sector := FindIndirect(inum, d, b, m);
      }
    }

    /** Put `chunk` at offset `o` of the block at the end of the file, read, patched and written back. */
    method WriteChunk(inum: nat, sector: nat, o: nat, chunk: seq<byte>,
                      ghost fs: Fs, ghost b: nat, ghost m: nat, ghost size: nat, ghost taken: nat)
      requires Good(fs, freeinode) && 1 <= freeinode <= RESERVED
      requires Stored(fs.disk, fs.inodes, inum) && Linked(fs.inodes)
      requires inum in fs.inodes && fs.inodes[inum].size == size && b == size / BSIZE && m == b + 1 && b < FSSIZE
      requires o == size % BSIZE && 0 < |chunk| && o + |chunk| <= BSIZE && size + |chunk| < U32
      requires Extended(fs, View(), inum, m, {}, taken) && taken + Total(Blocks(size)) == Total(m)
      requires sector == DataPtr(View(), inum, b) != 0
      modifies this`disk, this`inodes
      ensures Open(inum) && Appended(fs, View(), inum, chunk)
      ensures inodes[inum] == old(inodes)[inum].(size := size + |chunk|)
    {
      ghost var mid := View();
      PtrRange(mid, DataSlot(inum, b));
      var buf := disk[sector];
      var blk: Block := buf[..o] + chunk + buf[o + |chunk|..];
      assert Patched(buf, blk, o, chunk);
      ghost var fs' := AppendStep(fs, mid, freeinode, inum, b, m, chunk, blk, size, taken);
      disk := disk[sector := blk];
      inodes := fs'.inodes;
      assert View() == fs';
      StoredFrame(fs.disk, disk, fs.inodes, inodes, inum);
    }

    /** One turn of the append loop: the data that goes into the block at the end of the file. */
    method AppendChunk(inum: nat, d: DINode, offset: nat, chunk: seq<byte>, ghost offset': nat)
      returns (ok: bool, r: DINode)
      requires Open(inum) && inum in inodes && offset < U32
      requires inodes[inum] == d.(size := offset) && freeinode <= RESERVED
      requires 0 < |chunk| && offset % BSIZE + |chunk| <= BSIZE && offset' == offset + |chunk|
      modifies this`disk, this`freeblock, this`inodes, this`owner
      ensures ok <==> Room(old(freeblock), offset, offset')
      ensures ok ==>
                && Open(inum) && Appended(old(View()), View(), inum, chunk)
                && offset' < U32 && inodes[inum] == r.(size := offset')
    {
      ghost var fs, m := View(), Blocks(offset);
      var b := offset / BSIZE;
      RoomForChunk(fs, freeinode, inum, offset, offset', b, m);
      var sector: nat;
      ok, r, sector := FindSector(inum, d, b, m);
      if ok {
        WriteChunk(inum, sector, BlockOffset(offset), chunk, fs, b, b + 1, offset, Step(b, m));
      }
    }

    /** Record the size of the file edited in memory and write its inode back. */
    method CloseInode(inum: nat, d: DINode, offset: nat)
      requires Open(inum) && inum in inodes && offset < U32
      requires inodes[inum] == d.(size := offset) && freeinode <= RESERVED
      modifies this`disk
      ensures Valid() && Appended(old(View()), View(), inum, [])
    {
      var r := d.(size := offset % U32);
      assert r == inodes[inum];
      ghost var fs := View();
      ghost var fs' := SealInode(fs, freeinode, inum);
      WriteInode(inum, r);
      assert View() == fs';
    }

    /** The body of the append loop, `at` bytes into `data`: one chunk, or no room for all of it. */
    method AppendNext(inum: nat, dinode: DINode, offset: nat, data: seq<byte>, at: nat,
                      ghost fs: Fs, ghost size: nat, ghost size': nat)
      returns (ok: bool, d: DINode, offset': nat, end: nat)
      requires Open(inum) && inum in inodes && offset < U32
      requires inodes[inum] == dinode.(size := offset) && freeinode <= RESERVED
      requires at < |data| && Good(fs, freeinode) && Appended(fs, View(), inum, data[..at])
      requires size == fs.inodes[inum].size && offset == size + at && size' == size + |data|
      modifies this`disk, this`freeblock, this`inodes, this`owner
      ensures at < end <= |data| && offset' == size + end
      ensures !ok ==> !Room(fs.free, size, size')
      ensures ok ==>
                && Open(inum) && Appended(fs, View(), inum, data[..end])
                && offset' < U32 && inodes[inum] == d.(size := offset')
    {
      var n1 := ChunkLength(offset, |data| - at);
      ghost var before := View();
      end, offset' := at + n1, offset + n1;
      ok, d := AppendChunk(inum, dinode, offset, data[at..end], offset');
      if ok {
        AppendedUpTo(fs, before, View(), inum, data, at, end);
      } else {
        NoRoom(fs, before, freeinode, inum, data[..at], size, offset, offset', size');
      }
    }

    /** The append loop: `data` goes to the end of the file, block after block. */
    method AppendBlocks(inum: nat, dinode: DINode, data: seq<byte>, ghost size: nat, ghost size': nat)
      returns (ok: bool, d: DINode, offset: nat)
      requires Open(inum) && inum in inodes && inodes[inum] == dinode && freeinode <= RESERVED
      requires size == dinode.size && size' == size + |data|
      modifies this`disk, this`freeblock, this`inodes, this`owner
      ensures ok <==> Room(old(freeblock), size, size')
      ensures ok ==>
                && Open(inum) && Appended(old(View()), View(), inum, data)
                && offset < U32 && inodes[inum] == d.(size := offset)
    {
      ghost var fs := View();
      d, offset := dinode, dinode.size;
      var at: nat := 0;
      AppendedNothing(fs, freeinode, inum);
      while at < |data|
        invariant at <= |data| && offset == size + at < U32
        invariant Open(inum) && inum in inodes && inodes[inum] == d.(size := offset)
        invariant Appended(fs, View(), inum, data[..at])
      {
        ok, d, offset, at := AppendNext(inum, d, offset, data, at, fs, size, size');
        if !ok { return; }
      }
      assert data[..at] == data;
      WasRoom(fs, View(), freeinode, inum, data, size, size');
      ok := true;
    }

    /** Add `data` to the end of file `inum`. Fails exactly when the blocks it calls for, index tables
        included, are not there; when it succeeds the file grew by `data` and no other file changed. */
    method AppendDataToInode(inum: nat, data: seq<byte>) returns (ok: bool)
      requires Valid() && inum in inodes && freeinode <= RESERVED
      modifies this
      ensures ok <==> Room(old(freeblock), old(inodes[inum].size), old(inodes[inum].size) + |data|)
      ensures ok ==>
                && Valid() && freeinode == old(freeinode) && Appended(old(View()), View(), inum, data)
                && freeblock == old(freeblock) + Growth(old(inodes[inum].size), inodes[inum].size)
    {
      ghost var fs := View();
      var d := ReadInode(inum);
      var offset: nat;
      ok, d, offset := AppendBlocks(inum, d, data, d.size, d.size + |data|);
      if ok {
        ghost var done := View();
        CloseInode(inum, d, offset);
        AppendedCompose(fs, done, View(), inum, data, []);
        assert data + [] == data;
        SpaceTaken(fs, View(), freeinode, inum, data);
      }
    }

    /** The last step for the root directory: its recorded size becomes the next multiple of the block
        size. The image stays well formed exactly when the size was not a multiple already; otherwise
        the directory claims a block it does not have. */
    method RoundSize(inum: nat)
      requires Valid() && inum in inodes && freeinode <= RESERVED
      modifies this`disk, this`inodes
      ensures Sound() && (Valid() <==> old(inodes[inum].size) % BSIZE != 0)
      ensures inodes.Keys == old(inodes).Keys && inodes[inum].size == RoundedUp(old(inodes[inum].size))
      ensures HeadKept(old(disk), disk)
      ensures old(inodes[inum].size) <= inodes[inum].size
              && Content(View(), inum)[..old(inodes[inum].size)] == old(Content(View(), inum))
      ensures forall n :: n in inodes && n != inum ==>
                inodes[n] == old(inodes[n]) && Content(View(), n) == old(Content(View(), n))
    {
      ghost var fs := View();
      var d := ReadInode(inum);
      ghost var fs' := Rounded(fs, freeinode, inum);
      WriteInode(inum, d.(size := RoundedUp(d.size)));
      inodes := fs'.inodes;
      assert View() == fs';
    }

    /** Write the bitmap: exactly the first `blocks` blocks are marked. Fails when they are more than
        the bitmap has bits, and writes nothing when there are none. No file changes, but the inodes
        from 256 on, which were stored in the block of the bitmap, are gone from the disk. */
    method AllocDiskBlock(blocks: int) returns (ok: bool)
      requires Sound() && freeinode <= RESERVED
      modifies this`disk
      ensures ok <==> blocks <= BPB
      ensures Tidy(View()) && (Good(View(), freeinode) <==> old(Good(View(), freeinode)))
      ensures forall n :: n in inodes ==> Content(View(), n) == old(Content(View(), n))
      ensures blocks <= 0 ==> disk == old(disk)
      ensures HeadKept(old(disk), disk)
      ensures blocks > 0 ==> IsBitmap(disk[BITMAP_START], blocks)
      ensures blocks > 0 ==> forall n :: n in inodes ==> (StoredAt(disk, inodes, n) <==> n < INODES)
    {
      var used := blocks;
      var blockOffset := 0;
      while blockOffset < NBITMAP
        invariant 0 <= blockOffset <= NBITMAP && used == blocks - blockOffset * BPB
        invariant blockOffset == 0 ==> disk == old(disk)
        invariant blockOffset > 0 ==> blocks > 0 && |disk| == FSSIZE && IsBitmap(disk[BITMAP_START], blocks)
        invariant blockOffset > 0 ==> disk == old(disk)[BITMAP_START := disk[BITMAP_START]]
      {
        if used <= 0 { return true; }
        var nbits := if used > BPB then BPB else used;
        var buf := MarkBits(nbits);
        assert IsBitmap(buf, blocks);
        disk := disk[BITMAP_START + blockOffset := buf];
        used := used - BPB;
        blockOffset := blockOffset + 1;
      }
      BitmapWritten(old(View()), freeinode, disk[BITMAP_START], blocks);
      ok := used <= 0;
    }

    /** Write one of the blocks before the inode area. */
    method WriteReserved(q: nat, buf: Block)
      requires Valid() && 0 < q < INODE_START
      modifies this`disk
      ensures Valid() && disk == old(disk)[q := buf]
      ensures forall n :: n in inodes ==> Content(View(), n) == old(Content(View(), n))
    {
      ghost var fs := View();
      ghost var fs' := MetaWrite(fs, q, buf);
      disk := disk[q := buf];
      assert View() == fs';
      assert Stored(disk, inodes, 0) by {
        forall n | n in inodes ensures StoredAt(disk, inodes, n) {
          assert StoredAt(fs.disk, inodes, n);
          InodeArea(n);
        }
      }
    }
  }

  /** A block with its first `nbits` bits set, one at a time. */
  method MarkBits(nbits: nat) returns (buf: Block)
    requires nbits <= BPB
    ensures IsBitmap(buf, nbits) && forall n :: 0 <= n < BPB ==> (Marked(buf, n) <==> n < nbits)
  {
    buf := Zeroes();
    for bi := 0 to nbits
      invariant IsBitmap(buf, bi)
    {
      ghost var before := buf;
      var index := bi / 8;
      assert before[index] == Ones(OnesIn(index, bi));
      OnesStep(bi % 8);
      buf := buf[index := OrBit(buf[index], bi % 8)];
      forall q | 0 <= q < BSIZE ensures buf[q] == Ones(OnesIn(q, bi + 1)) {
        assert before[q] == Ones(OnesIn(q, bi));
      }
    }
    forall n | 0 <= n < BPB ensures Marked(buf, n) <==> n < nbits { BitmapMarks(buf, nbits, n); }
  }
}
