/** The whole run of the image builder: a root directory and one file per argument. */
module Build {
  import opened Common
  import opened Inode
  import opened Image
  import opened Mkfs

  const DIRSIZE: nat := 14
  const ROOT: nat := 1
  const SLASH: byte := 47
  const DOT: byte := 46

  datatype Input = Input(name: seq<byte>, data: seq<byte>)

  /** A directory entry: the inode number and the name, padded with zeroes. */
  function DirEntry(inum: nat, name: seq<byte>): (e: seq<byte>)
    requires |name| <= DIRSIZE
    ensures |e| == 16
  {
    U16Bytes(inum) + name + seq(DIRSIZE - |name|, _ => 0)
  }

  predicate Named(f: Input) { 0 < |f.name| <= DIRSIZE && SLASH !in f.name }

  /** The root directory: itself twice, then the files, numbered from 2. */
  function Directory(files: seq<Input>): (d: seq<byte>)
    requires forall f :: f in files ==> Named(f)
    ensures |d| == 16 * (|files| + 2)
  {
    if files == [] then DirEntry(ROOT, [DOT]) + DirEntry(ROOT, [DOT, DOT])
    else
      var last := files[|files| - 1];
      assert Named(last);
      Directory(files[..|files| - 1]) + DirEntry(|files| + 1, last.name)
  }

  /** The entry of a directory at `at`: the inode number, low byte first, and the name, filled up with zeroes. */
  ghost predicate EntryIs(d: seq<byte>, at: nat, inum: nat, name: seq<byte>) {
    && |name| <= 14 && at + 16 <= |d| && d[at] as int + 256 * d[at + 1] as int == inum
    && d[at + 2..at + 2 + |name|] == name
    && forall k {:trigger d[k]} :: at + 2 + |name| <= k < at + 16 ==> d[k] == 0
  }

  lemma EntryKept(d: seq<byte>, more: seq<byte>, at: nat, inum: nat, name: seq<byte>)
    requires EntryIs(d, at, inum, name)
    ensures EntryIs(d + more, at, inum, name)
  {
    assert (d + more)[at + 2..at + 2 + |name|] == name;
  }

  lemma EntryLast(d: seq<byte>, inum: nat, name: seq<byte>)
    requires |name| <= DIRSIZE && inum < 65536
    ensures EntryIs(d + DirEntry(inum, name), |d|, inum, name)
  {
    var e := d + DirEntry(inum, name);
    assert e[|d| + 2..|d| + 2 + |name|] == name;
  }

  ghost predicate EntryOf(d: seq<byte>, files: seq<Input>, i: nat)
    requires i < |files|
  {
    EntryIs(d, 32 + 16 * i, i + 2, files[i].name)
  }

  /** The bytes of the root directory: `.` and `..`, and then for every file its inode number and its name. */
  lemma {:induction false} DirectoryEntries(files: seq<Input>)
    requires |files| < 65534 && forall f :: f in files ==> Named(f)
    ensures EntryIs(Directory(files), 0, 1, [DOT]) && EntryIs(Directory(files), 16, 1, [DOT, DOT])
    ensures forall i {:trigger EntryOf(Directory(files), files, i)} :: 0 <= i < |files| ==>
              EntryOf(Directory(files), files, i)
    decreases |files|, 1
  {
    if files == [] {
      EntryLast([], ROOT, [DOT]);
      EntryLast(DirEntry(ROOT, [DOT]), ROOT, [DOT, DOT]);
      assert [] + DirEntry(ROOT, [DOT]) == DirEntry(ROOT, [DOT]);
      EntryKept(DirEntry(ROOT, [DOT]), DirEntry(ROOT, [DOT, DOT]), 0, 1, [DOT]);
    } else {
      DirectoryMore(files);
    }
  }

  lemma {:induction false} DirectoryMore(files: seq<Input>)
    requires 0 < |files| < 65534 && forall f :: f in files ==> Named(f)
    ensures EntryIs(Directory(files), 0, 1, [DOT]) && EntryIs(Directory(files), 16, 1, [DOT, DOT])
    ensures forall i {:trigger EntryOf(Directory(files), files, i)} :: 0 <= i < |files| ==>
              EntryOf(Directory(files), files, i)
    decreases |files|, 0
  {
    var n := |files| - 1;
    var rest, last := files[..n], files[n];
    assert Named(last);
    var r, e := Directory(rest), DirEntry(n + 2, last.name);
    DirectoryEntries(rest);
    EntryKept(r, e, 0, 1, [DOT]);
    EntryKept(r, e, 16, 1, [DOT, DOT]);
    EntryLast(r, n + 2, last.name);
    assert EntryOf(r + e, files, n);
    EntriesKept(r, e, rest, files);
  }

  lemma EntriesKept(r: seq<byte>, e: seq<byte>, rest: seq<Input>, files: seq<Input>)
    requires |rest| <= |files| && rest == files[..|rest|]
    requires forall i {:trigger EntryOf(r, rest, i)} :: 0 <= i < |rest| ==> EntryOf(r, rest, i)
    ensures forall i {:trigger EntryOf(r + e, files, i)} :: 0 <= i < |rest| ==> EntryOf(r + e, files, i)
  {
    forall i | 0 <= i < |rest| ensures EntryOf(r + e, files, i) {
      assert EntryOf(r, rest, i);
      EntryKept(r, e, 32 + 16 * i, i + 2, files[i].name);
    }
  }

  ghost predicate HoldsAt(fs: Fs, files: seq<Input>, i: nat)
    requires i < |files|
  {
    i + 2 in fs.inodes && Content(fs, i + 2) == files[i].data
  }

  /** The image holds the files, and a directory that lists them. */
  ghost predicate Holds(fs: Fs, files: seq<Input>) {
    && (forall f :: f in files ==> Named(f))
    && ROOT in fs.inodes && Content(fs, ROOT) == Directory(files)
    && forall i {:trigger HoldsAt(fs, files, i)} :: 0 <= i < |files| ==> HoldsAt(fs, files, i)
  }

  /** Blocks taken by the root directory and the files, index tables included. */
  function Cost(files: seq<Input>): nat {
    Total(Blocks(16 * (|files| + 2))) + DataCost(files)
  }

  function DataCost(files: seq<Input>): nat {
    if files == [] then 0 else DataCost(files[..|files| - 1]) + Total(Blocks(|files[|files| - 1].data|))
  }

  lemma CostMore(files: seq<Input>, f: Input)
    ensures Cost(files + [f]) == Cost(files) + Growth(16 * (|files| + 2), 16 * (|files| + 3)) + Growth(0, |f.data|)
  {
    var more := files + [f];
    assert more[..|more| - 1] == files;
  }

  /** A file fits when its directory entry fits and then its contents do. */
  lemma FileFits(files: seq<Input>, f: Input, free: nat, r: nat, r': nat)
    requires free == FIRST_DATA + Cost(files) && r == 16 * (|files| + 2) && r' == r + 16
    ensures FIRST_DATA + Cost(files + [f]) <= FSSIZE <==>
            Room(free, r, r') && 0 <= free + Growth(r, r') && Room(free + Growth(r, r'), 0, |f.data|)
    ensures FIRST_DATA + Cost(files + [f]) == free + Growth(r, r') + Growth(0, |f.data|)
  {
    CostMore(files, f);
    TotalMonotone(Blocks(r), Blocks(r'));
  }

  lemma {:induction false} CostPrefix(files: seq<Input>, k: nat)
    requires k <= |files|
    ensures Cost(files[..k]) <= Cost(files)
    decreases |files|
  {
    var n := |files|;
    if k < n {
      CostPrefix(files[..n - 1], k);
      assert files[..n - 1][..k] == files[..k];
      assert files[..n - 1] + [files[n - 1]] == files;
      CostMore(files[..n - 1], files[n - 1]);
      TotalMonotone(Blocks(16 * (n + 1)), Blocks(16 * (n + 2)));
    } else {
      assert files[..k] == files;
    }
  }

  /** The image holds the files, nothing else takes space, and the root directory starts in the first data block. */
  ghost predicate Built(h: FSHandler, files: seq<Input>)
    reads h
  {
    && h.Valid() && h.freeinode == |files| + 2 && Holds(h.View(), files)
    && h.freeblock == FIRST_DATA + Cost(files) && Addr(h.inodes, ROOT, 0) == FIRST_DATA
  }

  /** The first block taken is the first data block. */
  lemma FirstBlock(fs: Fs, next: nat, n: nat)
    requires Good(fs, next) && n in fs.inodes && fs.inodes[n].size > 0 && fs.free == FIRST_DATA + 1
    ensures Addr(fs.inodes, n, 0) == FIRST_DATA
  {
    assert SizedAt(fs, n);
    assert CoveredAt(fs, n, Blocks(fs.inodes[n].size), {}, Direct(n, 0));
    PtrRange(fs, Direct(n, 0));
  }

  /** The root directory with its two entries for itself. */
  method AppendRoot(h: FSHandler) returns (ok: bool)
    requires h.Valid() && h.freeinode == ROOT && h.freeblock == FIRST_DATA
    modifies h
    ensures ok && Built(h, []) && HeadKept(old(h.disk), h.disk)
  {
    var root: nat;
    ok, root := h.AllocInode(FileType.Directory);
    ok := h.AppendDataToInode(root, DirEntry(root, [DOT]));
    assert |Content(h.View(), root)| == 16;
    FirstBlock(h.View(), h.freeinode, root);
    ok := h.AppendDataToInode(root, DirEntry(root, [DOT, DOT]));
    assert |Content(h.View(), root)| == 32;
  }

  /** A file's contents, a buffer at a time. */
  method AppendContents(h: FSHandler, inum: nat, data: seq<byte>, ghost size: nat, ghost size': nat) returns (ok: bool)
    requires h.Valid() && h.freeinode <= RESERVED && inum in h.inodes
    requires size == h.inodes[inum].size && size' == size + |data|
    modifies h
    ensures ok <==> Room(old(h.freeblock), size, size')
    ensures ok ==>
              && h.Valid() && h.freeinode == old(h.freeinode) && Appended(old(h.View()), h.View(), inum, data)
              && h.freeblock == old(h.freeblock) + Growth(size, size')
  {
    ghost var fs := h.View();
    AppendedNothing(fs, h.freeinode, inum);
    var pos := 0;
    while pos < |data|
      invariant 0 <= pos <= |data| && h.Valid() && h.freeinode == old(h.freeinode) && inum in h.inodes
      invariant Appended(fs, h.View(), inum, data[..pos])
    {
      var end := Min(pos + BSIZE, |data|);
      ghost var before, offset, offset' := h.View(), h.inodes[inum].size, size + end;
      AppendedSize(fs, before, inum, data[..pos]);
      ok := h.AppendDataToInode(inum, data[pos..end]);
      if !ok {
        NoRoom(fs, before, old(h.freeinode), inum, data[..pos], size, offset, offset', size');
        return;
      }
      AppendedUpTo(fs, before, h.View(), inum, data, pos, end);
      pos := end;
    }
    assert data[..pos] == data;
    WasRoom(fs, h.View(), h.freeinode, inum, data, size, size');
    ok := true;
  }

  lemma HoldsMore(a: Fs, b: Fs, c: Fs, d: Fs, files: seq<Input>, f: Input, n: nat)
    requires Holds(a, files) && Named(f) && n == |files| + 2 && n !in a.inodes && ROOT in a.inodes
    requires n in b.inodes && Content(b, n) == []
    requires forall m :: m in a.inodes ==> m in b.inodes && Content(b, m) == Content(a, m)
    requires Appended(b, c, ROOT, DirEntry(n, f.name)) && Appended(c, d, n, f.data)
    ensures Holds(d, files + [f])
  {
    var more := files + [f];
    assert more[..|more| - 1] == files;
    assert c.inodes[n] == b.inodes[n];
    assert d.inodes[ROOT] == c.inodes[ROOT];
    forall i | 0 <= i < |more| ensures HoldsAt(d, more, i) {
      if i < |files| {
        assert HoldsAt(a, files, i);
        assert c.inodes[i + 2] == b.inodes[i + 2];
        assert d.inodes[i + 2] == c.inodes[i + 2];
      }
    }
  }

  /** One file: an inode, a directory entry in the root, and the contents. Fails exactly when the name
      is not acceptable or the file does not fit. */
  method AppendFile(h: FSHandler, f: Input, ghost files: seq<Input>) returns (ok: bool)
    requires Built(h, files) && |files| + 2 < RESERVED
    modifies h
    ensures ok <==> Named(f) && FIRST_DATA + Cost(files + [f]) <= FSSIZE
    ensures ok ==> Built(h, files + [f]) && HeadKept(old(h.disk), h.disk)
  {
    if |f.name| == 0 || SLASH in f.name { return false; }
    ghost var a := h.View();
    var inum: nat;
    ok, inum := h.AllocInode(FileType.File);
    if |f.name| > DIRSIZE { return false; }
    ghost var b := h.View();
    ghost var r, r' := 16 * (|files| + 2), 16 * (|files| + 2) + 16;
    FileFits(files, f, h.freeblock, r, r');
    assert b.inodes[ROOT].size == r by { assert |Content(b, ROOT)| == |Content(a, ROOT)|; }
    var e := DirEntry(inum, f.name);
    ok := h.AppendDataToInode(ROOT, e);
    if ok {
      ghost var c := h.View();
      assert c.inodes[ROOT].size == r' by { assert |Content(c, ROOT)| == |Content(b, ROOT)| + |e|; }
      assert c.inodes[inum] == b.inodes[inum];
      ok := AppendContents(h, inum, f.data, 0, |f.data|);
      if ok {
        HoldsMore(a, b, c, h.View(), files, f, inum);
        HeadThrough(a.disk, b.disk, c.disk);
        HeadThrough(a.disk, c.disk, h.disk);
      }
    }
  }

  /** The finished image: the files and the directory read back, the bitmap marks the blocks in use, the
      inodes below 256 are on the disk, and the image is well formed unless the directory fills whole blocks. */
  ghost predicate Finished(h: FSHandler, files: seq<Input>)
    reads h
  {
    && (forall f :: f in files ==> Named(f))
    && Tidy(h.View()) && Numbered(h.inodes, |files| + 2)
    && (Good(h.View(), |files| + 2) <==> 16 * (|files| + 2) % BSIZE != 0)
    && ROOT in h.inodes && Directory(files) <= Content(h.View(), ROOT)
    && (forall i {:trigger HoldsAt(h.View(), files, i)} :: 0 <= i < |files| ==> HoldsAt(h.View(), files, i))
    && IsBitmap(h.disk[BITMAP_START], h.freeblock)
    && forall n {:trigger StoredAt(h.disk, h.inodes, n)} :: n in h.inodes ==>
         (StoredAt(h.disk, h.inodes, n) <==> n < INODES)
  }

  /** Every file can be read from the disk after a run exactly when there are at most 254. */
  lemma AllReadable(h: FSHandler, files: seq<Input>)
    requires Finished(h, files)
    ensures Stored(h.disk, h.inodes, 0) <==> |files| + 2 <= INODES
  {
    assert INODES in h.inodes ==> !StoredAt(h.disk, h.inodes, INODES);
  }

  /** The blocks before the inodes: the super block, and zeroes. */
  ghost predicate Headed(disk: seq<Block>, superBlock: Block) {
    forall q {:trigger BlockAt(disk, q)} :: 0 <= q < INODE_START ==>
      BlockAt(disk, q) == if q == 1 then superBlock else Zeroes()
  }

  lemma StillHeaded(a: seq<Block>, b: seq<Block>, superBlock: Block)
    requires Headed(a, superBlock) && HeadKept(a, b)
    ensures Headed(b, superBlock)
  {
    forall q | 0 <= q < INODE_START ensures BlockAt(b, q) == if q == 1 then superBlock else Zeroes() {
      assert BlockAt(a, q) == BlockAt(b, q);
    }
  }

  /** The whole run. It succeeds exactly when the names are acceptable and everything fits; then every
      file is in the image as given, the root directory lists them all, the bitmap marks the blocks in use, and
      the super block is in its place. `OneFileTooMany` says what happens beyond the number of files allowed here. */
  method MakeImage(files: seq<Input>, superBlock: Block) returns (ok: bool, h: FSHandler)
    requires |files| + 2 <= RESERVED
    ensures ok <==> (forall f :: f in files ==> Named(f)) && FIRST_DATA + Cost(files) <= FSSIZE
    ensures ok ==> Finished(h, files) && Headed(h.disk, superBlock)
  {
    h := new FSHandler();
    h.WriteReserved(1, superBlock);
    ghost var disk := h.disk;
    ok := AppendRoot(h);
    StillHeaded(disk, h.disk, superBlock);
    var k := 0;
    while k < |files|
      invariant 0 <= k <= |files| && Built(h, files[..k]) && Headed(h.disk, superBlock)
    {
      disk := h.disk;
      assert files[..k] + [files[k]] == files[..k + 1];
      CostPrefix(files, k + 1);
      ok := AppendFile(h, files[k], files[..k]);
      if !ok {
        assert files[k] in files;
        return;
      }
      StillHeaded(disk, h.disk, superBlock);
      k := k + 1;
    }
    assert files[..k] == files;
    disk := h.disk;
    Finish(h, files);
    StillHeaded(disk, h.disk, superBlock);
    ok := true;
  }

  /** Round up the size of the root directory and write the bitmap. */
  method Finish(h: FSHandler, ghost files: seq<Input>)
    requires Built(h, files) && |files| + 2 <= RESERVED
    modifies h
    ensures Finished(h, files) && HeadKept(old(h.disk), h.disk)
  {
    ghost var fs := h.View();
    assert h.inodes[ROOT].size == |Content(fs, ROOT)|;
    h.RoundSize(ROOT);
    ghost var mid := h.View();
    forall i | 0 <= i < |files| ensures HoldsAt(mid, files, i) { assert HoldsAt(fs, files, i); }
    var ok := h.AllocDiskBlock(h.freeblock);
    forall i | 0 <= i < |files| ensures HoldsAt(h.View(), files, i) { assert HoldsAt(mid, files, i); }
  }

  lemma {:induction false} DirectoryStart(files: seq<Input>)
    requires forall f :: f in files ==> Named(f)
    ensures Directory(files)[0] == ROOT
  {
    if files != [] { DirectoryStart(files[..|files| - 1]); }
  }

  /** The 319th file: its inode, number 320, lands on the start of the root directory and destroys the
      entry for the directory itself. */
  method OneFileTooMany(h: FSHandler, ghost files: seq<Input>) returns (ok: bool, inum: nat)
    requires Built(h, files) && |files| + 2 == RESERVED
    modifies h
    ensures ok && inum == RESERVED && ROOT in h.inodes
    ensures Content(h.View(), ROOT) == Encode(NewInode(FileType.File)) + Directory(files)[DINODE_SIZE..]
    ensures !(Directory(files) <= Content(h.View(), ROOT))
  {
    ghost var fs := h.View();
    ok, inum := h.AllocInode(FileType.File);
    assert fs.inodes[ROOT].size == |Content(fs, ROOT)|;
    ghost var fs' := InodeOverData(fs, inum, FileType.File, ROOT, 0, 0);
    assert h.View() == fs';
    DirectoryStart(files);
  }
}
