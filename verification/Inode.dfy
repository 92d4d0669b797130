/** Blocks of the disk image, the little-endian numbers in them, and the on-disk inode. */
module Inode {
  import opened Common

  const BSIZE: nat := 4096
  const NDIRECT: nat := 12
  const NINDIRECT: nat := 1024
  const DINODE_SIZE: nat := 64
  const IPB: nat := 64
  const U32: nat := 0x1_0000_0000

  type Block = s: seq<byte> | |s| == BSIZE witness seq(BSIZE, _ => 0)

  function Zeroes(): (b: Block)
    ensures forall i :: 0 <= i < BSIZE ==> b[i] == 0
  {
    seq(BSIZE, _ => 0)
  }

  /** `LittleEndian::read_u32`. */
  function ReadU32(s: seq<byte>, at: nat): (v: nat)
    requires at + 4 <= |s|
    ensures v < U32
  {
    s[at] as nat + 256 * (s[at + 1] as nat) + 65536 * (s[at + 2] as nat) + 16777216 * (s[at + 3] as nat)
  }

  function U32Bytes(v: nat): (s: seq<byte>)
    ensures |s| == 4
  {
    [v % 256, (v / 256) % 256, (v / 65536) % 256, (v / 16777216) % 256]
  }

  /** `LittleEndian::write_u32`. */
  function WriteU32(s: seq<byte>, at: nat, v: nat): (r: seq<byte>)
    requires at + 4 <= |s|
    ensures |r| == |s|
  {
    s[..at] + U32Bytes(v) + s[at + 4..]
  }

  lemma U32RoundTrip(v: nat)
    requires v < U32
    ensures ReadU32(U32Bytes(v), 0) == v
  {
    var a, b, c := v / 256, v / 65536, v / 16777216;
    assert b == a / 256 && c == b / 256;
    assert v == 256 * a + v % 256 && a == 256 * b + a % 256 && b == 256 * c + b % 256;
  }

  /** A number written is read back, and numbers elsewhere are not disturbed. */
  lemma WriteThenRead(s: seq<byte>, at: nat, v: nat, from: nat)
    requires at + 4 <= |s| && from + 4 <= |s| && v < U32 && (from == at || from + 4 <= at || at + 4 <= from)
    ensures ReadU32(WriteU32(s, at, v), from) == if from == at then v else ReadU32(s, from)
  {
    var r := WriteU32(s, at, v);
    if from == at {
      U32RoundTrip(v);
      assert r[at..at + 4] == U32Bytes(v);
      ReadShift(r, U32Bytes(v), at);
    }
  }

  /** Entry `i` of an indirect block: `Layer::get`. */
  function Entry(b: Block, i: nat): (v: nat)
    requires i < NINDIRECT
    ensures v < U32
  {
    ReadU32(b, 4 * i)
  }

  /** `Layer::update`. */
  function SetEntry(b: Block, i: nat, v: nat): Block
    requires i < NINDIRECT
  {
    WriteU32(b, 4 * i, v)
  }

  lemma EntryOfSet(b: Block, i: nat, v: nat, j: nat)
    requires i < NINDIRECT && j < NINDIRECT && v < U32
    ensures Entry(SetEntry(b, i, v), j) == if i == j then v else Entry(b, j)
  {
    WriteThenRead(b, 4 * i, v, 4 * j);
  }

  lemma ZeroEntries(j: nat)
    requires j < NINDIRECT
    ensures Entry(Zeroes(), j) == 0
  {
  }

  // ---- Inodes ----

  datatype FileType = Uninitialized | Directory | File | Device

  type i16 = x: int | -32768 <= x < 32768
  type u32 = x: nat | x < U32

  datatype DINode = DINode(fileType: FileType, major: i16, minor: i16, nlink: i16, size: u32, addresses: seq<u32>)

  ghost predicate ValidInode(d: DINode) { |d.addresses| == NDIRECT + 1 }

  function TypeCode(t: FileType): nat {
    match t case Uninitialized => 0 case Directory => 1 case File => 2 case Device => 3
  }

  function TypeOf(code: nat): Option<FileType> {
    if code == 0 then Some(Uninitialized) else if code == 1 then Some(Directory)
    else if code == 2 then Some(File) else if code == 3 then Some(Device) else None
  }

  function U16Bytes(v: nat): seq<byte> { [v % 256, (v / 256) % 256] }

  function ReadU16(s: seq<byte>, at: nat): nat
    requires at + 2 <= |s|
  {
    s[at] as nat + 256 * (s[at + 1] as nat)
  }

  function I16Code(x: i16): nat { if x < 0 then x + 65536 else x }

  function I16Of(v: nat): i16
    requires v < 65536
  {
    if v < 32768 then v else v - 65536
  }

  /** The words of the address table, one after the other. */
  function AddressBytes(a: seq<u32>): (s: seq<byte>)
    ensures |s| == 4 * |a|
  {
    if a == [] then [] else AddressBytes(a[..|a| - 1]) + U32Bytes(a[|a| - 1])
  }

  function Encode(d: DINode): (s: seq<byte>)
    requires |d.addresses| == NDIRECT + 1
    ensures |s| == DINODE_SIZE
  {
    U16Bytes(TypeCode(d.fileType)) + U16Bytes(I16Code(d.major)) + U16Bytes(I16Code(d.minor))
    + U16Bytes(I16Code(d.nlink)) + U32Bytes(d.size) + AddressBytes(d.addresses)
  }

  /** Address `k` as stored in an encoded inode. */
  function AddressIn(s: seq<byte>, k: nat): u32
    requires |s| == DINODE_SIZE && k <= NDIRECT
  {
    ReadU32(s, 12 + 4 * k)
  }

  /** None when the type code is unknown, which is a panic in `copy_from_bytes`. */
  function Decode(s: seq<byte>): Option<DINode>
    requires |s| == DINODE_SIZE
  {
    match TypeOf(ReadU16(s, 0))
    case None => None
    case Some(t) =>
      Some(DINode(t, I16Of(ReadU16(s, 2)), I16Of(ReadU16(s, 4)), I16Of(ReadU16(s, 6)), ReadU32(s, 8),
                  seq(NDIRECT + 1, k requires 0 <= k <= NDIRECT => AddressIn(s, k))))
  }

  lemma {:induction false} AddressBytesAt(a: seq<u32>, k: nat)
    requires k < |a|
    ensures AddressBytes(a)[4 * k..4 * k + 4] == U32Bytes(a[k])
    decreases |a|
  {
    var n := |a| - 1;
    if k < n {
      AddressBytesAt(a[..n], k);
      assert AddressBytes(a)[4 * k..4 * k + 4] == AddressBytes(a[..n])[4 * k..4 * k + 4];
    }
  }

  lemma ReadShift(s: seq<byte>, t: seq<byte>, at: nat)
    requires at + 4 <= |s| && |t| == 4 && s[at..at + 4] == t
    ensures ReadU32(s, at) == ReadU32(t, 0)
  {
    assert s[at] == t[0] && s[at + 1] == t[1] && s[at + 2] == t[2] && s[at + 3] == t[3];
  }

  lemma U16RoundTrip(v: nat)
    requires v < 65536
    ensures ReadU16(U16Bytes(v), 0) == v
  {
  }

  lemma EncodedAddress(d: DINode, k: nat)
    requires ValidInode(d) && k <= NDIRECT
    ensures AddressIn(Encode(d), k) == d.addresses[k]
  {
    var s := Encode(d);
    assert s[12..] == AddressBytes(d.addresses);
    assert s[12 + 4 * k..12 + 4 * k + 4] == s[12..][4 * k..4 * k + 4];
    AddressBytesAt(d.addresses, k);
    ReadShift(s, U32Bytes(d.addresses[k]), 12 + 4 * k);
    U32RoundTrip(d.addresses[k]);
  }

  lemma EncodedHeader(d: DINode)
    requires ValidInode(d)
    ensures var s := Encode(d);
            && ReadU16(s, 0) == TypeCode(d.fileType) && ReadU16(s, 2) == I16Code(d.major)
            && ReadU16(s, 4) == I16Code(d.minor) && ReadU16(s, 6) == I16Code(d.nlink) && ReadU32(s, 8) == d.size
  {
    var s := Encode(d);
    assert s[8..12] == U32Bytes(d.size);
    ReadShift(s, U32Bytes(d.size), 8);
    U32RoundTrip(d.size);
    U16RoundTrip(I16Code(d.major));
    U16RoundTrip(I16Code(d.minor));
    U16RoundTrip(I16Code(d.nlink));
  }

  /** The bytes of an inode on the disk: four 16-bit fields, the size and the thirteen addresses, each with its
      low byte first; negative numbers in two's complement. */
  lemma InodeLayout(d: DINode)
    requires ValidInode(d)
    ensures var s := Encode(d);
            && s[1] == 0
            && s[0] == (match d.fileType case Uninitialized => 0 case Directory => 1 case File => 2 case Device => 3)
            && s[2] as int + 256 * s[3] as int == d.major % 65536
            && s[4] as int + 256 * s[5] as int == d.minor % 65536
            && s[6] as int + 256 * s[7] as int == d.nlink % 65536
            && s[8] as int + 256 * s[9] as int + 65536 * s[10] as int + 16777216 * s[11] as int == d.size
            && forall k {:trigger d.addresses[k]} :: 0 <= k <= NDIRECT ==>
                 s[12 + 4 * k] as int + 256 * s[13 + 4 * k] as int + 65536 * s[14 + 4 * k] as int
                 + 16777216 * s[15 + 4 * k] as int == d.addresses[k]
  {
    EncodedHeader(d);
    forall k | 0 <= k <= NDIRECT ensures AddressIn(Encode(d), k) == d.addresses[k] { EncodedAddress(d, k); }
  }

  /** The bytes of an entry of an index table, the low byte first. */
  lemma EntryBytes(b: Block, i: nat, v: nat)
    requires i < NINDIRECT && v < U32
    ensures var r := SetEntry(b, i, v);
            && r[4 * i] as int + 256 * r[4 * i + 1] as int + 65536 * r[4 * i + 2] as int
               + 16777216 * r[4 * i + 3] as int == v
            && forall k :: 0 <= k < BSIZE && !(4 * i <= k < 4 * i + 4) ==> r[k] == b[k]
  {
    EntryOfSet(b, i, v, i);
  }

  /** An inode written out is read back unchanged. */
  lemma InodeRoundTrip(d: DINode)
    requires ValidInode(d)
    ensures Decode(Encode(d)) == Some(d)
  {
    EncodedHeader(d);
    var s := Encode(d);
    var a := Decode(s).value.addresses;
    forall k | 0 <= k <= NDIRECT ensures a[k] == d.addresses[k] {
      EncodedAddress(d, k);
    }
    assert a == d.addresses;
  }

  function WriteU16(s: seq<byte>, at: nat, v: nat): (r: seq<byte>)
    requires at + 2 <= |s|
    ensures |r| == |s|
  {
    s[..at] + U16Bytes(v) + s[at + 2..]
  }

  /** `to_bytes`: fill the buffer field by field, and the address table word by word. */
  method ToBytes(d: DINode, buffer: seq<byte>) returns (r: seq<byte>)
    requires ValidInode(d) && |buffer| == DINODE_SIZE
    ensures r == Encode(d)
  {
    r := WriteU16(buffer, 0, TypeCode(d.fileType));
    r := WriteU16(r, 2, I16Code(d.major));
    r := WriteU16(r, 4, I16Code(d.minor));
    r := WriteU16(r, 6, I16Code(d.nlink));
    r := WriteU32(r, 8, d.size);
    var offset := 12;
    ghost var header := U16Bytes(TypeCode(d.fileType)) + U16Bytes(I16Code(d.major)) + U16Bytes(I16Code(d.minor))
                        + U16Bytes(I16Code(d.nlink)) + U32Bytes(d.size);
    for k := 0 to NDIRECT + 1
      invariant offset == 12 + 4 * k && |r| == DINODE_SIZE
      invariant r[..offset] == header + AddressBytes(d.addresses[..k])
    {
      ghost var before := r;
      r := WriteU32(r, offset, d.addresses[k]);
      assert d.addresses[..k + 1][..k] == d.addresses[..k];
      assert r[..offset + 4] == before[..offset] + U32Bytes(d.addresses[k]);
      offset := offset + 4;
    }
    assert d.addresses[..NDIRECT + 1] == d.addresses;
    assert r[..offset] == r;
  }

  /** `from_bytes`: None stands for the panic on an unknown file type. */
  method FromBytes(bytes: seq<byte>) returns (r: Option<DINode>)
    requires |bytes| == DINODE_SIZE
    ensures r == Decode(bytes)
  {
    var t := TypeOf(ReadU16(bytes, 0));
    if t.None? { return None; }
    var addresses: seq<u32> := [];
    var offset := 12;
    while |addresses| <= NDIRECT
      invariant |addresses| <= NDIRECT + 1 && offset == 12 + 4 * |addresses|
      invariant forall k :: 0 <= k < |addresses| ==> addresses[k] == AddressIn(bytes, k)
    {
      addresses := addresses + [ReadU32(bytes, offset)];
      offset := offset + 4;
    }
    r := Some(DINode(t.value, I16Of(ReadU16(bytes, 2)), I16Of(ReadU16(bytes, 4)), I16Of(ReadU16(bytes, 6)),
                     ReadU32(bytes, 8), addresses));
    assert addresses == Decode(bytes).value.addresses;
  }
}
