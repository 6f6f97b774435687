/**
 * Byte layout of the packed on-disk records.
 *
 * The checker obtains a record by overlaying a packed C struct on raw bytes,
 * so a field is read in the host's byte order. The model fixes that order as
 * little-endian (the byte at the lower address is the least significant) and
 * makes the overlay explicit: decoding reads each field at its packed offset,
 * encoding writes it back, and the two are mutually inverse.
 */
module Codec {
  import opened Layout

  // ---------------------------------------------------------------------
  // Little-endian integers

  /** The unsigned 16-bit value stored at `s[off..off+2]`. */
  function U16At(s: seq<byte>, off: nat): u16
    requires off + 2 <= |s|
  {
    (s[off] as u16) | ((s[off + 1] as u16) << 8)
  }

  /** The unsigned 32-bit value stored at `s[off..off+4]`. */
  function U32At(s: seq<byte>, off: nat): u32
    requires off + 4 <= |s|
  {
    (s[off] as u32) | ((s[off + 1] as u32) << 8)
      | ((s[off + 2] as u32) << 16) | ((s[off + 3] as u32) << 24)
  }

  function U16Bytes(x: u16): (r: seq<byte>)
    ensures |r| == 2
  {
    [(x & 0xFF) as byte, (x >> 8) as byte]
  }

  function U32Bytes(x: u32): (r: seq<byte>)
    ensures |r| == 4
  {
    [(x & 0xFF) as byte, ((x >> 8) & 0xFF) as byte,
     ((x >> 16) & 0xFF) as byte, (x >> 24) as byte]
  }

  /** Reading back the bytes of a 16-bit value gives the value. */
  lemma U16DecodeEncode(x: u16)
    ensures U16At(U16Bytes(x), 0) == x
  {
  }

  /** Re-encoding a 16-bit value read from bytes gives those bytes. */
  lemma U16EncodeDecode(s: seq<byte>, off: nat)
    requires off + 2 <= |s|
    ensures U16Bytes(U16At(s, off)) == s[off..off + 2]
  {
  }

  /** Reading back the bytes of a 32-bit value gives the value. */
  lemma U32DecodeEncode(x: u32)
    ensures U32At(U32Bytes(x), 0) == x
  {
  }

  /** Re-encoding a 32-bit value read from bytes gives those bytes. */
  lemma U32EncodeDecode(s: seq<byte>, off: nat)
    requires off + 4 <= |s|
    ensures U32Bytes(U32At(s, off)) == s[off..off + 4]
  {
  }

  // ---------------------------------------------------------------------
  // Superblock: u16 magic at offset 0, then eight u32 fields at offsets
  // 2, 6, ..., 30; the 4058 reserved bytes that follow are never read.

  datatype Superblock = Superblock(
    magic: u16,
    blockSize: u32,
    totalBlocks: u32,
    inodeBitmapBlock: u32,
    dataBitmapBlock: u32,
    inodeTableStart: u32,
    firstDataBlock: u32,
    inodeSize: u32,
    inodeCount: u32)

  /** The u32 field number `f` (0-based, after `magic`) of a superblock. */
  function SuperblockField(sb: Superblock, f: nat): u32
    requires f < 8
  {
    if f == 0 then sb.blockSize
    else if f == 1 then sb.totalBlocks
    else if f == 2 then sb.inodeBitmapBlock
    else if f == 3 then sb.dataBitmapBlock
    else if f == 4 then sb.inodeTableStart
    else if f == 5 then sb.firstDataBlock
    else if f == 6 then sb.inodeSize
    else sb.inodeCount
  }

  /** Byte offset of u32 field `f` inside the packed superblock. */
  function SuperblockFieldOffset(f: nat): nat
  {
    2 + 4 * f
  }

  /** The superblock as the struct overlay sees the first 34 bytes of block 0. */
  function DecodeSuperblock(bs: seq<byte>): Superblock
    requires SUPERBLOCK_FIELDS_SIZE <= |bs|
  {
    Superblock(U16At(bs, 0), U32At(bs, 2), U32At(bs, 6), U32At(bs, 10), U32At(bs, 14),
               U32At(bs, 18), U32At(bs, 22), U32At(bs, 26), U32At(bs, 30))
  }

  function SuperblockByte(sb: Superblock, k: nat): byte
    requires k < SUPERBLOCK_FIELDS_SIZE
  {
    if k < 2 then U16Bytes(sb.magic)[k]
    else U32Bytes(SuperblockField(sb, (k - 2) / 4))[(k - 2) % 4]
  }

  /** The 34 field bytes of a superblock. */
  function EncodeSuperblock(sb: Superblock): (r: seq<byte>)
    ensures |r| == SUPERBLOCK_FIELDS_SIZE
  {
    seq(SUPERBLOCK_FIELDS_SIZE, k requires 0 <= k < SUPERBLOCK_FIELDS_SIZE => SuperblockByte(sb, k))
  }

  /** A field read at an offset only depends on the four bytes there. */
  lemma U32AtSlice(s: seq<byte>, off: nat)
    requires off + 4 <= |s|
    ensures U32At(s, off) == U32At(s[off..off + 4], 0)
  {
  }

  lemma U16AtSlice(s: seq<byte>, off: nat)
    requires off + 2 <= |s|
    ensures U16At(s, off) == U16At(s[off..off + 2], 0)
  {
  }

  /** Field `f` of a decoded superblock is the u32 at its packed offset. */
  lemma DecodeSuperblockField(bs: seq<byte>, f: nat)
    requires SUPERBLOCK_FIELDS_SIZE <= |bs| && f < 8
    ensures SuperblockField(DecodeSuperblock(bs), f) == U32At(bs, SuperblockFieldOffset(f))
  {
  }

  /** The encoded superblock holds each field's bytes at its packed offset. */
  lemma EncodeSuperblockField(sb: Superblock, f: nat)
    requires f < 8
    ensures EncodeSuperblock(sb)[0..2] == U16Bytes(sb.magic)
    ensures EncodeSuperblock(sb)[SuperblockFieldOffset(f)..SuperblockFieldOffset(f) + 4]
         == U32Bytes(SuperblockField(sb, f))
  {
    var r := EncodeSuperblock(sb);
    forall t | 0 <= t < 4
      ensures r[2 + 4 * f + t] == U32Bytes(SuperblockField(sb, f))[t]
    {
      assert (4 * f + t) / 4 == f && (4 * f + t) % 4 == t;
    }
  }

  lemma SuperblockFieldsDetermine(a: Superblock, b: Superblock)
    requires a.magic == b.magic
    requires forall f :: 0 <= f < 8 ==> SuperblockField(a, f) == SuperblockField(b, f)
    ensures a == b
  {
    assert SuperblockField(a, 0) == SuperblockField(b, 0);
    assert SuperblockField(a, 1) == SuperblockField(b, 1);
    assert SuperblockField(a, 2) == SuperblockField(b, 2);
    assert SuperblockField(a, 3) == SuperblockField(b, 3);
    assert SuperblockField(a, 4) == SuperblockField(b, 4);
    assert SuperblockField(a, 5) == SuperblockField(b, 5);
    assert SuperblockField(a, 6) == SuperblockField(b, 6);
    assert SuperblockField(a, 7) == SuperblockField(b, 7);
  }

  /** Decoding what was encoded gives the superblock back. */
  lemma SuperblockDecodeEncode(sb: Superblock)
    ensures DecodeSuperblock(EncodeSuperblock(sb)) == sb
  {
    var bs := EncodeSuperblock(sb);
    var d := DecodeSuperblock(bs);
    EncodeSuperblockField(sb, 0);
    U16AtSlice(bs, 0);
    U16DecodeEncode(sb.magic);
    forall f | 0 <= f < 8
      ensures SuperblockField(d, f) == SuperblockField(sb, f)
    {
      SuperblockDecodeEncodeField(sb, f);
    }
    SuperblockFieldsDetermine(d, sb);
  }

  lemma SuperblockDecodeEncodeField(sb: Superblock, f: nat)
    requires f < 8
    ensures SuperblockField(DecodeSuperblock(EncodeSuperblock(sb)), f) == SuperblockField(sb, f)
  {
    var bs := EncodeSuperblock(sb);
    var o := SuperblockFieldOffset(f);
    DecodeSuperblockField(bs, f);
    EncodeSuperblockField(sb, f);
    U32AtSlice(bs, o);
    U32DecodeEncode(SuperblockField(sb, f));
  }

  /** Encoding what was decoded gives back the 34 field bytes. */
  lemma SuperblockEncodeDecode(bs: seq<byte>)
    requires SUPERBLOCK_FIELDS_SIZE <= |bs|
    ensures EncodeSuperblock(DecodeSuperblock(bs)) == bs[..SUPERBLOCK_FIELDS_SIZE]
  {
    forall k | 0 <= k < SUPERBLOCK_FIELDS_SIZE
      ensures EncodeSuperblock(DecodeSuperblock(bs))[k] == bs[k]
    {
      if k < 2 {
        SuperblockMagicByte(bs, k);
      } else {
        SuperblockFieldByte(bs, k);
      }
    }
  }

  lemma SuperblockMagicByte(bs: seq<byte>, k: nat)
    requires SUPERBLOCK_FIELDS_SIZE <= |bs| && k < 2
    ensures EncodeSuperblock(DecodeSuperblock(bs))[k] == bs[k]
  {
    var sb := DecodeSuperblock(bs);
    EncodeSuperblockField(sb, 0);
    U16EncodeDecode(bs, 0);
    assert EncodeSuperblock(sb)[k] == U16Bytes(U16At(bs, 0))[k];
  }

  lemma SuperblockFieldByte(bs: seq<byte>, k: nat)
    requires SUPERBLOCK_FIELDS_SIZE <= |bs| && 2 <= k < SUPERBLOCK_FIELDS_SIZE
    ensures EncodeSuperblock(DecodeSuperblock(bs))[k] == bs[k]
  {
    var sb := DecodeSuperblock(bs);
    var f := (k - 2) / 4;
    var o := SuperblockFieldOffset(f);
    EncodeSuperblockField(sb, f);
    DecodeSuperblockField(bs, f);
    U32EncodeDecode(bs, o);
    assert EncodeSuperblock(sb)[k] == U32Bytes(U32At(bs, o))[k - o];
  }

  // ---------------------------------------------------------------------
  // Inode: fourteen u32 fields at offsets 0, 4, ..., 52 and 156 reserved
  // bytes, 212 bytes in all.

  datatype Inode = Inode(
    mode: u32,
    uid: u32,
    gid: u32,
    size: u32,
    accessTime: u32,
    creationTime: u32,
    modTime: u32,
    deleteTime: u32,
    links: u32,
    blockCount: u32,
    direct: u32,
    singleIndirect: u32,
    doubleIndirect: u32,
    tripleIndirect: u32,
    reserved: seq<byte>)

  /** Field numbers of the fields the checker looks at. */
  const DELETE_TIME_FIELD: nat := 7
  const LINKS_FIELD: nat := 8
  const DIRECT_FIELD: nat := 10

  /** Byte offset of u32 field `f` inside the packed inode. */
  function InodeFieldOffset(f: nat): nat
  {
    4 * f
  }

  /** The u32 field number `f` of an inode, in declaration order. */
  function InodeField(n: Inode, f: nat): u32
    requires f < 14
  {
    if f == 0 then n.mode
    else if f == 1 then n.uid
    else if f == 2 then n.gid
    else if f == 3 then n.size
    else if f == 4 then n.accessTime
    else if f == 5 then n.creationTime
    else if f == 6 then n.modTime
    else if f == 7 then n.deleteTime
    else if f == 8 then n.links
    else if f == 9 then n.blockCount
    else if f == 10 then n.direct
    else if f == 11 then n.singleIndirect
    else if f == 12 then n.doubleIndirect
    else n.tripleIndirect
  }

  /** An inode that fills exactly one packed record. */
  predicate InodeWellFormed(n: Inode)
  {
    |n.reserved| == INODE_RESERVED
  }

  /** The inode the struct overlay sees in a 212-byte record. */
  function DecodeInode(bs: seq<byte>): (n: Inode)
    requires |bs| == INODE_RECORD_SIZE
    ensures InodeWellFormed(n)
  {
    Inode(U32At(bs, 0), U32At(bs, 4), U32At(bs, 8), U32At(bs, 12), U32At(bs, 16),
          U32At(bs, 20), U32At(bs, 24), U32At(bs, 28), U32At(bs, 32), U32At(bs, 36),
          U32At(bs, 40), U32At(bs, 44), U32At(bs, 48), U32At(bs, 52),
          bs[INODE_FIELDS_SIZE..])
  }

  function InodeByte(n: Inode, k: nat): byte
    requires InodeWellFormed(n)
    requires k < INODE_RECORD_SIZE
  {
    if k < INODE_FIELDS_SIZE then U32Bytes(InodeField(n, k / 4))[k % 4]
    else n.reserved[k - INODE_FIELDS_SIZE]
  }

  /** The 212-byte packed record of an inode. */
  function EncodeInode(n: Inode): (r: seq<byte>)
    requires InodeWellFormed(n)
    ensures |r| == INODE_RECORD_SIZE
  {
    seq(INODE_RECORD_SIZE, k requires 0 <= k < INODE_RECORD_SIZE => InodeByte(n, k))
  }

  /** Field `f` of a decoded inode is the u32 at its packed offset. */
  lemma DecodeInodeField(bs: seq<byte>, f: nat)
    requires |bs| == INODE_RECORD_SIZE && f < 14
    ensures InodeField(DecodeInode(bs), f) == U32At(bs, InodeFieldOffset(f))
  {
  }

  /** The encoded inode holds each field's bytes at its packed offset. */
  lemma EncodeInodeField(n: Inode, f: nat)
    requires InodeWellFormed(n) && f < 14
    ensures EncodeInode(n)[InodeFieldOffset(f)..InodeFieldOffset(f) + 4] == U32Bytes(InodeField(n, f))
  {
    var r := EncodeInode(n);
    forall t | 0 <= t < 4
      ensures r[4 * f + t] == U32Bytes(InodeField(n, f))[t]
    {
      assert (4 * f + t) / 4 == f && (4 * f + t) % 4 == t;
    }
  }

  /** The encoded inode ends with its reserved bytes. */
  lemma EncodeInodeReserved(n: Inode)
    requires InodeWellFormed(n)
    ensures EncodeInode(n)[INODE_FIELDS_SIZE..] == n.reserved
  {
    var r := EncodeInode(n);
    forall k | INODE_FIELDS_SIZE <= k < INODE_RECORD_SIZE
      ensures r[k] == n.reserved[k - INODE_FIELDS_SIZE]
    {
    }
  }

  lemma InodeFieldsDetermine(a: Inode, b: Inode)
    requires forall f :: 0 <= f < 14 ==> InodeField(a, f) == InodeField(b, f)
    requires a.reserved == b.reserved
    ensures a == b
  {
    assert InodeField(a, 0) == InodeField(b, 0);
    assert InodeField(a, 1) == InodeField(b, 1);
    assert InodeField(a, 2) == InodeField(b, 2);
    assert InodeField(a, 3) == InodeField(b, 3);
    assert InodeField(a, 4) == InodeField(b, 4);
    assert InodeField(a, 5) == InodeField(b, 5);
    assert InodeField(a, 6) == InodeField(b, 6);
    assert InodeField(a, 7) == InodeField(b, 7);
    assert InodeField(a, 8) == InodeField(b, 8);
    assert InodeField(a, 9) == InodeField(b, 9);
    assert InodeField(a, 10) == InodeField(b, 10);
    assert InodeField(a, 11) == InodeField(b, 11);
    assert InodeField(a, 12) == InodeField(b, 12);
    assert InodeField(a, 13) == InodeField(b, 13);
  }

  /** Decoding an encoded inode gives the inode back. */
  lemma InodeDecodeEncode(n: Inode)
    requires InodeWellFormed(n)
    ensures DecodeInode(EncodeInode(n)) == n
  {
    var bs := EncodeInode(n);
    var d := DecodeInode(bs);
    forall f | 0 <= f < 14
      ensures InodeField(d, f) == InodeField(n, f)
    {
      InodeDecodeEncodeField(n, f);
    }
    EncodeInodeReserved(n);
    InodeFieldsDetermine(d, n);
  }

  lemma InodeDecodeEncodeField(n: Inode, f: nat)
    requires InodeWellFormed(n) && f < 14
    ensures InodeField(DecodeInode(EncodeInode(n)), f) == InodeField(n, f)
  {
    var bs := EncodeInode(n);
    var o := InodeFieldOffset(f);
    DecodeInodeField(bs, f);
    EncodeInodeField(n, f);
    U32AtSlice(bs, o);
    U32DecodeEncode(InodeField(n, f));
  }

  /** Encoding a decoded record reproduces the record byte for byte,
      reserved bytes included. */
  lemma InodeEncodeDecode(bs: seq<byte>)
    requires |bs| == INODE_RECORD_SIZE
    ensures EncodeInode(DecodeInode(bs)) == bs
  {
    forall k | 0 <= k < INODE_RECORD_SIZE
      ensures EncodeInode(DecodeInode(bs))[k] == bs[k]
    {
      InodeEncodeDecodeByte(bs, k);
    }
  }

  lemma InodeEncodeDecodeByte(bs: seq<byte>, k: nat)
    requires |bs| == INODE_RECORD_SIZE && k < INODE_RECORD_SIZE
    ensures EncodeInode(DecodeInode(bs))[k] == bs[k]
  {
    var n := DecodeInode(bs);
    var r := EncodeInode(n);
    if k < INODE_FIELDS_SIZE {
      var f := k / 4;
      assert r[k] == U32Bytes(InodeField(n, f))[k % 4];
      DecodeInodeField(bs, f);
      U32EncodeDecode(bs, 4 * f);
      assert k == 4 * f + k % 4;
    } else {
      assert r[k] == n.reserved[k - INODE_FIELDS_SIZE];
    }
  }

  /** Replacing the direct pointer rewrites bytes 40..43 of the record to the
      new value and no other byte. */
  lemma SetDirectFrame(n: Inode, d: u32)
    requires InodeWellFormed(n)
    ensures EncodeInode(n.(direct := d))[40..44] == U32Bytes(d)
    ensures forall k :: 0 <= k < INODE_RECORD_SIZE && !(40 <= k < 44) ==>
      EncodeInode(n.(direct := d))[k] == EncodeInode(n)[k]
  {
    var m := n.(direct := d);
    assert InodeField(m, DIRECT_FIELD) == d;
    EncodeInodeField(m, DIRECT_FIELD);
    forall k | 0 <= k < INODE_RECORD_SIZE && !(40 <= k < 44)
      ensures EncodeInode(m)[k] == EncodeInode(n)[k]
    {
      if k < INODE_FIELDS_SIZE {
        assert k / 4 != DIRECT_FIELD;
        assert InodeField(m, k / 4) == InodeField(n, k / 4);
      }
    }
  }
}
