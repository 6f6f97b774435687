/**
 * Block and inode addressing on the device image.
 *
 * The image is a byte sequence of TOTAL_BLOCKS * BLOCK_SIZE bytes. Reading a
 * block is slicing it, writing a block is splicing a block-sized buffer in,
 * and an inode is the 212-byte packed record at its slot in the inode table.
 * Seek, read and write results are never checked by the checker, so block
 * I/O is total here and always stays inside the image.
 */
module Blocks {
  import opened Layout
  import opened Codec

  /** A complete device image. */
  predicate IsImage(img: seq<byte>)
  {
    |img| == IMAGE_SIZE
  }

  /** Block `b` of the image: bytes [b*BLOCK_SIZE, (b+1)*BLOCK_SIZE). */
  function ReadBlock(img: seq<byte>, b: nat): (r: seq<byte>)
    requires IsImage(img) && b < TOTAL_BLOCKS
    ensures |r| == BLOCK_SIZE
    ensures forall k :: 0 <= k < BLOCK_SIZE ==> r[k] == img[b * BLOCK_SIZE + k]
  {
    img[b * BLOCK_SIZE..(b + 1) * BLOCK_SIZE]
  }

  /** The image with block `b` replaced by `buf`: every byte of block `b`
      comes from `buf`, every other byte is as before. */
  function WriteBlock(img: seq<byte>, b: nat, buf: seq<byte>): (r: seq<byte>)
    requires IsImage(img) && b < TOTAL_BLOCKS && |buf| == BLOCK_SIZE
    ensures IsImage(r)
    ensures forall q :: 0 <= q < |img| && b * BLOCK_SIZE <= q < (b + 1) * BLOCK_SIZE ==>
      r[q] == buf[q - b * BLOCK_SIZE]
    ensures forall q :: 0 <= q < |img| && !(b * BLOCK_SIZE <= q < (b + 1) * BLOCK_SIZE) ==>
      r[q] == img[q]
  {
    img[..b * BLOCK_SIZE] + buf + img[(b + 1) * BLOCK_SIZE..]
  }

  /** A bitmap is its block read whole. */
  function LoadBitmap(img: seq<byte>, b: nat): (bm: seq<byte>)
    requires IsImage(img) && b < TOTAL_BLOCKS
    ensures |bm| == BLOCK_SIZE
    ensures forall k :: 0 <= k < BLOCK_SIZE ==> bm[k] == img[b * BLOCK_SIZE + k]
  {
    ReadBlock(img, b)
  }

  /** Reading a block just written gives the buffer; every other block reads
      as before. */
  lemma ReadAfterWriteBlock(img: seq<byte>, b: nat, buf: seq<byte>, c: nat)
    requires IsImage(img) && b < TOTAL_BLOCKS && c < TOTAL_BLOCKS && |buf| == BLOCK_SIZE
    ensures ReadBlock(WriteBlock(img, b, buf), b) == buf
    ensures c != b ==> ReadBlock(WriteBlock(img, b, buf), c) == ReadBlock(img, c)
  {
    var r := WriteBlock(img, b, buf);
    assert ReadBlock(r, b) == buf;
    if c != b {
      forall k | 0 <= k < BLOCK_SIZE
        ensures ReadBlock(r, c)[k] == ReadBlock(img, c)[k]
      {
        assert !(b * BLOCK_SIZE <= c * BLOCK_SIZE + k < (b + 1) * BLOCK_SIZE);
      }
    }
  }

  /** Writing back a block exactly as it was read leaves the image unchanged. */
  lemma WriteBackUnchanged(img: seq<byte>, b: nat)
    requires IsImage(img) && b < TOTAL_BLOCKS
    ensures WriteBlock(img, b, ReadBlock(img, b)) == img
  {
  }

  // ---------------------------------------------------------------------
  // Inode addressing

  /** The table block holding slot `i`: INODE_TABLE_START + i*INODE_SIZE / BLOCK_SIZE. */
  function InodeBlock(i: nat): nat
  {
    INODE_TABLE_START + (i * INODE_SIZE) / BLOCK_SIZE
  }

  /** The offset of slot `i` inside its block: i*INODE_SIZE % BLOCK_SIZE. */
  function InodeOffset(i: nat): nat
  {
    (i * INODE_SIZE) % BLOCK_SIZE
  }

  /** The absolute byte at which the repair path seeks to rewrite slot `i`. */
  function InodePos(i: nat): nat
  {
    TABLE_BYTE_START + i * INODE_SIZE
  }

  /** Every slot below MAX_INODES lies in a block of the inode table, its
      212-byte record never straddles a block boundary, and the block/offset
      pair names the same byte as the absolute position. */
  lemma InodeAddressing(i: nat)
    requires i < MAX_INODES
    ensures INODE_TABLE_START <= InodeBlock(i) < DATA_BLOCK_START
    ensures InodeOffset(i) + INODE_RECORD_SIZE <= BLOCK_SIZE
    ensures InodeBlock(i) * BLOCK_SIZE + InodeOffset(i) == InodePos(i)
    ensures TABLE_BYTE_START <= InodePos(i)
    ensures InodePos(i) + INODE_RECORD_SIZE <= DATA_BYTE_START
  {
    var x := i * 256;
    assert x == (x / 4096) * 4096 + x % 4096;
    assert i / 16 == x / 4096 by {
      assert x == 256 * i;
    }
    assert x % 4096 == 256 * (i % 16);
  }

  /** Distinct slots sit at least one slot apart, so their records are disjoint. */
  lemma SlotsApart(i: nat, j: nat)
    requires i != j
    ensures InodePos(i) + INODE_SIZE <= InodePos(j) || InodePos(j) + INODE_SIZE <= InodePos(i)
  {
    if i < j {
      assert InodePos(j) - InodePos(i) == (j - i) * INODE_SIZE;
    } else {
      assert InodePos(i) - InodePos(j) == (i - j) * INODE_SIZE;
    }
  }

  /** The raw 212 bytes of slot `i`. */
  function InodeRecord(img: seq<byte>, i: nat): (r: seq<byte>)
    requires IsImage(img) && i < MAX_INODES
    ensures |r| == INODE_RECORD_SIZE
    ensures forall k :: 0 <= k < INODE_RECORD_SIZE ==> r[k] == img[InodePos(i) + k]
  {
    InodeAddressing(i);
    img[InodePos(i)..InodePos(i) + INODE_RECORD_SIZE]
  }

  /** Slot `i` as the checker reads it: its block is read whole and the
      record is taken at its offset inside that block. */
  function ReadInode(img: seq<byte>, i: nat): (n: Inode)
    requires IsImage(img) && i < MAX_INODES
    ensures InodeWellFormed(n)
  {
    InodeAddressing(i);
    var buf := ReadBlock(img, InodeBlock(i));
    var off := InodeOffset(i);
    DecodeInode(buf[off..off + INODE_RECORD_SIZE])
  }

  /** The block-relative read finds the record at absolute byte
      INODE_TABLE_START*BLOCK_SIZE + i*INODE_SIZE, the same place the
      repair path writes. */
  lemma ReadInodeAbsolute(img: seq<byte>, i: nat)
    requires IsImage(img) && i < MAX_INODES
    ensures ReadInode(img, i) == DecodeInode(InodeRecord(img, i))
  {
    InodeAddressing(i);
    var buf := ReadBlock(img, InodeBlock(i));
    var off := InodeOffset(i);
    assert buf[off..off + INODE_RECORD_SIZE] == InodeRecord(img, i);
  }

  /** The in-place rewrite of slot `i`: `sizeof(Inode)` bytes at its
      absolute position become the encoded record; nothing else changes. */
  function WriteInode(img: seq<byte>, i: nat, n: Inode): (r: seq<byte>)
    requires IsImage(img) && i < MAX_INODES && InodeWellFormed(n)
    ensures IsImage(r)
    ensures forall q :: InodePos(i) <= q < InodePos(i) + INODE_RECORD_SIZE ==>
      r[q] == EncodeInode(n)[q - InodePos(i)]
    ensures forall q :: 0 <= q < |img| && !(InodePos(i) <= q < InodePos(i) + INODE_RECORD_SIZE) ==>
      r[q] == img[q]
  {
    InodeAddressing(i);
    img[..InodePos(i)] + EncodeInode(n) + img[InodePos(i) + INODE_RECORD_SIZE..]
  }

  /** After rewriting slot `i`, slot `i` reads back as the new inode. */
  lemma ReadAfterWriteInodeSame(img: seq<byte>, i: nat, n: Inode)
    requires IsImage(img) && i < MAX_INODES && InodeWellFormed(n)
    ensures ReadInode(WriteInode(img, i, n), i) == n
  {
    var r := WriteInode(img, i, n);
    ReadInodeAbsolute(r, i);
    assert InodeRecord(r, i) == EncodeInode(n);
    InodeDecodeEncode(n);
  }

  /** After rewriting slot `i`, every other slot reads as before. */
  lemma ReadAfterWriteInodeOther(img: seq<byte>, i: nat, n: Inode, j: nat)
    requires IsImage(img) && i < MAX_INODES && j < MAX_INODES && InodeWellFormed(n) && j != i
    ensures ReadInode(WriteInode(img, i, n), j) == ReadInode(img, j)
  {
    var r := WriteInode(img, i, n);
    InodeAddressing(j);
    SlotsApart(i, j);
    forall k | 0 <= k < INODE_RECORD_SIZE
      ensures InodeRecord(r, j)[k] == InodeRecord(img, j)[k]
    {
    }
    assert InodeRecord(r, j) == InodeRecord(img, j);
    ReadInodeAbsolute(r, j);
    ReadInodeAbsolute(img, j);
  }

  /** After rewriting slot `i`, slot `i` reads back as the new inode and every
      other slot reads as before. */
  lemma ReadAfterWriteInode(img: seq<byte>, i: nat, n: Inode, j: nat)
    requires IsImage(img) && i < MAX_INODES && j < MAX_INODES && InodeWellFormed(n)
    ensures ReadInode(WriteInode(img, i, n), i) == n
    ensures j != i ==> ReadInode(WriteInode(img, i, n), j) == ReadInode(img, j)
  {
    ReadAfterWriteInodeSame(img, i, n);
    if j != i {
      ReadAfterWriteInodeOther(img, i, n, j);
    }
  }

  /** Rewriting a slot with the inode it already holds changes no byte. */
  lemma RewriteSameInode(img: seq<byte>, i: nat)
    requires IsImage(img) && i < MAX_INODES
    ensures WriteInode(img, i, ReadInode(img, i)) == img
  {
    ReadInodeAbsolute(img, i);
    InodeEncodeDecode(InodeRecord(img, i));
  }

  /** Writing a block outside the inode table leaves every slot as it was. */
  lemma ReadInodeAfterWriteBlock(img: seq<byte>, b: nat, buf: seq<byte>, j: nat)
    requires IsImage(img) && b < INODE_TABLE_START && |buf| == BLOCK_SIZE && j < MAX_INODES
    ensures ReadInode(WriteBlock(img, b, buf), j) == ReadInode(img, j)
  {
    InodeAddressing(j);
    var r := WriteBlock(img, b, buf);
    assert InodeRecord(r, j) == InodeRecord(img, j);
    ReadInodeAbsolute(r, j);
    ReadInodeAbsolute(img, j);
  }

  /** Rewriting an inode leaves every block outside the inode table as it was. */
  lemma ReadBlockAfterWriteInode(img: seq<byte>, i: nat, n: Inode, b: nat)
    requires IsImage(img) && i < MAX_INODES && InodeWellFormed(n) && b < INODE_TABLE_START
    ensures ReadBlock(WriteInode(img, i, n), b) == ReadBlock(img, b)
  {
    InodeAddressing(i);
  }

  // ---------------------------------------------------------------------
  // Direct-pointer bytes

  /** Byte `q` of the image belongs to the direct-pointer field of some
      inode slot (bytes 40..43 of the record). */
  predicate InDirectField(q: nat)
  {
    TABLE_BYTE_START <= q < DATA_BYTE_START
    && 40 <= (q - TABLE_BYTE_START) % INODE_SIZE < 44
  }

  /** Rewriting slot `i` with only its direct pointer replaced changes no
      byte outside that slot's direct-pointer field. */
  lemma SetDirectImageFrame(img: seq<byte>, i: nat, d: u32)
    requires IsImage(img) && i < MAX_INODES
    ensures forall q :: 0 <= q < |img| && !(InodePos(i) + 40 <= q < InodePos(i) + 44) ==>
      WriteInode(img, i, ReadInode(img, i).(direct := d))[q] == img[q]
  {
    forall q | 0 <= q < |img| && !(InodePos(i) + 40 <= q < InodePos(i) + 44)
      ensures WriteInode(img, i, ReadInode(img, i).(direct := d))[q] == img[q]
    {
      SetDirectImageByte(img, i, d, q);
    }
  }

  lemma SetDirectImageByte(img: seq<byte>, i: nat, d: u32, q: nat)
    requires IsImage(img) && i < MAX_INODES && q < |img|
    requires !(InodePos(i) + 40 <= q < InodePos(i) + 44)
    ensures WriteInode(img, i, ReadInode(img, i).(direct := d))[q] == img[q]
  {
    var p := InodePos(i);
    if p <= q < p + INODE_RECORD_SIZE {
      SetDirectRecordByte(img, i, d, q - p);
    } else {
      WriteInodeOutside(img, i, ReadInode(img, i).(direct := d), q);
    }
  }

  /** A byte outside slot `i`'s record survives any rewrite of slot `i`. */
  lemma WriteInodeOutside(img: seq<byte>, i: nat, n: Inode, q: nat)
    requires IsImage(img) && i < MAX_INODES && InodeWellFormed(n) && q < |img|
    requires !(InodePos(i) <= q < InodePos(i) + INODE_RECORD_SIZE)
    ensures WriteInode(img, i, n)[q] == img[q]
  {
  }

  /** Byte `k` of slot `i`'s record, outside bytes 40..43, survives the
      rewrite with a replaced direct pointer. */
  lemma SetDirectRecordByte(img: seq<byte>, i: nat, d: u32, k: nat)
    requires IsImage(img) && i < MAX_INODES && k < INODE_RECORD_SIZE && !(40 <= k < 44)
    ensures InodePos(i) + k < |img|
    ensures WriteInode(img, i, ReadInode(img, i).(direct := d))[InodePos(i) + k] == img[InodePos(i) + k]
  {
    InodeAddressing(i);
    ReadInodeAbsolute(img, i);
    var rec := InodeRecord(img, i);
    var n := DecodeInode(rec);
    var m := n.(direct := d);
    InodeEncodeDecode(rec);
    SetDirectFrame(n, d);
    assert EncodeInode(m)[k] == rec[k];
  }

  /** The four direct-pointer bytes of slot `j` are the little-endian bytes
      of its decoded direct pointer. */
  lemma DirectBytes(img: seq<byte>, j: nat, o: nat)
    requires IsImage(img) && j < MAX_INODES && 40 <= o < 44
    ensures InodePos(j) + o < |img|
    ensures img[InodePos(j) + o] == U32Bytes(ReadInode(img, j).direct)[o - 40]
  {
    InodeAddressing(j);
    ReadInodeAbsolute(img, j);
    var rec := InodeRecord(img, j);
    DecodeInodeField(rec, DIRECT_FIELD);
    U32EncodeDecode(rec, 40);
    assert U32Bytes(ReadInode(img, j).direct) == rec[40..44];
    assert rec[40..44][o - 40] == rec[o];
  }

  /** Two images that agree outside the direct-pointer fields and whose
      slots all hold the same direct pointers are the same image. */
  lemma ImageExtensionality(a: seq<byte>, b: seq<byte>)
    requires IsImage(a) && IsImage(b)
    requires forall q :: 0 <= q < |a| && !InDirectField(q) ==> a[q] == b[q]
    requires forall j :: 0 <= j < MAX_INODES ==> ReadInode(a, j).direct == ReadInode(b, j).direct
    ensures a == b
  {
    forall q | 0 <= q < |a| && InDirectField(q)
      ensures a[q] == b[q]
    {
      var j := DirectFieldSlot(q);
      DirectFieldByteAgree(a, b, q);
    }
  }

  /** The slot whose direct-pointer field holds byte `q`. */
  function DirectFieldSlot(q: nat): (j: nat)
    requires InDirectField(q)
    ensures j < MAX_INODES
    ensures InodePos(j) + 40 <= q < InodePos(j) + 44
  {
    var j := (q - TABLE_BYTE_START) / INODE_SIZE;
    assert q - TABLE_BYTE_START == j * INODE_SIZE + (q - TABLE_BYTE_START) % INODE_SIZE;
    j
  }

  /** Images whose slot holding direct-pointer byte `q` has the same direct
      pointer agree on byte `q`. */
  lemma DirectFieldByteAgree(a: seq<byte>, b: seq<byte>, q: nat)
    requires IsImage(a) && IsImage(b) && InDirectField(q)
    requires ReadInode(a, DirectFieldSlot(q)).direct == ReadInode(b, DirectFieldSlot(q)).direct
    ensures a[q] == b[q]
  {
    var j := DirectFieldSlot(q);
    var o := q - InodePos(j);
    DirectBytes(a, j, o);
    DirectBytes(b, j, o);
  }

  // ---------------------------------------------------------------------
  // The inode table as a whole

  /** The inode table of an image, slot by slot. */
  function Table(img: seq<byte>): (t: seq<Inode>)
    requires IsImage(img)
    ensures |t| == MAX_INODES
  {
    seq(MAX_INODES, j requires 0 <= j < MAX_INODES => ReadInode(img, j))
  }

  /** A table the repair path can write back: one well-formed inode per slot. */
  predicate TableShaped(t: seq<Inode>)
  {
    |t| == MAX_INODES && forall j :: 0 <= j < MAX_INODES ==> InodeWellFormed(t[j])
  }

  /** Every entry of `t` is the image's inode with at most its direct
      pointer replaced. */
  predicate DirectsOnly(img: seq<byte>, t: seq<Inode>)
    requires IsImage(img) && |t| == MAX_INODES
  {
    forall k :: 0 <= k < MAX_INODES ==> t[k] == ReadInode(img, k).(direct := t[k].direct)
  }

  /** The image with records 0..n-1 of the inode table rewritten in place
      from `t`, in slot order. */
  function StoreTable(img: seq<byte>, t: seq<Inode>, n: nat): (r: seq<byte>)
    requires IsImage(img) && TableShaped(t) && n <= MAX_INODES
    ensures IsImage(r)
  {
    if n == 0 then img else WriteInode(StoreTable(img, t, n - 1), n - 1, t[n - 1])
  }

  /** After storing slots below `n`, those slots read back as `t` and the
      others as before. */
  lemma {:induction false} StoreTableReads(img: seq<byte>, t: seq<Inode>, n: nat, j: nat)
    requires IsImage(img) && TableShaped(t) && n <= MAX_INODES && j < MAX_INODES
    ensures ReadInode(StoreTable(img, t, n), j) == if j < n then t[j] else ReadInode(img, j)
  {
    if n > 0 {
      StoreTableReads(img, t, n - 1, j);
      ReadAfterWriteInode(StoreTable(img, t, n - 1), n - 1, t[n - 1], j);
    }
  }

  /** Storing the whole table makes the image's table read as `t`. */
  lemma StoreTableRoundTrip(img: seq<byte>, t: seq<Inode>)
    requires IsImage(img) && TableShaped(t)
    ensures Table(StoreTable(img, t, MAX_INODES)) == t
  {
    forall j | 0 <= j < MAX_INODES
      ensures Table(StoreTable(img, t, MAX_INODES))[j] == t[j]
    {
      StoreTableReads(img, t, MAX_INODES, j);
    }
  }

  /** Byte `q` lies inside the 212-byte record of some slot. */
  predicate InRecord(q: nat)
  {
    TABLE_BYTE_START <= q < DATA_BYTE_START
    && (q - TABLE_BYTE_START) % INODE_SIZE < INODE_RECORD_SIZE
  }

  /** The slot whose stride holds table byte `q`, and `q`'s offset in it. */
  function RecordSlot(q: nat): nat
    requires TABLE_BYTE_START <= q
  {
    (q - TABLE_BYTE_START) / INODE_SIZE
  }

  function RecordOffset(q: nat): nat
    requires TABLE_BYTE_START <= q
  {
    (q - TABLE_BYTE_START) % INODE_SIZE
  }

  /** Byte `q` lies in slot `i`'s record exactly when it is a record byte
      whose slot is `i`, at offset q - InodePos(i). */
  lemma RecordPosition(q: nat, i: nat)
    requires i < MAX_INODES
    ensures (InodePos(i) <= q < InodePos(i) + INODE_RECORD_SIZE) <==> (InRecord(q) && RecordSlot(q) == i)
    ensures InodePos(i) <= q < InodePos(i) + INODE_RECORD_SIZE ==> RecordOffset(q) == q - InodePos(i)
  {
    InodeAddressing(i);
    if TABLE_BYTE_START <= q {
      var x := q - TABLE_BYTE_START;
      assert x == RecordSlot(q) * INODE_SIZE + RecordOffset(q);
      if InodePos(i) <= q < InodePos(i) + INODE_RECORD_SIZE {
        assert x == i * INODE_SIZE + (q - InodePos(i));
      }
    }
  }

  /** Byte `q` after storing slots below `n`: a byte of a stored record is
      that record's encoding, every other byte is the image's. */
  lemma {:induction false} StoreTableByte(img: seq<byte>, t: seq<Inode>, n: nat, q: nat)
    requires IsImage(img) && TableShaped(t) && n <= MAX_INODES && q < IMAGE_SIZE
    ensures InRecord(q) && RecordSlot(q) < n ==> RecordOffset(q) < INODE_RECORD_SIZE && RecordSlot(q) < MAX_INODES
    ensures StoreTable(img, t, n)[q] ==
      if InRecord(q) && RecordSlot(q) < n then EncodeInode(t[RecordSlot(q)])[RecordOffset(q)] else img[q]
  {
    if n > 0 {
      StoreTableByte(img, t, n - 1, q);
      RecordPosition(q, n - 1);
    }
  }

  /** A record byte outside the direct-pointer field is the same in the
      encoding of the slot's inode with its direct pointer replaced. */
  lemma DirectOnlyRecordByte(img: seq<byte>, j: nat, m: Inode, o: nat)
    requires IsImage(img) && j < MAX_INODES && o < INODE_RECORD_SIZE && !(40 <= o < 44)
    requires m == ReadInode(img, j).(direct := m.direct)
    ensures InodePos(j) + o < |img|
    ensures EncodeInode(m)[o] == img[InodePos(j) + o]
  {
    InodeAddressing(j);
    ReadInodeAbsolute(img, j);
    var rec := InodeRecord(img, j);
    InodeEncodeDecode(rec);
    SetDirectFrame(DecodeInode(rec), m.direct);
  }

  /** Storing a table whose entries differ from the image's at most in
      their direct pointers changes no byte outside the direct-pointer
      fields. */
  lemma StoreTableFrame(img: seq<byte>, t: seq<Inode>)
    requires IsImage(img) && TableShaped(t) && DirectsOnly(img, t)
    ensures forall q :: 0 <= q < IMAGE_SIZE && !InDirectField(q) ==> StoreTable(img, t, MAX_INODES)[q] == img[q]
  {
    forall q | 0 <= q < IMAGE_SIZE && !InDirectField(q)
      ensures StoreTable(img, t, MAX_INODES)[q] == img[q]
    {
      StoreTableKeepsByte(img, t, q);
    }
  }

  lemma StoreTableKeepsByte(img: seq<byte>, t: seq<Inode>, q: nat)
    requires IsImage(img) && TableShaped(t) && DirectsOnly(img, t)
    requires q < IMAGE_SIZE && !InDirectField(q)
    ensures StoreTable(img, t, MAX_INODES)[q] == img[q]
  {
    StoreTableByte(img, t, MAX_INODES, q);
    if InRecord(q) {
      var j := RecordSlot(q);
      RecordPosition(q, j);
      DirectOnlyRecordByte(img, j, t[j], RecordOffset(q));
    }
  }

  /** Storing the table an image already holds changes nothing. */
  lemma {:induction false} StoreTableSame(img: seq<byte>, n: nat)
    requires IsImage(img) && n <= MAX_INODES
    ensures StoreTable(img, Table(img), n) == img
  {
    if n > 0 {
      StoreTableSame(img, n - 1);
      RewriteSameInode(img, n - 1);
    }
  }

  /** Storing a table leaves every block before the inode table as it was. */
  lemma {:induction false} StoreTableKeepsBlock(img: seq<byte>, t: seq<Inode>, n: nat, b: nat)
    requires IsImage(img) && TableShaped(t) && n <= MAX_INODES && b < INODE_TABLE_START
    ensures ReadBlock(StoreTable(img, t, n), b) == ReadBlock(img, b)
  {
    if n > 0 {
      StoreTableKeepsBlock(img, t, n - 1, b);
      ReadBlockAfterWriteInode(StoreTable(img, t, n - 1), n - 1, t[n - 1], b);
    }
  }

  /** Writing a block before the inode table leaves the table as it was. */
  lemma TableAfterWriteBlock(img: seq<byte>, b: nat, buf: seq<byte>)
    requires IsImage(img) && b < INODE_TABLE_START && |buf| == BLOCK_SIZE
    ensures Table(WriteBlock(img, b, buf)) == Table(img)
  {
    forall j | 0 <= j < MAX_INODES
      ensures Table(WriteBlock(img, b, buf))[j] == Table(img)[j]
    {
      ReadInodeAfterWriteBlock(img, b, buf, j);
    }
  }
}
