/**
 * Layout of a VSFS image: the fixed geometry every other module hard-codes.
 *
 * Block 0 holds the superblock, block 1 the inode bitmap, block 2 the data
 * bitmap, blocks 3..7 the inode table and blocks 8..63 the data region.
 * The checker never trusts the on-disk superblock for these numbers; they are
 * compile-time constants of the format.
 */
module Layout {

  /** One byte of the image. */
  type byte = bv8

  /** The unsigned integer widths of the packed on-disk records; C's
      unsigned comparisons on them are the bit-vector comparisons. */
  type u16 = bv16
  type u32 = bv32

  const BLOCK_SIZE: nat := 4096
  const TOTAL_BLOCKS: nat := 64

  const SUPERBLOCK_BLOCK: nat := 0
  const INODE_BITMAP_BLOCK: nat := 1
  const DATA_BITMAP_BLOCK: nat := 2
  const INODE_TABLE_START: nat := 3
  const INODE_TABLE_BLOCKS: nat := 5
  const DATA_BLOCK_START: nat := 8
  const INODE_SIZE: nat := 256

  /** Derived bounds: inode slots in the table and blocks in the data
      region. DerivedBounds checks them against the header's formulas. */
  const MAX_INODES: nat := 80
  const MAX_DATA_BLOCKS: nat := 56

  /** Bytes of each bitmap that carry bits the checker examines. */
  const INODE_BITMAP_BYTES: nat := 10
  const DATA_BITMAP_BYTES: nat := 7

  const MAGIC_NUMBER: u16 := 0xD34D

  /** Sizes of the packed records (no padding between fields). */
  const SUPERBLOCK_FIELDS_SIZE: nat := 2 + 8 * 4
  const SUPERBLOCK_RESERVED: nat := 4058
  const SUPERBLOCK_RECORD_SIZE: nat := SUPERBLOCK_FIELDS_SIZE + SUPERBLOCK_RESERVED
  const INODE_FIELDS_SIZE: nat := 14 * 4
  const INODE_RESERVED: nat := 156
  const INODE_RECORD_SIZE: nat := INODE_FIELDS_SIZE + INODE_RESERVED

  /** The whole device image. */
  const IMAGE_SIZE: nat := TOTAL_BLOCKS * BLOCK_SIZE

  /** First byte of the inode table and first byte of the data region. */
  const TABLE_BYTE_START: nat := INODE_TABLE_START * BLOCK_SIZE
  const DATA_BYTE_START: nat := DATA_BLOCK_START * BLOCK_SIZE

  /** The header derives the bounds as table bytes over slot size and total
      blocks less the data-region start; both come to the values above. */
  lemma DerivedBounds()
    ensures MAX_INODES == (INODE_TABLE_BLOCKS * BLOCK_SIZE) / INODE_SIZE
    ensures MAX_DATA_BLOCKS == TOTAL_BLOCKS - DATA_BLOCK_START
  {
  }

  /** The inode table occupies blocks [3, 8), ends exactly where the data
      region starts, and holds 16 inode slots per block. */
  lemma InodeTableGeometry()
    ensures INODE_TABLE_START + INODE_TABLE_BLOCKS == DATA_BLOCK_START
    ensures BLOCK_SIZE / INODE_SIZE == 16
    ensures MAX_INODES == INODE_TABLE_BLOCKS * (BLOCK_SIZE / INODE_SIZE)
    ensures TABLE_BYTE_START + MAX_INODES * INODE_SIZE == DATA_BYTE_START
    ensures SUPERBLOCK_BLOCK < INODE_BITMAP_BLOCK < DATA_BITMAP_BLOCK < INODE_TABLE_START
  {
  }

  /** Each bitmap fits in its single block: 80 inode bits need 10 bytes and
      56 data-block bits need 7, both well under one block. */
  lemma BitmapsFitInOneBlock()
    ensures MAX_INODES == 8 * INODE_BITMAP_BYTES
    ensures MAX_DATA_BLOCKS == 8 * DATA_BITMAP_BYTES
    ensures INODE_BITMAP_BYTES <= BLOCK_SIZE && DATA_BITMAP_BYTES <= BLOCK_SIZE
  {
  }

  /** The packed superblock is 34 bytes of fields plus 4058 reserved bytes,
      4092 in all, four bytes short of a block; the packed inode is 56 bytes
      of fields plus 156 reserved bytes, 212 in all, less than its 256-byte slot. */
  lemma RecordSizes()
    ensures SUPERBLOCK_FIELDS_SIZE == 34
    ensures SUPERBLOCK_RECORD_SIZE == 4092 == BLOCK_SIZE - 4
    ensures INODE_RECORD_SIZE == 212 < INODE_SIZE
  {
  }
}
