/**
 * One run of the checker on an image, and the repair run followed by the
 * re-check it triggers.
 *
 * A run checks the superblock read from block 0, loads the two bitmap
 * blocks and the inode table, runs the reconciler and, in repair mode,
 * puts the table back and writes both bitmaps back to their blocks. The
 * reconciler rewrites a record in place as soon as it zeroes its pointer;
 * it never reads that record again, so storing the final table once, after
 * the loop, leaves the same bytes (Blocks.StoreTableSame and
 * Blocks.StoreTableFrame say which bytes that can be).
 */
module Driver {
  import opened Layout
  import opened Bitmap
  import opened Codec
  import opened Blocks
  import opened Reconciler
  import opened Reference
  import opened SuperblockCheck
  import opened Theorems

  /** What a run produces: its two reports and the image it leaves. */
  datatype Outcome = Outcome(superblockFindings: seq<SbFinding>, findings: seq<Finding>, image: seq<byte>)

  /** The superblock as the checker reads it from block 0. */
  function SuperblockOf(img: seq<byte>): Superblock
    requires IsImage(img)
  {
    DecodeSuperblock(ReadBlock(img, SUPERBLOCK_BLOCK))
  }

  /** The disk a run on `img` examines. */
  function DiskAt(img: seq<byte>): (d: Disk)
    requires IsImage(img)
    ensures DiskShaped(d)
  {
    Disk(LoadBitmap(img, INODE_BITMAP_BLOCK), LoadBitmap(img, DATA_BITMAP_BLOCK), Table(img))
  }

  /** The reconciler's pass over what a run loads from `img`. Its table
      differs from the image's only in direct pointers. */
  function PassOn(fix: bool, img: seq<byte>): (r: Pass)
    requires IsImage(img)
    ensures WellShaped(r) && TableShaped(r.table) && DirectsOnly(img, r.table)
  {
    PassTableShape(fix, img);
    CheckAndFix(fix, LoadBitmap(img, INODE_BITMAP_BLOCK), LoadBitmap(img, DATA_BITMAP_BLOCK), Table(img))
  }

  /** The image a pass over `img` leaves: in repair mode, the pass's table
      stored over the old one and both bitmaps written back; in check mode,
      `img` itself. */
  function WriteBack(fix: bool, img: seq<byte>, r: Pass): (out: seq<byte>)
    requires IsImage(img) && WellShaped(r) && TableShaped(r.table)
    ensures IsImage(out)
  {
    if fix then
      WriteBlock(WriteBlock(StoreTable(img, r.table, MAX_INODES), INODE_BITMAP_BLOCK, r.inodeBitmap),
                 DATA_BITMAP_BLOCK, r.dataBitmap)
    else img
  }

  /** One run of the checker. */
  function Run(fix: bool, img: seq<byte>): (o: Outcome)
    requires IsImage(img)
    ensures IsImage(o.image)
  {
    var r := PassOn(fix, img);
    Outcome(CheckSuperblock(SuperblockOf(img)), r.findings, WriteBack(fix, img, r))
  }

  /** A repair run followed by the check-mode run on the image it left. */
  function FixThenRecheck(img: seq<byte>): (runs: (Outcome, Outcome))
    requires IsImage(img)
    ensures IsImage(runs.0.image) && IsImage(runs.1.image)
  {
    var first := Run(true, img);
    (first, Run(false, first.image))
  }

  // ---------------------------------------------------------------------
  // The pass's table and what a repair run writes

  /** In either mode the pass's table is the image's, direct pointers aside. */
  lemma PassTableShape(fix: bool, img: seq<byte>)
    requires IsImage(img)
    ensures var r := CheckAndFix(fix, LoadBitmap(img, INODE_BITMAP_BLOCK), LoadBitmap(img, DATA_BITMAP_BLOCK), Table(img));
            TableShaped(r.table) && DirectsOnly(img, r.table)
  {
    var ib := LoadBitmap(img, INODE_BITMAP_BLOCK);
    var db := LoadBitmap(img, DATA_BITMAP_BLOCK);
    if fix {
      RepairFrame(ib, db, Table(img));
    } else {
      CheckModeChangesNothing(ib, db, Table(img));
    }
  }

  /** After a repair run the bitmap blocks hold the pass's bitmaps and the
      table reads as the pass's table. */
  lemma WriteBackDisk(img: seq<byte>, r: Pass)
    requires IsImage(img) && WellShaped(r) && TableShaped(r.table)
    ensures DiskAt(WriteBack(true, img, r)) == Disk(r.inodeBitmap, r.dataBitmap, r.table)
  {
    var stored := StoreTable(img, r.table, MAX_INODES);
    var mid := WriteBlock(stored, INODE_BITMAP_BLOCK, r.inodeBitmap);
    var out := WriteBlock(mid, DATA_BITMAP_BLOCK, r.dataBitmap);
    ReadAfterWriteBlock(stored, INODE_BITMAP_BLOCK, r.inodeBitmap, INODE_BITMAP_BLOCK);
    ReadAfterWriteBlock(mid, DATA_BITMAP_BLOCK, r.dataBitmap, INODE_BITMAP_BLOCK);
    assert LoadBitmap(out, INODE_BITMAP_BLOCK) == r.inodeBitmap;
    assert LoadBitmap(out, DATA_BITMAP_BLOCK) == r.dataBitmap;
    StoreTableRoundTrip(img, r.table);
    TableAfterWriteBlock(stored, INODE_BITMAP_BLOCK, r.inodeBitmap);
    TableAfterWriteBlock(mid, DATA_BITMAP_BLOCK, r.dataBitmap);
  }

  /** The image the checker's own writes leave after slots 0..n-1 of a
      repair pass over `img`: when the loop reaches a slot whose pointer it
      zeroes, it reads that slot's record from the image as it stands,
      sets the pointer to 0 and writes the record back to the same place. */
  function InPlace(img: seq<byte>, n: nat): (r: seq<byte>)
    requires IsImage(img) && n <= MAX_INODES
    ensures IsImage(r)
  {
    if n == 0 then img
    else
      var prev := InPlace(img, n - 1);
      if Zeroes(DiskAt(img), n - 1) then WriteInode(prev, n - 1, ReadInode(prev, n - 1).(direct := 0))
      else prev
  }

  /** Rewriting the zeroed slots one by one, as the loop does, leaves the
      same bytes as storing, slot by slot, a table that holds the zeroed
      records and the image's own records elsewhere. */
  lemma {:induction false} InPlaceIsStore(img: seq<byte>, t: seq<Inode>, n: nat)
    requires IsImage(img) && TableShaped(t) && n <= MAX_INODES
    requires forall j :: 0 <= j < MAX_INODES ==>
      t[j] == if Zeroes(DiskAt(img), j) then ReadInode(img, j).(direct := 0) else ReadInode(img, j)
    ensures InPlace(img, n) == StoreTable(img, t, n)
  {
    if n > 0 {
      InPlaceIsStore(img, t, n - 1);
      var prev := StoreTable(img, t, n - 1);
      StoreTableReads(img, t, n - 1, n - 1);
      if !Zeroes(DiskAt(img), n - 1) {
        RewriteSameInode(prev, n - 1);
      }
    }
  }

  /** A repair run leaves exactly the image the checker's in-place record
      rewrites followed by its two bitmap block writes leave. */
  lemma RepairRunInPlace(img: seq<byte>)
    requires IsImage(img)
    ensures var r := PassOn(true, img);
            Run(true, img).image ==
              WriteBlock(WriteBlock(InPlace(img, MAX_INODES), INODE_BITMAP_BLOCK, r.inodeBitmap),
                         DATA_BITMAP_BLOCK, r.dataBitmap)
  {
    var r := PassOn(true, img);
    RepairResult(LoadBitmap(img, INODE_BITMAP_BLOCK), LoadBitmap(img, DATA_BITMAP_BLOCK), Table(img));
    assert DiskAt(img) == Disk(LoadBitmap(img, INODE_BITMAP_BLOCK), LoadBitmap(img, DATA_BITMAP_BLOCK), Table(img));
    InPlaceIsStore(img, r.table, MAX_INODES);
  }

  // ---------------------------------------------------------------------
  // Properties of runs

  /** A run reports each complaint the reference finds on the disk it
      examines, in order, whichever the mode. */
  lemma RunReport(fix: bool, img: seq<byte>)
    requires IsImage(img)
    ensures Run(fix, img).findings == ExpectedFindings(DiskAt(img))
    ensures Run(fix, img).findings == Run(!fix, img).findings
  {
    PassFindings(fix, LoadBitmap(img, INODE_BITMAP_BLOCK), LoadBitmap(img, DATA_BITMAP_BLOCK), Table(img));
    PassFindings(!fix, LoadBitmap(img, INODE_BITMAP_BLOCK), LoadBitmap(img, DATA_BITMAP_BLOCK), Table(img));
  }

  /** A repair run leaves the repaired disk, which is consistent. */
  lemma RepairRunResult(img: seq<byte>)
    requires IsImage(img)
    ensures FixedFrom(DiskAt(img), DiskAt(Run(true, img).image))
    ensures Consistent(DiskAt(Run(true, img).image))
  {
    var ib := LoadBitmap(img, INODE_BITMAP_BLOCK);
    var db := LoadBitmap(img, DATA_BITMAP_BLOCK);
    RepairResult(ib, db, Table(img));
    RepairIsConsistent(ib, db, Table(img));
    WriteBackDisk(img, PassOn(true, img));
  }

  /** A byte outside the examined bitmap bits and the direct-pointer
      fields, which a repair run may leave alone. */
  predicate Untouched(q: nat)
  {
    q < IMAGE_SIZE && !InDirectField(q)
    && !(INODE_BITMAP_BLOCK * BLOCK_SIZE <= q < INODE_BITMAP_BLOCK * BLOCK_SIZE + INODE_BITMAP_BYTES)
    && !(DATA_BITMAP_BLOCK * BLOCK_SIZE <= q < DATA_BITMAP_BLOCK * BLOCK_SIZE + DATA_BITMAP_BYTES)
  }

  /** Writing back a pass whose table differs from the image's only in
      direct pointers, and whose bitmaps differ from the image's only in
      their examined bits, keeps byte `q` if it is untouched. */
  lemma WriteBackByte(img: seq<byte>, r: Pass, q: nat)
    requires IsImage(img) && WellShaped(r) && TableShaped(r.table) && DirectsOnly(img, r.table)
    requires forall k :: INODE_BITMAP_BYTES <= k < BLOCK_SIZE ==>
      r.inodeBitmap[k] == LoadBitmap(img, INODE_BITMAP_BLOCK)[k]
    requires forall k :: DATA_BITMAP_BYTES <= k < BLOCK_SIZE ==>
      r.dataBitmap[k] == LoadBitmap(img, DATA_BITMAP_BLOCK)[k]
    requires Untouched(q)
    ensures WriteBack(true, img, r)[q] == img[q]
  {
    var stored := StoreTable(img, r.table, MAX_INODES);
    var mid := WriteBlock(stored, INODE_BITMAP_BLOCK, r.inodeBitmap);
    var out := WriteBlock(mid, DATA_BITMAP_BLOCK, r.dataBitmap);
    assert WriteBack(true, img, r) == out;
    if INODE_BITMAP_BLOCK * BLOCK_SIZE <= q < DATA_BITMAP_BLOCK * BLOCK_SIZE {
      var k := q - INODE_BITMAP_BLOCK * BLOCK_SIZE;
      assert mid[q] == r.inodeBitmap[k] == LoadBitmap(img, INODE_BITMAP_BLOCK)[k];
      assert out[q] == mid[q];
    } else if DATA_BITMAP_BLOCK * BLOCK_SIZE <= q < (DATA_BITMAP_BLOCK + 1) * BLOCK_SIZE {
      var k := q - DATA_BITMAP_BLOCK * BLOCK_SIZE;
      assert out[q] == r.dataBitmap[k] == LoadBitmap(img, DATA_BITMAP_BLOCK)[k];
    } else {
      StoreTableKeepsByte(img, r.table, q);
      assert out[q] == mid[q] == stored[q];
    }
  }

  /** A repair run changes no byte of the image but the examined bitmap
      bits and the direct-pointer fields of the inode table. */
  lemma RepairRunFrame(img: seq<byte>)
    requires IsImage(img)
    ensures forall q: nat :: Untouched(q) ==> Run(true, img).image[q] == img[q]
  {
    var r := PassOn(true, img);
    RepairFrame(LoadBitmap(img, INODE_BITMAP_BLOCK), LoadBitmap(img, DATA_BITMAP_BLOCK), Table(img));
    forall q: nat | Untouched(q)
      ensures WriteBack(true, img, r)[q] == img[q]
    {
      WriteBackByte(img, r, q);
    }
  }

  /** Two images that keep every untouched byte of `img` and both hold a
      repair of its disk hold the same disk. */
  lemma SameRepairedDisk(img: seq<byte>, a: seq<byte>, b: seq<byte>)
    requires IsImage(img) && IsImage(a) && IsImage(b)
    requires forall q: nat :: Untouched(q) ==> a[q] == img[q] && b[q] == img[q]
    requires FixedFrom(DiskAt(img), DiskAt(a)) && FixedFrom(DiskAt(img), DiskAt(b))
    ensures DiskAt(a) == DiskAt(b)
  {
    var ia, ib := LoadBitmap(a, INODE_BITMAP_BLOCK), LoadBitmap(b, INODE_BITMAP_BLOCK);
    var da, db := LoadBitmap(a, DATA_BITMAP_BLOCK), LoadBitmap(b, DATA_BITMAP_BLOCK);
    forall k | INODE_BITMAP_BYTES <= k < BLOCK_SIZE
      ensures ia[k] == ib[k]
    {
      assert Untouched(INODE_BITMAP_BLOCK * BLOCK_SIZE + k);
    }
    forall k | DATA_BITMAP_BYTES <= k < BLOCK_SIZE
      ensures da[k] == db[k]
    {
      assert Untouched(DATA_BITMAP_BLOCK * BLOCK_SIZE + k);
    }
    BitmapExtensionality(ia, ib, INODE_BITMAP_BYTES);
    BitmapExtensionality(da, db, DATA_BITMAP_BYTES);
    assert Table(a) == Table(b);
  }

  /** A byte outside the direct-pointer fields agrees between two images
      that keep every untouched byte of `img` and hold the same disk. */
  lemma SameDiskSameByte(img: seq<byte>, a: seq<byte>, b: seq<byte>, q: nat)
    requires IsImage(img) && IsImage(a) && IsImage(b)
    requires forall p: nat :: Untouched(p) ==> a[p] == img[p] && b[p] == img[p]
    requires DiskAt(a) == DiskAt(b)
    requires q < IMAGE_SIZE && !InDirectField(q)
    ensures a[q] == b[q]
  {
    if !Untouched(q) {
      if q < DATA_BITMAP_BLOCK * BLOCK_SIZE {
        var k := q - INODE_BITMAP_BLOCK * BLOCK_SIZE;
        assert a[q] == LoadBitmap(a, INODE_BITMAP_BLOCK)[k] == LoadBitmap(b, INODE_BITMAP_BLOCK)[k] == b[q];
      } else {
        var k := q - DATA_BITMAP_BLOCK * BLOCK_SIZE;
        assert a[q] == LoadBitmap(a, DATA_BITMAP_BLOCK)[k] == LoadBitmap(b, DATA_BITMAP_BLOCK)[k] == b[q];
      }
    }
  }

  /** Two images that keep every untouched byte of `img` and hold the same
      disk are the same image. */
  lemma SameDiskSameImage(img: seq<byte>, a: seq<byte>, b: seq<byte>)
    requires IsImage(img) && IsImage(a) && IsImage(b)
    requires forall q: nat :: Untouched(q) ==> a[q] == img[q] && b[q] == img[q]
    requires DiskAt(a) == DiskAt(b)
    ensures a == b
  {
    forall q | 0 <= q < |a| && !InDirectField(q)
      ensures a[q] == b[q]
    {
      SameDiskSameByte(img, a, b, q);
    }
    forall j | 0 <= j < MAX_INODES
      ensures ReadInode(a, j).direct == ReadInode(b, j).direct
    {
      assert Table(a)[j] == Table(b)[j];
    }
    ImageExtensionality(a, b);
  }

  /** The repair run's image is the only image that keeps every untouched
      byte of `img` and holds the repaired disk: RepairRunFrame and
      RepairRunResult between them pin down every byte. */
  lemma RepairRunDetermined(img: seq<byte>, out: seq<byte>)
    requires IsImage(img) && IsImage(out)
    requires forall q: nat :: Untouched(q) ==> out[q] == img[q]
    requires FixedFrom(DiskAt(img), DiskAt(out))
    ensures out == Run(true, img).image
  {
    var res := Run(true, img).image;
    RepairRunFrame(img);
    RepairRunResult(img);
    SameRepairedDisk(img, out, res);
    SameDiskSameImage(img, out, res);
  }

  /** No run touches the superblock, so the re-check sees the same one. */
  lemma RunKeepsSuperblock(fix: bool, img: seq<byte>)
    requires IsImage(img)
    ensures ReadBlock(Run(fix, img).image, SUPERBLOCK_BLOCK) == ReadBlock(img, SUPERBLOCK_BLOCK)
    ensures SuperblockOf(Run(fix, img).image) == SuperblockOf(img)
  {
    if fix {
      var r := PassOn(true, img);
      var stored := StoreTable(img, r.table, MAX_INODES);
      StoreTableKeepsBlock(img, r.table, MAX_INODES, SUPERBLOCK_BLOCK);
      ReadAfterWriteBlock(stored, INODE_BITMAP_BLOCK, r.inodeBitmap, SUPERBLOCK_BLOCK);
      ReadAfterWriteBlock(WriteBlock(stored, INODE_BITMAP_BLOCK, r.inodeBitmap), DATA_BITMAP_BLOCK, r.dataBitmap, SUPERBLOCK_BLOCK);
    }
  }

  /** A run on a consistent disk reports only zero direct pointers and
      leaves the image exactly as it found it, in either mode. */
  lemma RunOnConsistent(fix: bool, img: seq<byte>)
    requires IsImage(img) && Consistent(DiskAt(img))
    ensures Run(fix, img).findings == ZeroPointerReports(DiskAt(img), MAX_INODES)
    ensures Run(fix, img).image == img
  {
    var ib := LoadBitmap(img, INODE_BITMAP_BLOCK);
    var db := LoadBitmap(img, DATA_BITMAP_BLOCK);
    ConsistentPass(fix, ib, db, Table(img));
    if fix {
      StoreTableSame(img, MAX_INODES);
      WriteBackUnchanged(img, INODE_BITMAP_BLOCK);
      WriteBackUnchanged(img, DATA_BITMAP_BLOCK);
    }
  }

  /** The re-check after a repair run sees the same superblock, reports
      nothing but zero direct pointers and changes nothing. */
  lemma RecheckAfterFix(img: seq<byte>)
    requires IsImage(img)
    ensures var (first, second) := FixThenRecheck(img);
            second.superblockFindings == first.superblockFindings
            && second.findings == ZeroPointerReports(DiskAt(first.image), MAX_INODES)
            && (forall k :: 0 <= k < |second.findings| ==>
                  second.findings[k].BadDirect? && second.findings[k].block == 0)
            && second.image == first.image
  {
    var first := Run(true, img);
    RunKeepsSuperblock(true, img);
    RepairRunResult(img);
    RunOnConsistent(false, first.image);
  }

  /** A second repair run changes no byte and reports only zero direct
      pointers. */
  lemma SecondRepairIsIdentity(img: seq<byte>)
    requires IsImage(img)
    ensures Run(true, Run(true, img).image).image == Run(true, img).image
    ensures Run(true, Run(true, img).image).findings == ZeroPointerReports(DiskAt(Run(true, img).image), MAX_INODES)
  {
    RepairRunResult(img);
    RunOnConsistent(true, Run(true, img).image);
  }
}
