/**
 * What one reconciler pass does, stated on its inputs: the findings it
 * reports, the bitmaps and inode table it leaves, and what a second pass
 * finds.
 */
module Theorems {
  import opened Layout
  import opened Bitmap
  import opened Codec
  import opened Blocks
  import opened Reconciler
  import opened Reference
  import opened SlotOutcome
  import opened ScanProof
  import opened OrphanProof

  /** The inputs a pass accepts: two bitmap blocks and a full inode table. */
  predicate Inputs(inodeBitmap: seq<byte>, dataBitmap: seq<byte>, table: seq<Inode>)
  {
    |inodeBitmap| == BLOCK_SIZE && |dataBitmap| == BLOCK_SIZE && |table| == MAX_INODES
  }

  /** Both loop invariants, at the end of each loop. */
  lemma PassInvariants(fix: bool, inodeBitmap: seq<byte>, dataBitmap: seq<byte>, table: seq<Inode>)
    requires Inputs(inodeBitmap, dataBitmap, table)
    ensures var d := Disk(inodeBitmap, dataBitmap, table);
            var o := Start(inodeBitmap, dataBitmap, table);
            var t0 := ScanSlots(fix, o, MAX_INODES);
            SlotsInv(fix, d, o, t0, MAX_INODES)
            && AfterSlots(fix, d, t0)
            && OrphansInv(fix, d, t0, CheckAndFix(fix, inodeBitmap, dataBitmap, table), MAX_DATA_BLOCKS)
  {
    var d := Disk(inodeBitmap, dataBitmap, table);
    var o := Start(inodeBitmap, dataBitmap, table);
    assert StartsFrom(d, o);
    ScanSlotsInv(fix, d, o, MAX_INODES);
    var t0 := ScanSlots(fix, o, MAX_INODES);
    ScanOrphansInv(fix, d, t0, MAX_DATA_BLOCKS);
  }

  /** A pass reports, in order, each allocated slot's complaint and then
      each orphan, exactly as the reference judges the input. */
  lemma PassFindings(fix: bool, inodeBitmap: seq<byte>, dataBitmap: seq<byte>, table: seq<Inode>)
    requires Inputs(inodeBitmap, dataBitmap, table)
    ensures CheckAndFix(fix, inodeBitmap, dataBitmap, table).findings ==
      ExpectedFindings(Disk(inodeBitmap, dataBitmap, table))
  {
    PassInvariants(fix, inodeBitmap, dataBitmap, table);
  }

  /** Check mode and repair mode report the same findings (the printed
      lines differ only in repair mode's trailing "Fixed."). */
  lemma ReportIndependentOfMode(inodeBitmap: seq<byte>, dataBitmap: seq<byte>, table: seq<Inode>)
    requires Inputs(inodeBitmap, dataBitmap, table)
    ensures CheckAndFix(true, inodeBitmap, dataBitmap, table).findings ==
      CheckAndFix(false, inodeBitmap, dataBitmap, table).findings
  {
    PassFindings(true, inodeBitmap, dataBitmap, table);
    PassFindings(false, inodeBitmap, dataBitmap, table);
  }

  /** Check mode leaves both bitmaps and the inode table exactly as it found
      them. */
  lemma CheckModeChangesNothing(inodeBitmap: seq<byte>, dataBitmap: seq<byte>, table: seq<Inode>)
    requires Inputs(inodeBitmap, dataBitmap, table)
    ensures var r := CheckAndFix(false, inodeBitmap, dataBitmap, table);
            r.inodeBitmap == inodeBitmap && r.dataBitmap == dataBitmap && r.table == table
  {
    PassInvariants(false, inodeBitmap, dataBitmap, table);
  }

  /** After a pass every usage counter is 1 for a referenced block and 0
      otherwise: a block is counted once however many slots claim it. */
  lemma PassUsage(fix: bool, inodeBitmap: seq<byte>, dataBitmap: seq<byte>, table: seq<Inode>)
    requires Inputs(inodeBitmap, dataBitmap, table)
    ensures var r := CheckAndFix(fix, inodeBitmap, dataBitmap, table);
            forall k :: 0 <= k < MAX_DATA_BLOCKS ==>
              r.used[k] == if Referenced(Disk(inodeBitmap, dataBitmap, table), k) then 1 else 0
  {
    PassInvariants(fix, inodeBitmap, dataBitmap, table);
  }

  /** Repair mode leaves the repaired disk: the live slots allocated, the
      referenced blocks marked and the offending pointers zeroed. */
  lemma RepairResult(inodeBitmap: seq<byte>, dataBitmap: seq<byte>, table: seq<Inode>)
    requires Inputs(inodeBitmap, dataBitmap, table)
    ensures var r := CheckAndFix(true, inodeBitmap, dataBitmap, table);
            FixedFrom(Disk(inodeBitmap, dataBitmap, table), Disk(r.inodeBitmap, r.dataBitmap, r.table))
  {
    PassInvariants(true, inodeBitmap, dataBitmap, table);
  }

  /** Repair mode touches nothing but the examined bitmap bits and the
      direct pointers of the inode table. */
  lemma RepairFrame(inodeBitmap: seq<byte>, dataBitmap: seq<byte>, table: seq<Inode>)
    requires Inputs(inodeBitmap, dataBitmap, table)
    ensures var r := CheckAndFix(true, inodeBitmap, dataBitmap, table);
            (forall k :: INODE_BITMAP_BYTES <= k < BLOCK_SIZE ==> r.inodeBitmap[k] == inodeBitmap[k])
            && (forall k :: DATA_BITMAP_BYTES <= k < BLOCK_SIZE ==> r.dataBitmap[k] == dataBitmap[k])
            && (forall j :: 0 <= j < MAX_INODES ==> r.table[j] == table[j].(direct := r.table[j].direct))
  {
    PassInvariants(true, inodeBitmap, dataBitmap, table);
  }

  /** Repair mode leaves a consistent disk. */
  lemma RepairIsConsistent(inodeBitmap: seq<byte>, dataBitmap: seq<byte>, table: seq<Inode>)
    requires Inputs(inodeBitmap, dataBitmap, table)
    ensures var r := CheckAndFix(true, inodeBitmap, dataBitmap, table);
            Consistent(Disk(r.inodeBitmap, r.dataBitmap, r.table))
  {
    RepairResult(inodeBitmap, dataBitmap, table);
    var r := CheckAndFix(true, inodeBitmap, dataBitmap, table);
    FixRestoresConsistency(Disk(inodeBitmap, dataBitmap, table), Disk(r.inodeBitmap, r.dataBitmap, r.table));
  }

  /** A pass over a consistent disk reports only zero direct pointers, and
      a repair of it changes no byte. */
  lemma ConsistentPass(fix: bool, inodeBitmap: seq<byte>, dataBitmap: seq<byte>, table: seq<Inode>)
    requires Inputs(inodeBitmap, dataBitmap, table) && Consistent(Disk(inodeBitmap, dataBitmap, table))
    ensures var r := CheckAndFix(fix, inodeBitmap, dataBitmap, table);
            r.findings == ZeroPointerReports(Disk(inodeBitmap, dataBitmap, table), MAX_INODES)
            && r.inodeBitmap == inodeBitmap && r.dataBitmap == dataBitmap && r.table == table
  {
    var d := Disk(inodeBitmap, dataBitmap, table);
    PassFindings(fix, inodeBitmap, dataBitmap, table);
    ConsistentFindings(d);
    if fix {
      var r := CheckAndFix(true, inodeBitmap, dataBitmap, table);
      var e := Disk(r.inodeBitmap, r.dataBitmap, r.table);
      RepairResult(inodeBitmap, dataBitmap, table);
      RepairFrame(inodeBitmap, dataBitmap, table);
      FixOfConsistentIsIdentity(d, e);
      BitmapsFitInOneBlock();
      BitmapExtensionality(r.inodeBitmap, inodeBitmap, INODE_BITMAP_BYTES);
      BitmapExtensionality(r.dataBitmap, dataBitmap, DATA_BITMAP_BYTES);
    } else {
      CheckModeChangesNothing(inodeBitmap, dataBitmap, table);
    }
  }

  /** Re-checking a repaired disk finds only zero direct pointers, and
      repairing it again changes no byte. */
  lemma RepairConverges(fix: bool, inodeBitmap: seq<byte>, dataBitmap: seq<byte>, table: seq<Inode>)
    requires Inputs(inodeBitmap, dataBitmap, table)
    ensures var r := CheckAndFix(true, inodeBitmap, dataBitmap, table);
            var r2 := CheckAndFix(fix, r.inodeBitmap, r.dataBitmap, r.table);
            r2.findings == ZeroPointerReports(Disk(r.inodeBitmap, r.dataBitmap, r.table), MAX_INODES)
            && r2.inodeBitmap == r.inodeBitmap && r2.dataBitmap == r.dataBitmap && r2.table == r.table
  {
    RepairIsConsistent(inodeBitmap, dataBitmap, table);
    var r := CheckAndFix(true, inodeBitmap, dataBitmap, table);
    ConsistentPass(fix, r.inodeBitmap, r.dataBitmap, r.table);
  }
}
