/**
 * One iteration of the slot loop, described against the reference.
 *
 * While the slot loop is at slot `n`, the state it threads agrees with the
 * input on everything slot `n` reads: its inode bit, its inode, and the
 * usage counters, which record exactly the blocks claimed below `n`. Under
 * those facts each component of the next state is what the reference
 * predicts for slot `n`.
 */
module SlotOutcome {
  import opened Layout
  import opened Bitmap
  import opened Codec
  import opened Blocks
  import opened Reconciler
  import opened Reference

  /** Slot `n` of state `s` reads as slot `n` of the input disk. */
  predicate SeesInput(d: Disk, s: Pass, n: nat)
    requires DiskShaped(d) && WellShaped(s) && n < MAX_INODES
  {
    BitSet(s.inodeBitmap, n) == BitSet(d.inodeBitmap, n)
    && s.table[n] == d.inodes[n]
  }

  /** The usage counters record exactly the blocks claimed below slot `n`. */
  predicate UsedInv(d: Disk, s: Pass, n: nat)
    requires DiskShaped(d) && WellShaped(s) && n <= MAX_INODES
  {
    forall k :: 0 <= k < MAX_DATA_BLOCKS ==> s.used[k] == if ClaimedBefore(d, k, n) then 1 else 0
  }

  /** Slot `n` is the first claimant of the block its pointer names. */
  predicate FirstClaim(d: Disk, n: nat)
    requires DiskShaped(d) && n < MAX_INODES
  {
    Live(d, n) && IsDataBlockValid(d.inodes[n].direct)
    && !ClaimedBefore(d, BlockIndex(d.inodes[n].direct), n)
  }

  /** The data-block index slot `n` points at, when it points in range. */
  function PointedIndex(d: Disk, n: nat): (idx: nat)
    requires DiskShaped(d) && n < MAX_INODES
    ensures idx < MAX_DATA_BLOCKS
  {
    if IsDataBlockValid(d.inodes[n].direct) then BlockIndex(d.inodes[n].direct) else 0
  }

  /** The loop body on slot `n` skips it when its input bit is clear and
      otherwise judges the input inode; the state's counter for the block
      it points at is nonzero exactly when a lower slot claims that block. */
  lemma SlotBranch(fix: bool, d: Disk, s: Pass, n: nat)
    requires DiskShaped(d) && WellShaped(s) && n < MAX_INODES
    requires SeesInput(d, s, n) && UsedInv(d, s, n)
    ensures !BitSet(d.inodeBitmap, n) ==> Slot(fix, s, n) == s
    ensures BitSet(d.inodeBitmap, n) ==> Slot(fix, s, n) == AllocatedSlot(fix, s, n, d.inodes[n])
    ensures BitSet(d.inodeBitmap, n) ==> (DropsPointer(s, d.inodes[n]) <==> Zeroes(d, n))
    ensures BitSet(d.inodeBitmap, n) ==> (CountsBlock(s, d.inodes[n]) <==> FirstClaim(d, n))
  {
  }

  /** The table after slot `n`: slot `n` rewritten with a zero pointer
      exactly when the repair zeroes it. */
  lemma SlotTable(fix: bool, d: Disk, s: Pass, n: nat)
    requires DiskShaped(d) && WellShaped(s) && n < MAX_INODES
    requires SeesInput(d, s, n) && UsedInv(d, s, n)
    ensures Slot(fix, s, n).table ==
      if fix && Zeroes(d, n) then s.table[n := d.inodes[n].(direct := 0)] else s.table
  {
    SlotBranch(fix, d, s, n);
    if BitSet(d.inodeBitmap, n) {
      AllocatedTable(fix, s, n, d.inodes[n]);
    }
  }

  /** The inode bitmap after slot `n`: bit `n` cleared exactly when the
      repair frees an allocated dead inode. */
  lemma SlotInodeBitmap(fix: bool, d: Disk, s: Pass, n: nat)
    requires DiskShaped(d) && WellShaped(s) && n < MAX_INODES
    requires SeesInput(d, s, n) && UsedInv(d, s, n)
    ensures Slot(fix, s, n).inodeBitmap ==
      if fix && BitSet(d.inodeBitmap, n) && !ValidInode(d.inodes[n])
      then ClearBit(s.inodeBitmap, n) else s.inodeBitmap
  {
    SlotBranch(fix, d, s, n);
    if BitSet(d.inodeBitmap, n) {
      AllocatedInodeBitmap(fix, s, n, d.inodes[n]);
    }
  }

  /** The usage counters after slot `n`: the first claim of a block sets its
      counter to 1 and nothing else moves. */
  lemma SlotUsed(fix: bool, d: Disk, s: Pass, n: nat)
    requires DiskShaped(d) && WellShaped(s) && n < MAX_INODES
    requires SeesInput(d, s, n) && UsedInv(d, s, n)
    ensures Slot(fix, s, n).used ==
      if FirstClaim(d, n) then s.used[PointedIndex(d, n) := 1] else s.used
  {
    SlotBranch(fix, d, s, n);
    if BitSet(d.inodeBitmap, n) {
      AllocatedUsed(fix, s, n, d.inodes[n]);
    }
  }

  /** The data bitmap after slot `n`: a first claim on a block whose bit is
      clear sets that bit when repairing, and nothing else moves. */
  lemma SlotDataBitmap(fix: bool, d: Disk, s: Pass, n: nat)
    requires DiskShaped(d) && WellShaped(s) && n < MAX_INODES
    requires SeesInput(d, s, n) && UsedInv(d, s, n)
    ensures Slot(fix, s, n).dataBitmap ==
      if fix && FirstClaim(d, n) && !BitSet(s.dataBitmap, PointedIndex(d, n))
      then SetBit(s.dataBitmap, PointedIndex(d, n)) else s.dataBitmap
  {
    SlotBranch(fix, d, s, n);
    if BitSet(d.inodeBitmap, n) {
      AllocatedDataBitmap(fix, s, n, d.inodes[n]);
    }
  }

  /** The findings after slot `n`: the input's verdict on slot `n` is
      appended, provided the data bits of still unclaimed blocks are the
      input's. */
  lemma SlotFindings(fix: bool, d: Disk, s: Pass, n: nat)
    requires DiskShaped(d) && WellShaped(s) && n < MAX_INODES
    requires SeesInput(d, s, n) && UsedInv(d, s, n)
    requires FirstClaim(d, n) ==>
      BitSet(s.dataBitmap, PointedIndex(d, n)) == BitSet(d.dataBitmap, PointedIndex(d, n))
    ensures Slot(fix, s, n).findings == s.findings + SlotVerdict(d, n)
  {
    SlotBranch(fix, d, s, n);
    if BitSet(d.inodeBitmap, n) {
      AllocatedFindings(fix, s, n, d.inodes[n]);
    }
  }
}
