/**
 * The slot loop against the reference: after slots 0..n-1 the threaded
 * state holds, component by component, what the reference predicts for a
 * pass that has judged exactly those slots of the input disk.
 */
module ScanProof {
  import opened Layout
  import opened Bitmap
  import opened Codec
  import opened Blocks
  import opened Reconciler
  import opened Reference
  import opened SlotOutcome

  /** `o` is the state a pass over disk `d` starts from. */
  predicate StartsFrom(d: Disk, o: Pass)
    requires DiskShaped(d) && WellShaped(o)
  {
    o.inodeBitmap == d.inodeBitmap && o.dataBitmap == d.dataBitmap
    && o.table == d.inodes
    && (forall k :: 0 <= k < MAX_DATA_BLOCKS ==> o.used[k] == 0)
    && o.findings == []
  }

  /** Slot `j`'s inode once slots below `n` are judged: a repair has zeroed
      its pointer if it is one the repair zeroes. */
  function InodeAfter(fix: bool, d: Disk, j: nat, n: nat): Inode
    requires DiskShaped(d) && j < MAX_INODES
  {
    if fix && j < n && Zeroes(d, j) then d.inodes[j].(direct := 0) else d.inodes[j]
  }

  /** The inode bitmap once slots below `n` are judged: a repair has freed
      the allocated dead inodes among them; no byte past the inode bits
      moved. */
  predicate InodeBitsAfter(fix: bool, d: Disk, s: Pass, n: nat)
    requires DiskShaped(d) && WellShaped(s)
  {
    (forall j :: 0 <= j < MAX_INODES ==>
      BitSet(s.inodeBitmap, j) == (BitSet(d.inodeBitmap, j) && !(fix && j < n && !ValidInode(d.inodes[j]))))
    && (forall k :: INODE_BITMAP_BYTES <= k < BLOCK_SIZE ==> s.inodeBitmap[k] == d.inodeBitmap[k])
  }

  /** The data bitmap once slots below `n` are judged: a repair has marked
      every block they claim; no byte past the data bits moved. */
  predicate DataBitsAfter(fix: bool, d: Disk, s: Pass, n: nat)
    requires DiskShaped(d) && WellShaped(s) && n <= MAX_INODES
  {
    (forall k :: 0 <= k < MAX_DATA_BLOCKS ==>
      BitSet(s.dataBitmap, k) == (BitSet(d.dataBitmap, k) || (fix && ClaimedBefore(d, k, n))))
    && (forall k :: DATA_BITMAP_BYTES <= k < BLOCK_SIZE ==> s.dataBitmap[k] == d.dataBitmap[k])
  }

  /** Every slot of the table holds what InodeAfter says. */
  predicate TableAfter(fix: bool, d: Disk, s: Pass, n: nat)
    requires DiskShaped(d) && WellShaped(s)
  {
    forall j :: 0 <= j < MAX_INODES ==> s.table[j] == InodeAfter(fix, d, j, n)
  }

  /** In check mode neither bitmap nor the table has moved since `o`. */
  predicate CheckKeeps(fix: bool, o: Pass, s: Pass)
  {
    !fix ==> s.inodeBitmap == o.inodeBitmap && s.dataBitmap == o.dataBitmap && s.table == o.table
  }

  /** The slot-loop invariant after slots 0..n-1. */
  predicate SlotsInv(fix: bool, d: Disk, o: Pass, s: Pass, n: nat)
    requires DiskShaped(d) && WellShaped(o) && WellShaped(s) && n <= MAX_INODES
  {
    UsedInv(d, s, n)
    && InodeBitsAfter(fix, d, s, n) && DataBitsAfter(fix, d, s, n)
    && TableAfter(fix, d, s, n) && CheckKeeps(fix, o, s)
    && s.findings == ExpectedSlotFindings(d, n)
  }

  // ---------------------------------------------------------------------
  // One step

  /** Slot `n` has not been touched by the slots below it. */
  lemma SeesAt(fix: bool, d: Disk, s: Pass, n: nat)
    requires DiskShaped(d) && WellShaped(s) && n < MAX_INODES
    requires InodeBitsAfter(fix, d, s, n) && TableAfter(fix, d, s, n)
    ensures SeesInput(d, s, n)
  {
    assert InodeAfter(fix, d, n, n) == d.inodes[n];
  }

  /** The counters after slot `n` record the claims below `n + 1`. */
  lemma UsedStep(d: Disk, s: Pass, r: Pass, n: nat)
    requires DiskShaped(d) && WellShaped(s) && WellShaped(r) && n < MAX_INODES
    requires UsedInv(d, s, n)
    requires r.used == if FirstClaim(d, n) then s.used[PointedIndex(d, n) := 1] else s.used
    ensures UsedInv(d, r, n + 1)
  {
    forall k | 0 <= k < MAX_DATA_BLOCKS
      ensures r.used[k] == if ClaimedBefore(d, k, n + 1) then 1 else 0
    {
      assert ClaimedBefore(d, k, n + 1) == (ClaimedBefore(d, k, n) || Claims(d, n, k));
    }
  }

  /** The inode bitmap after slot `n` has freed the dead inodes below `n + 1`. */
  lemma InodeBitsStep(fix: bool, d: Disk, s: Pass, r: Pass, n: nat)
    requires DiskShaped(d) && WellShaped(s) && WellShaped(r) && n < MAX_INODES
    requires InodeBitsAfter(fix, d, s, n) && BitSet(s.inodeBitmap, n) == BitSet(d.inodeBitmap, n)
    requires r.inodeBitmap ==
      if fix && BitSet(d.inodeBitmap, n) && !ValidInode(d.inodes[n])
      then ClearBit(s.inodeBitmap, n) else s.inodeBitmap
    ensures InodeBitsAfter(fix, d, r, n + 1)
  {
    var clears := fix && BitSet(d.inodeBitmap, n) && !ValidInode(d.inodes[n]);
    forall j | 0 <= j < MAX_INODES
      ensures BitSet(r.inodeBitmap, j) ==
        (BitSet(d.inodeBitmap, j) && !(fix && j < n + 1 && !ValidInode(d.inodes[j])))
    {
      if j != n {
        assert BitSet(r.inodeBitmap, j) == BitSet(s.inodeBitmap, j);
      }
    }
    forall k | INODE_BITMAP_BYTES <= k < BLOCK_SIZE
      ensures r.inodeBitmap[k] == d.inodeBitmap[k]
    {
      assert k != n / 8;
    }
  }

  /** The data bitmap after slot `n` has marked the claims below `n + 1`. */
  lemma DataBitsStep(fix: bool, d: Disk, s: Pass, r: Pass, n: nat)
    requires DiskShaped(d) && WellShaped(s) && WellShaped(r) && n < MAX_INODES
    requires DataBitsAfter(fix, d, s, n)
    requires r.dataBitmap ==
      if fix && FirstClaim(d, n) && !BitSet(s.dataBitmap, PointedIndex(d, n))
      then SetBit(s.dataBitmap, PointedIndex(d, n)) else s.dataBitmap
    ensures DataBitsAfter(fix, d, r, n + 1)
  {
    var idx := PointedIndex(d, n);
    assert idx / 8 < DATA_BITMAP_BYTES;
    forall k | 0 <= k < MAX_DATA_BLOCKS
      ensures BitSet(r.dataBitmap, k) == (BitSet(d.dataBitmap, k) || (fix && ClaimedBefore(d, k, n + 1)))
    {
      assert ClaimedBefore(d, k, n + 1) == (ClaimedBefore(d, k, n) || Claims(d, n, k));
      assert Claims(d, n, k) ==> k == idx;
    }
  }

  /** The table after slot `n` has zeroed the pointers zeroed below `n + 1`. */
  lemma TableStep(fix: bool, d: Disk, s: Pass, r: Pass, n: nat)
    requires DiskShaped(d) && WellShaped(s) && WellShaped(r) && n < MAX_INODES
    requires TableAfter(fix, d, s, n)
    requires r.table ==
      if fix && Zeroes(d, n) then s.table[n := d.inodes[n].(direct := 0)] else s.table
    ensures TableAfter(fix, d, r, n + 1)
  {
  }

  /** A state whose components are what slot `n` makes of `s` satisfies
      the invariant at `n + 1`. */
  lemma StepFromComponents(fix: bool, d: Disk, o: Pass, s: Pass, r: Pass, n: nat)
    requires DiskShaped(d) && WellShaped(o) && WellShaped(s) && WellShaped(r) && n < MAX_INODES
    requires SlotsInv(fix, d, o, s, n) && SeesInput(d, s, n)
    requires r.table ==
      if fix && Zeroes(d, n) then s.table[n := d.inodes[n].(direct := 0)] else s.table
    requires r.inodeBitmap ==
      if fix && BitSet(d.inodeBitmap, n) && !ValidInode(d.inodes[n])
      then ClearBit(s.inodeBitmap, n) else s.inodeBitmap
    requires r.used == if FirstClaim(d, n) then s.used[PointedIndex(d, n) := 1] else s.used
    requires r.dataBitmap ==
      if fix && FirstClaim(d, n) && !BitSet(s.dataBitmap, PointedIndex(d, n))
      then SetBit(s.dataBitmap, PointedIndex(d, n)) else s.dataBitmap
    requires r.findings == s.findings + SlotVerdict(d, n)
    ensures SlotsInv(fix, d, o, r, n + 1)
  {
    UsedStep(d, s, r, n);
    InodeBitsStep(fix, d, s, r, n);
    DataBitsStep(fix, d, s, r, n);
    TableStep(fix, d, s, r, n);
  }

  /** The loop body on slot `n` carries the invariant from `n` to `n + 1`. */
  lemma SlotStep(fix: bool, d: Disk, o: Pass, s: Pass, n: nat)
    requires DiskShaped(d) && WellShaped(o) && WellShaped(s) && n < MAX_INODES
    requires SlotsInv(fix, d, o, s, n)
    ensures SlotsInv(fix, d, o, Slot(fix, s, n), n + 1)
  {
    SeesAt(fix, d, s, n);
    SlotBranch(fix, d, s, n);
    SlotUsed(fix, d, s, n);
    SlotInodeBitmap(fix, d, s, n);
    SlotDataBitmap(fix, d, s, n);
    SlotTable(fix, d, s, n);
    SlotFindings(fix, d, s, n);
    StepFromComponents(fix, d, o, s, Slot(fix, s, n), n);
  }

  /** After slots 0..n-1 of a pass started on `d`, the invariant holds. */
  lemma {:induction false} ScanSlotsInv(fix: bool, d: Disk, o: Pass, n: nat)
    requires DiskShaped(d) && WellShaped(o) && StartsFrom(d, o) && n <= MAX_INODES
    ensures SlotsInv(fix, d, o, ScanSlots(fix, o, n), n)
  {
    if n == 0 {
      assert forall k :: 0 <= k < MAX_DATA_BLOCKS ==> !ClaimedBefore(d, k, 0);
      assert forall j :: 0 <= j < MAX_INODES ==> InodeAfter(fix, d, j, 0) == d.inodes[j];
    } else {
      ScanSlotsInv(fix, d, o, n - 1);
      SlotStep(fix, d, o, ScanSlots(fix, o, n - 1), n - 1);
    }
  }
}
