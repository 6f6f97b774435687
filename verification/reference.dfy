/**
 * What a reconciler pass ought to report and repair, stated directly on the
 * input rather than on the state the pass threads.
 *
 * A `Disk` is the part of an image the reconciler looks at: the two bitmaps
 * and the decoded inode table. A live inode "claims" the data block its
 * direct pointer names when that pointer is in range; the lowest claimant of
 * a block keeps it and every later claimant is a duplicate.
 */
module Reference {
  import opened Layout
  import opened Bitmap
  import opened Codec
  import opened Blocks
  import opened Reconciler

  datatype Disk = Disk(inodeBitmap: seq<byte>, dataBitmap: seq<byte>, inodes: seq<Inode>)

  predicate DiskShaped(d: Disk)
  {
    |d.inodeBitmap| == BLOCK_SIZE && |d.dataBitmap| == BLOCK_SIZE && |d.inodes| == MAX_INODES
  }

  /** The disk a pass sees when it starts on these bitmaps and this image. */
  function DiskOf(inodeBitmap: seq<byte>, dataBitmap: seq<byte>, img: seq<byte>): (d: Disk)
    requires |inodeBitmap| == BLOCK_SIZE && |dataBitmap| == BLOCK_SIZE && IsImage(img)
    ensures DiskShaped(d)
  {
    Disk(inodeBitmap, dataBitmap, Table(img))
  }

  // ---------------------------------------------------------------------
  // Claims

  /** Slot `j` is allocated and holds a live inode. */
  predicate Live(d: Disk, j: nat)
    requires DiskShaped(d) && j < MAX_INODES
  {
    BitSet(d.inodeBitmap, j) && ValidInode(d.inodes[j])
  }

  /** Slot `j` claims data-block index `idx`: it is live and its direct
      pointer is in range and names that block. */
  predicate Claims(d: Disk, j: nat, idx: nat)
    requires DiskShaped(d) && j < MAX_INODES
  {
    Live(d, j) && IsDataBlockValid(d.inodes[j].direct) && BlockIndex(d.inodes[j].direct) == idx
  }

  /** Some slot below `n` claims data-block index `idx`; ClaimedBeforeExists
      states it as an existential. */
  predicate ClaimedBefore(d: Disk, idx: nat, n: nat)
    requires DiskShaped(d) && n <= MAX_INODES
  {
    n > 0 && (ClaimedBefore(d, idx, n - 1) || Claims(d, n - 1, idx))
  }

  /** Some slot claims data-block index `idx`. */
  predicate Referenced(d: Disk, idx: nat)
    requires DiskShaped(d)
  {
    ClaimedBefore(d, idx, MAX_INODES)
  }

  /** The repair zeroes slot `j`'s direct pointer: the slot is live and its
      pointer is out of range or names a block a lower slot already claims. */
  predicate Zeroes(d: Disk, j: nat)
    requires DiskShaped(d) && j < MAX_INODES
  {
    Live(d, j)
    && (!IsDataBlockValid(d.inodes[j].direct)
        || ClaimedBefore(d, BlockIndex(d.inodes[j].direct), j))
  }

  // ---------------------------------------------------------------------
  // Expected findings

  /** The complaints slot `j` deserves, judged on the input alone. */
  function SlotVerdict(d: Disk, j: nat): (v: seq<Finding>)
    requires DiskShaped(d) && j < MAX_INODES
    ensures |v| <= 1
  {
    var n := d.inodes[j];
    if !BitSet(d.inodeBitmap, j) then []
    else if !ValidInode(n) then [InvalidInode(j)]
    else if !IsDataBlockValid(n.direct) then [BadDirect(j, n.direct)]
    else if ClaimedBefore(d, BlockIndex(n.direct), j) then [Duplicate(j, n.direct)]
    else if !BitSet(d.dataBitmap, BlockIndex(n.direct)) then [Unmarked(j, n.direct)]
    else []
  }

  /** The complaints of slots 0..n-1, in slot order. */
  function ExpectedSlotFindings(d: Disk, n: nat): seq<Finding>
    requires DiskShaped(d) && n <= MAX_INODES
  {
    if n == 0 then [] else ExpectedSlotFindings(d, n - 1) + SlotVerdict(d, n - 1)
  }

  /** Data-block index `k` is an orphan: its input bit is set but no slot
      claims it. */
  function OrphanVerdict(d: Disk, k: nat): (v: seq<Finding>)
    requires DiskShaped(d) && k < MAX_DATA_BLOCKS
    ensures |v| <= 1
  {
    if BitSet(d.dataBitmap, k) && !Referenced(d, k) then [Orphan(DATA_BLOCK_START + k)] else []
  }

  /** The orphan complaints of data-block indices 0..n-1, in order. */
  function ExpectedOrphans(d: Disk, n: nat): seq<Finding>
    requires DiskShaped(d) && n <= MAX_DATA_BLOCKS
  {
    if n == 0 then [] else ExpectedOrphans(d, n - 1) + OrphanVerdict(d, n - 1)
  }

  /** Everything a pass over `d` reports, in order. */
  function ExpectedFindings(d: Disk): seq<Finding>
    requires DiskShaped(d)
  {
    ExpectedSlotFindings(d, MAX_INODES) + ExpectedOrphans(d, MAX_DATA_BLOCKS)
  }

  // ---------------------------------------------------------------------
  // Repaired and consistent disks

  /** `e` is `d` repaired: exactly the live slots stay allocated, exactly
      the referenced blocks are marked, and the zeroed slots lose their
      direct pointer while every other inode is kept. */
  predicate FixedFrom(d: Disk, e: Disk)
    requires DiskShaped(d) && DiskShaped(e)
  {
    (forall j :: 0 <= j < MAX_INODES ==> BitSet(e.inodeBitmap, j) == Live(d, j))
    && (forall k :: 0 <= k < MAX_DATA_BLOCKS ==> BitSet(e.dataBitmap, k) == Referenced(d, k))
    && (forall j :: 0 <= j < MAX_INODES ==>
          e.inodes[j] == if Zeroes(d, j) then d.inodes[j].(direct := 0) else d.inodes[j])
  }

  /** Every allocated inode is live. */
  predicate AllocatedLive(d: Disk)
    requires DiskShaped(d)
  {
    forall j :: 0 <= j < MAX_INODES && BitSet(d.inodeBitmap, j) ==> ValidInode(d.inodes[j])
  }

  /** Every allocated inode's direct pointer is 0 or in range. */
  predicate PointersInRange(d: Disk)
    requires DiskShaped(d)
  {
    forall j :: 0 <= j < MAX_INODES && BitSet(d.inodeBitmap, j) ==>
      d.inodes[j].direct == 0 || IsDataBlockValid(d.inodes[j].direct)
  }

  /** No block has two claimants: no claimant has another below it. */
  predicate ClaimsUnique(d: Disk)
    requires DiskShaped(d)
  {
    forall j, idx :: 0 <= j < MAX_INODES && 0 <= idx < MAX_DATA_BLOCKS && Claims(d, j, idx) ==>
      !ClaimedBefore(d, idx, j)
  }

  /** A data bit is set exactly when some slot claims its block. */
  predicate MarksExact(d: Disk)
    requires DiskShaped(d)
  {
    forall k :: 0 <= k < MAX_DATA_BLOCKS ==> BitSet(d.dataBitmap, k) == Referenced(d, k)
  }

  /** The state a repair aims at: all four properties above. */
  predicate Consistent(d: Disk)
    requires DiskShaped(d)
  {
    AllocatedLive(d) && PointersInRange(d) && ClaimsUnique(d) && MarksExact(d)
  }

  /** The one complaint a consistent disk still draws for slot `j`: an
      allocated slot whose direct pointer is 0. */
  function ZeroVerdict(d: Disk, j: nat): (v: seq<Finding>)
    requires DiskShaped(d) && j < MAX_INODES
    ensures forall k :: 0 <= k < |v| ==> v[k] == BadDirect(j, 0)
  {
    if BitSet(d.inodeBitmap, j) && d.inodes[j].direct == 0 then [BadDirect(j, 0)] else []
  }

  /** The reports left for a consistent disk: one invalid-pointer complaint
      per allocated slot whose direct pointer is 0. */
  function ZeroPointerReports(d: Disk, n: nat): (v: seq<Finding>)
    requires DiskShaped(d) && n <= MAX_INODES
    ensures forall k :: 0 <= k < |v| ==> v[k].BadDirect? && v[k].block == 0
  {
    if n == 0 then [] else ZeroPointerReports(d, n - 1) + ZeroVerdict(d, n - 1)
  }

  // ---------------------------------------------------------------------
  // Lemmas about claims

  /** A block is claimed below `n` exactly when some slot below `n`
      claims it. */
  lemma {:induction false} ClaimedBeforeExists(d: Disk, idx: nat, n: nat)
    requires DiskShaped(d) && n <= MAX_INODES
    ensures ClaimedBefore(d, idx, n) <==> exists j :: 0 <= j < n && Claims(d, j, idx)
  {
    if n > 0 {
      ClaimedBeforeExists(d, idx, n - 1);
      if ClaimedBefore(d, idx, n - 1) {
        var j :| 0 <= j < n - 1 && Claims(d, j, idx);
        assert 0 <= j < n && Claims(d, j, idx);
      } else if Claims(d, n - 1, idx) {
        assert 0 <= n - 1 < n && Claims(d, n - 1, idx);
      }
      if exists j :: 0 <= j < n && Claims(d, j, idx) {
        var j :| 0 <= j < n && Claims(d, j, idx);
        if j < n - 1 {
          assert 0 <= j < n - 1 && Claims(d, j, idx);
        }
      }
    }
  }

  /** A claimant below `n` witnesses a claim before `n`. */
  lemma ClaimedWitness(d: Disk, idx: nat, n: nat, j: nat)
    requires DiskShaped(d) && j < n <= MAX_INODES && Claims(d, j, idx)
    ensures ClaimedBefore(d, idx, n)
  {
    ClaimedBeforeExists(d, idx, n);
  }

  /** With no claimant below `n`, the block is not claimed before `n`. */
  lemma NotClaimedBefore(d: Disk, idx: nat, n: nat)
    requires DiskShaped(d) && n <= MAX_INODES
    requires forall j :: 0 <= j < n ==> !Claims(d, j, idx)
    ensures !ClaimedBefore(d, idx, n)
  {
    ClaimedBeforeExists(d, idx, n);
  }

  /** A claimed block has a first claimant: a claimant with no claimant
      below it. */
  lemma {:induction false} FirstClaimant(d: Disk, idx: nat, n: nat) returns (j: nat)
    requires DiskShaped(d) && n <= MAX_INODES && ClaimedBefore(d, idx, n)
    ensures j < n && Claims(d, j, idx) && !ClaimedBefore(d, idx, j)
  {
    if ClaimedBefore(d, idx, n - 1) {
      j := FirstClaimant(d, idx, n - 1);
    } else {
      j := n - 1;
    }
  }

  /** The lowest claimant of a block keeps its pointer and every later
      claimant of the same block is reported as a duplicate and loses its
      pointer in the repair. */
  lemma DuplicatePolicy(d: Disk, i: nat, j: nat, idx: nat)
    requires DiskShaped(d) && i < j < MAX_INODES
    requires Claims(d, i, idx) && Claims(d, j, idx)
    ensures SlotVerdict(d, j) == [Duplicate(j, d.inodes[j].direct)]
    ensures Zeroes(d, j)
    ensures !ClaimedBefore(d, idx, i) ==> !Zeroes(d, i)
  {
    ClaimedWitness(d, idx, j, i);
  }

  // ---------------------------------------------------------------------
  // Repair and convergence on disks

  /** A claim on a repaired disk is a claim of the input that the repair
      left alone. */
  lemma FixedClaimsOriginal(d: Disk, e: Disk, j: nat, idx: nat)
    requires DiskShaped(d) && DiskShaped(e) && FixedFrom(d, e) && j < MAX_INODES
    ensures Claims(e, j, idx) ==> Claims(d, j, idx) && !Zeroes(d, j) && e.inodes[j] == d.inodes[j]
  {
    assert BitSet(e.inodeBitmap, j) == Live(d, j);
    if Zeroes(d, j) {
      assert !IsDataBlockValid(e.inodes[j].direct);
    }
  }

  /** On a repaired disk every allocated inode is live and its pointer is 0
      or in range. */
  lemma FixedSlotsSound(d: Disk, e: Disk, j: nat)
    requires DiskShaped(d) && DiskShaped(e) && FixedFrom(d, e) && j < MAX_INODES
    ensures BitSet(e.inodeBitmap, j) ==> ValidInode(e.inodes[j])
    ensures BitSet(e.inodeBitmap, j) ==> e.inodes[j].direct == 0 || IsDataBlockValid(e.inodes[j].direct)
  {
    assert BitSet(e.inodeBitmap, j) == Live(d, j);
  }

  /** On a repaired disk a claimant has no claimant of the same block below it. */
  lemma FixedClaimsUnique(d: Disk, e: Disk, j: nat, idx: nat)
    requires DiskShaped(d) && DiskShaped(e) && FixedFrom(d, e) && j < MAX_INODES
    requires Claims(e, j, idx)
    ensures !ClaimedBefore(e, idx, j)
  {
    FixedClaimsOriginal(d, e, j, idx);
    forall i | 0 <= i < j
      ensures !Claims(e, i, idx)
    {
      FixedClaimsOriginal(d, e, i, idx);
      if Claims(d, i, idx) {
        ClaimedWitness(d, idx, j, i);
      }
    }
    NotClaimedBefore(e, idx, j);
  }

  /** On a repaired disk a data bit is set exactly when some slot claims
      its block. */
  lemma FixedDataBitsExact(d: Disk, e: Disk, k: nat)
    requires DiskShaped(d) && DiskShaped(e) && FixedFrom(d, e) && k < MAX_DATA_BLOCKS
    ensures BitSet(e.dataBitmap, k) == Referenced(e, k)
  {
    assert BitSet(e.dataBitmap, k) == Referenced(d, k);
    if Referenced(d, k) {
      var j := FirstClaimant(d, k, MAX_INODES);
      assert BitSet(e.inodeBitmap, j) == Live(d, j);
      assert e.inodes[j] == d.inodes[j];
      assert Claims(e, j, k);
      ClaimedWitness(e, k, MAX_INODES, j);
    }
    if Referenced(e, k) {
      ClaimedBeforeExists(e, k, MAX_INODES);
      var j :| 0 <= j < MAX_INODES && Claims(e, j, k);
      FixedClaimsOriginal(d, e, j, k);
      ClaimedWitness(d, k, MAX_INODES, j);
    }
  }

  /** A repaired disk is consistent. */
  lemma FixRestoresConsistency(d: Disk, e: Disk)
    requires DiskShaped(d) && DiskShaped(e) && FixedFrom(d, e)
    ensures Consistent(e)
  {
    FixedAllocatedSound(d, e);
    FixedClaimsAllUnique(d, e);
    FixedMarksExact(d, e);
  }

  /** On a repaired disk every allocated inode is live with a pointer that
      is 0 or in range. */
  lemma FixedAllocatedSound(d: Disk, e: Disk)
    requires DiskShaped(d) && DiskShaped(e) && FixedFrom(d, e)
    ensures AllocatedLive(e) && PointersInRange(e)
  {
    forall j | 0 <= j < MAX_INODES
      ensures BitSet(e.inodeBitmap, j) ==> ValidInode(e.inodes[j])
      ensures BitSet(e.inodeBitmap, j) ==> e.inodes[j].direct == 0 || IsDataBlockValid(e.inodes[j].direct)
    {
      FixedSlotsSound(d, e, j);
    }
  }

  /** On a repaired disk no block has two claimants. */
  lemma FixedClaimsAllUnique(d: Disk, e: Disk)
    requires DiskShaped(d) && DiskShaped(e) && FixedFrom(d, e)
    ensures ClaimsUnique(e)
  {
    forall j, idx | 0 <= j < MAX_INODES && 0 <= idx < MAX_DATA_BLOCKS && Claims(e, j, idx)
      ensures !ClaimedBefore(e, idx, j)
    {
      FixedClaimsUnique(d, e, j, idx);
    }
  }

  /** On a repaired disk the data bits mark exactly the claimed blocks. */
  lemma FixedMarksExact(d: Disk, e: Disk)
    requires DiskShaped(d) && DiskShaped(e) && FixedFrom(d, e)
    ensures MarksExact(e)
  {
    forall k | 0 <= k < MAX_DATA_BLOCKS
      ensures BitSet(e.dataBitmap, k) == Referenced(e, k)
    {
      FixedDataBitsExact(d, e, k);
    }
  }

  /** On a consistent disk no slot's pointer is zeroed by the repair unless
      it is already 0. */
  lemma ConsistentKeepsInode(d: Disk, j: nat)
    requires DiskShaped(d) && PointersInRange(d) && ClaimsUnique(d) && j < MAX_INODES
    ensures Zeroes(d, j) ==> d.inodes[j].direct == 0
  {
    var n := d.inodes[j];
    if Zeroes(d, j) && IsDataBlockValid(n.direct) {
      assert Claims(d, j, BlockIndex(n.direct));
    }
  }

  /** Repairing a consistent disk changes nothing: every bitmap bit and
      every inode comes out as it went in. */
  lemma FixOfConsistentIsIdentity(d: Disk, e: Disk)
    requires DiskShaped(d) && DiskShaped(e) && Consistent(d) && FixedFrom(d, e)
    ensures forall j :: 0 <= j < MAX_INODES ==> BitSet(e.inodeBitmap, j) == BitSet(d.inodeBitmap, j)
    ensures forall k :: 0 <= k < MAX_DATA_BLOCKS ==> BitSet(e.dataBitmap, k) == BitSet(d.dataBitmap, k)
    ensures e.inodes == d.inodes
  {
    forall j | 0 <= j < MAX_INODES
      ensures e.inodes[j] == d.inodes[j]
    {
      ConsistentKeepsInode(d, j);
      assert Zeroes(d, j) ==> d.inodes[j].(direct := 0) == d.inodes[j];
    }
  }

  /** On a consistent disk a slot's complaint is an invalid-pointer complaint
      for a zero pointer, or nothing. */
  lemma ConsistentSlotVerdict(d: Disk, j: nat)
    requires DiskShaped(d) && Consistent(d) && j < MAX_INODES
    ensures SlotVerdict(d, j) == ZeroVerdict(d, j)
  {
    var m := d.inodes[j];
    if BitSet(d.inodeBitmap, j) && IsDataBlockValid(m.direct) {
      var idx := BlockIndex(m.direct);
      assert Claims(d, j, idx);
      ClaimedWitness(d, idx, MAX_INODES, j);
      assert BitSet(d.dataBitmap, idx) == Referenced(d, idx);
    }
  }

  /** On a consistent disk the expected slot complaints are exactly the
      zero-pointer complaints. */
  lemma ConsistentSlotFindings(d: Disk, n: nat)
    requires DiskShaped(d) && Consistent(d) && n <= MAX_INODES
    ensures ExpectedSlotFindings(d, n) == ZeroPointerReports(d, n)
  {
    forall j | 0 <= j < n
      ensures SlotVerdict(d, j) == ZeroVerdict(d, j)
    {
      ConsistentSlotVerdict(d, j);
    }
    ZeroVerdictsFindings(d, n);
  }

  /** Where every slot below `n` draws at most a zero-pointer complaint,
      the slot complaints are the zero-pointer reports. */
  lemma {:induction false} ZeroVerdictsFindings(d: Disk, n: nat)
    requires DiskShaped(d) && n <= MAX_INODES
    requires forall j :: 0 <= j < n ==> SlotVerdict(d, j) == ZeroVerdict(d, j)
    ensures ExpectedSlotFindings(d, n) == ZeroPointerReports(d, n)
  {
    if n > 0 {
      ZeroVerdictsFindings(d, n - 1);
    }
  }

  /** A consistent disk has no orphans. */
  lemma {:induction false} ConsistentOrphans(d: Disk, n: nat)
    requires DiskShaped(d) && MarksExact(d) && n <= MAX_DATA_BLOCKS
    ensures ExpectedOrphans(d, n) == []
  {
    if n > 0 {
      ConsistentOrphans(d, n - 1);
      assert BitSet(d.dataBitmap, n - 1) == Referenced(d, n - 1);
    }
  }

  /** A pass over a consistent disk reports only invalid-pointer complaints
      for direct pointers equal to 0, one per allocated slot holding one. */
  lemma ConsistentFindings(d: Disk)
    requires DiskShaped(d) && Consistent(d)
    ensures ExpectedFindings(d) == ZeroPointerReports(d, MAX_INODES)
  {
    ConsistentSlotFindings(d, MAX_INODES);
    ConsistentOrphans(d, MAX_DATA_BLOCKS);
  }
}
