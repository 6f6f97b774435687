/**
 * The earlier check-only pass (temp.c): the same slot and orphan loops as
 * the reconciler, but with a usage map local to the call, no repairs, and a
 * different duplicate policy: a block claimed again is reported as a
 * duplicate and still counted and checked against the data bitmap.
 *
 * The pass returns only its counters and its report, so it cannot change
 * the bitmaps or the image.
 */
module Draft {
  import opened Layout
  import opened Bitmap
  import opened Codec
  import opened Blocks
  import opened Reconciler
  import opened Reference

  /** What the draft's loops thread: one usage counter per data block and
      the report so far. */
  datatype Tally = Tally(used: seq<nat>, findings: seq<Finding>)

  predicate TallyShaped(t: Tally)
  {
    |t.used| == MAX_DATA_BLOCKS
  }

  /** The draft's judgement of allocated slot `i` holding inode `n`. */
  function DraftInode(dataBitmap: seq<byte>, t: Tally, i: nat, n: Inode): (r: Tally)
    requires |dataBitmap| == BLOCK_SIZE && TallyShaped(t) && i < MAX_INODES
    ensures TallyShaped(r)
  {
    if n.links == 0 || n.deleteTime != 0 then t.(findings := t.findings + [InvalidInode(i)])
    else if !IsDataBlockValid(n.direct) then t.(findings := t.findings + [BadDirect(i, n.direct)])
    else
      var idx := BlockIndex(n.direct);
      var duplicate := if t.used[idx] != 0 then [Duplicate(i, n.direct)] else [];
      var unmarked := if !BitSet(dataBitmap, idx) then [Unmarked(i, n.direct)] else [];
      Tally(t.used[idx := t.used[idx] + 1], t.findings + duplicate + unmarked)
  }

  /** One iteration of the draft's slot loop over the decoded inode table
      (the draft never writes, so every read of slot `i` gives `table[i]`). */
  function DraftSlot(inodeBitmap: seq<byte>, dataBitmap: seq<byte>, table: seq<Inode>, t: Tally, i: nat): (r: Tally)
    requires |inodeBitmap| == BLOCK_SIZE && |dataBitmap| == BLOCK_SIZE && |table| == MAX_INODES
    requires TallyShaped(t) && i < MAX_INODES
    ensures TallyShaped(r)
  {
    if !BitSet(inodeBitmap, i) then t else DraftInode(dataBitmap, t, i, table[i])
  }

  /** Slots 0..n-1 judged in order, from a usage map of zeros and an empty
      report. */
  function DraftSlots(inodeBitmap: seq<byte>, dataBitmap: seq<byte>, table: seq<Inode>, n: nat): (r: Tally)
    requires |inodeBitmap| == BLOCK_SIZE && |dataBitmap| == BLOCK_SIZE && |table| == MAX_INODES
    requires n <= MAX_INODES
    ensures TallyShaped(r)
  {
    if n == 0 then Tally(seq(MAX_DATA_BLOCKS, _ => 0), [])
    else DraftSlot(inodeBitmap, dataBitmap, table, DraftSlots(inodeBitmap, dataBitmap, table, n - 1), n - 1)
  }

  /** One iteration of the draft's orphan loop. */
  function DraftOrphanStep(dataBitmap: seq<byte>, t: Tally, i: nat): (r: Tally)
    requires |dataBitmap| == BLOCK_SIZE && TallyShaped(t) && i < MAX_DATA_BLOCKS
    ensures r.used == t.used
    ensures |t.findings| <= |r.findings| <= |t.findings| + 1
    ensures r.findings[..|t.findings|] == t.findings
    ensures |r.findings| == |t.findings| + 1 <==> BitSet(dataBitmap, i) && t.used[i] == 0
    ensures |r.findings| == |t.findings| + 1 ==> r.findings[|t.findings|] == Orphan(DATA_BLOCK_START + i)
  {
    if BitSet(dataBitmap, i) && t.used[i] == 0 then t.(findings := t.findings + [Orphan(DATA_BLOCK_START + i)])
    else t
  }

  /** Data-block indices 0..n-1 examined in order. */
  function DraftOrphans(dataBitmap: seq<byte>, t: Tally, n: nat): (r: Tally)
    requires |dataBitmap| == BLOCK_SIZE && TallyShaped(t) && n <= MAX_DATA_BLOCKS
    ensures r.used == t.used
  {
    if n == 0 then t else DraftOrphanStep(dataBitmap, DraftOrphans(dataBitmap, t, n - 1), n - 1)
  }

  /** The whole draft pass. */
  function CheckInodes(inodeBitmap: seq<byte>, dataBitmap: seq<byte>, img: seq<byte>): (r: Tally)
    requires |inodeBitmap| == BLOCK_SIZE && |dataBitmap| == BLOCK_SIZE && IsImage(img)
    ensures TallyShaped(r)
  {
    DraftOrphans(dataBitmap, DraftSlots(inodeBitmap, dataBitmap, Table(img), MAX_INODES), MAX_DATA_BLOCKS)
  }

  // ---------------------------------------------------------------------
  // What the draft ought to report

  /** How many slots below `n` claim data-block index `idx`. */
  function ClaimCount(d: Disk, idx: nat, n: nat): nat
    requires DiskShaped(d) && n <= MAX_INODES
  {
    if n == 0 then 0 else ClaimCount(d, idx, n - 1) + (if Claims(d, n - 1, idx) then 1 else 0)
  }

  /** The draft's complaints about slot `j`, judged on the input: a
      duplicate claim is reported and its data bit still checked. */
  function DraftVerdict(d: Disk, j: nat): (v: seq<Finding>)
    requires DiskShaped(d) && j < MAX_INODES
    ensures |v| <= 2
  {
    var n := d.inodes[j];
    if !BitSet(d.inodeBitmap, j) then []
    else if !ValidInode(n) then [InvalidInode(j)]
    else if !IsDataBlockValid(n.direct) then [BadDirect(j, n.direct)]
    else
      (if ClaimedBefore(d, BlockIndex(n.direct), j) then [Duplicate(j, n.direct)] else [])
      + (if !BitSet(d.dataBitmap, BlockIndex(n.direct)) then [Unmarked(j, n.direct)] else [])
  }

  /** The draft's complaints about slots 0..n-1, in slot order. */
  function DraftSlotFindings(d: Disk, n: nat): seq<Finding>
    requires DiskShaped(d) && n <= MAX_INODES
  {
    if n == 0 then [] else DraftSlotFindings(d, n - 1) + DraftVerdict(d, n - 1)
  }

  /** Everything the draft reports about `d`, in order. */
  function ExpectedDraftFindings(d: Disk): seq<Finding>
    requires DiskShaped(d)
  {
    DraftSlotFindings(d, MAX_INODES) + ExpectedOrphans(d, MAX_DATA_BLOCKS)
  }

  /** Slot `j` is a duplicate claim on a block whose data bit is clear. */
  predicate AddsUnmarked(d: Disk, j: nat)
    requires DiskShaped(d) && j < MAX_INODES
  {
    var n := d.inodes[j];
    Live(d, j) && IsDataBlockValid(n.direct) && ClaimedBefore(d, BlockIndex(n.direct), j)
    && !BitSet(d.dataBitmap, BlockIndex(n.direct))
  }

  /** The unmarked-block complaint the draft adds for a duplicate claim on
      a block whose data bit is clear; the reconciler skips it. */
  function ExtraUnmarked(d: Disk, j: nat): (v: seq<Finding>)
    requires DiskShaped(d) && j < MAX_INODES
    ensures |v| <= 1
  {
    if AddsUnmarked(d, j) then [Unmarked(j, d.inodes[j].direct)] else []
  }

  // ---------------------------------------------------------------------
  // Claim counts

  /** A block has a nonzero count below `n` exactly when it is claimed
      below `n`. */
  lemma {:induction false} ClaimCountPositive(d: Disk, idx: nat, n: nat)
    requires DiskShaped(d) && n <= MAX_INODES
    ensures ClaimCount(d, idx, n) > 0 <==> ClaimedBefore(d, idx, n)
  {
    if n > 0 {
      ClaimCountPositive(d, idx, n - 1);
    }
  }

  /** Counts only grow with `n`, by one for each claimant passed. */
  lemma ClaimCountGrows(d: Disk, idx: nat, j: nat, n: nat)
    requires DiskShaped(d) && j < n <= MAX_INODES
    ensures ClaimCount(d, idx, n) >= ClaimCount(d, idx, j) + (if Claims(d, j, idx) then 1 else 0)
  {
    ClaimCountMonotone(d, idx, j + 1, n);
  }

  /** Counts never shrink as `n` grows. */
  lemma {:induction false} ClaimCountMonotone(d: Disk, idx: nat, j: nat, n: nat)
    requires DiskShaped(d) && j <= n <= MAX_INODES
    ensures ClaimCount(d, idx, j) <= ClaimCount(d, idx, n)
  {
    if j < n {
      ClaimCountMonotone(d, idx, j, n - 1);
    }
  }

  /** A draft counter never exceeds the number of slots passed, so at most
      80: the C `int` counters cannot overflow. */
  lemma {:induction false} ClaimCountBound(d: Disk, idx: nat, n: nat)
    requires DiskShaped(d) && n <= MAX_INODES
    ensures ClaimCount(d, idx, n) <= n <= MAX_INODES
  {
    if n > 0 {
      ClaimCountBound(d, idx, n - 1);
    }
  }

  /** Two claimants of one block give it a count of at least 2: unlike the
      reconciler's, the draft's counters are not confined to 0 and 1. */
  lemma CountersCanExceedOne(d: Disk, i: nat, j: nat, idx: nat)
    requires DiskShaped(d) && i < j < MAX_INODES && Claims(d, i, idx) && Claims(d, j, idx)
    ensures ClaimCount(d, idx, MAX_INODES) >= 2
  {
    ClaimCountGrows(d, idx, i, j);
    ClaimCountGrows(d, idx, j, MAX_INODES);
  }

  /** The draft's verdict on a slot is the reconciler's plus, for a
      duplicate claim on an unmarked block, one unmarked-block complaint. */
  lemma DraftVerdictVsSlotVerdict(d: Disk, j: nat)
    requires DiskShaped(d) && j < MAX_INODES
    ensures DraftVerdict(d, j) == SlotVerdict(d, j) + ExtraUnmarked(d, j)
  {
  }

  /** Without duplicate claims the draft adds no complaint to a slot. */
  lemma NoExtraWhenUnique(d: Disk, j: nat)
    requires DiskShaped(d) && ClaimsUnique(d) && j < MAX_INODES
    ensures !AddsUnmarked(d, j)
  {
    var m := d.inodes[j];
    if Live(d, j) && IsDataBlockValid(m.direct) {
      assert Claims(d, j, BlockIndex(m.direct));
    }
  }

  /** Where the draft adds no complaint to slots below `n`, it reports
      about them exactly what the reconciler reports. */
  lemma DraftMatchesReconciler(d: Disk, n: nat)
    requires DiskShaped(d) && n <= MAX_INODES
    requires forall j :: 0 <= j < n ==> !AddsUnmarked(d, j)
    ensures DraftSlotFindings(d, n) == ExpectedSlotFindings(d, n)
  {
    forall j | 0 <= j < n
      ensures DraftVerdict(d, j) == SlotVerdict(d, j)
    {
      VerdictsAgree(d, j);
    }
    SameVerdictsSameFindings(d, n);
  }

  /** Slot by slot equal verdicts below `n` make equal reports. */
  lemma {:induction false} SameVerdictsSameFindings(d: Disk, n: nat)
    requires DiskShaped(d) && n <= MAX_INODES
    requires forall j :: 0 <= j < n ==> DraftVerdict(d, j) == SlotVerdict(d, j)
    ensures DraftSlotFindings(d, n) == ExpectedSlotFindings(d, n)
  {
    if n > 0 {
      SameVerdictsSameFindings(d, n - 1);
    }
  }

  /** Where the draft adds no complaint to slot `j`, its verdict is the
      reconciler's. */
  lemma VerdictsAgree(d: Disk, j: nat)
    requires DiskShaped(d) && j < MAX_INODES && !AddsUnmarked(d, j)
    ensures DraftVerdict(d, j) == SlotVerdict(d, j)
  {
    DraftVerdictVsSlotVerdict(d, j);
    assert SlotVerdict(d, j) + [] == SlotVerdict(d, j);
  }

  /** Without duplicate claims the draft reports exactly what the
      reconciler reports. */
  lemma DraftMatchesWithoutDuplicates(d: Disk)
    requires DiskShaped(d) && ClaimsUnique(d)
    ensures ExpectedDraftFindings(d) == ExpectedFindings(d)
  {
    forall j | 0 <= j < MAX_INODES
      ensures !AddsUnmarked(d, j)
    {
      NoExtraWhenUnique(d, j);
    }
    DraftMatchesReconciler(d, MAX_INODES);
  }
}
