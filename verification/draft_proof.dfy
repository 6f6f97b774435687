/**
 * The draft pass against the reference, and against the reconciler.
 */
module DraftProof {
  import opened Layout
  import opened Bitmap
  import opened Codec
  import opened Blocks
  import opened Reconciler
  import opened Reference
  import opened Draft
  import opened Theorems

  /** After slots 0..n-1 the draft's counters count the claims below `n`
      and its report holds the complaints about those slots. */
  predicate DraftInv(d: Disk, t: Tally, n: nat)
    requires DiskShaped(d) && TallyShaped(t) && n <= MAX_INODES
  {
    t.used == ClaimCounts(d, n) && t.findings == DraftSlotFindings(d, n)
  }

  /** Every block's claim count below `n`. */
  function ClaimCounts(d: Disk, n: nat): (c: seq<nat>)
    requires DiskShaped(d) && n <= MAX_INODES
    ensures |c| == MAX_DATA_BLOCKS
  {
    seq(MAX_DATA_BLOCKS, k requires 0 <= k < MAX_DATA_BLOCKS => ClaimCount(d, k, n))
  }

  /** The draft's judgement of an allocated slot, component by component:
      a live inode with an in-range pointer bumps that block's counter,
      and the complaints appended are judged on the threaded counters. */
  lemma DraftInodeEffect(dataBitmap: seq<byte>, t: Tally, i: nat, n: Inode)
    requires |dataBitmap| == BLOCK_SIZE && TallyShaped(t) && i < MAX_INODES
    ensures DraftInode(dataBitmap, t, i, n).used ==
      if ValidInode(n) && IsDataBlockValid(n.direct)
      then t.used[BlockIndex(n.direct) := t.used[BlockIndex(n.direct)] + 1] else t.used
    ensures DraftInode(dataBitmap, t, i, n).findings == t.findings +
      if !ValidInode(n) then [InvalidInode(i)]
      else if !IsDataBlockValid(n.direct) then [BadDirect(i, n.direct)]
      else ((if t.used[BlockIndex(n.direct)] != 0 then [Duplicate(i, n.direct)] else [])
            + (if !BitSet(dataBitmap, BlockIndex(n.direct)) then [Unmarked(i, n.direct)] else []))
  {
  }

  /** The draft's loop body on slot `n` carries DraftInv from `n` to `n + 1`. */
  lemma DraftStep(d: Disk, t: Tally, n: nat)
    requires DiskShaped(d) && TallyShaped(t) && n < MAX_INODES
    requires DraftInv(d, t, n)
    ensures DraftInv(d, DraftSlot(d.inodeBitmap, d.dataBitmap, d.inodes, t, n), n + 1)
  {
    var r := DraftSlot(d.inodeBitmap, d.dataBitmap, d.inodes, t, n);
    var m := d.inodes[n];
    if BitSet(d.inodeBitmap, n) {
      DraftInodeEffect(d.dataBitmap, t, n, m);
      if ValidInode(m) && IsDataBlockValid(m.direct) {
        ClaimCountPositive(d, BlockIndex(m.direct), n);
      }
    }
    forall k | 0 <= k < MAX_DATA_BLOCKS
      ensures r.used[k] == ClaimCounts(d, n + 1)[k]
    {
      assert Claims(d, n, k) ==> k == BlockIndex(m.direct);
    }
    assert r.used == ClaimCounts(d, n + 1);
    assert r.findings == t.findings + DraftVerdict(d, n);
  }

  /** After slots 0..n-1 of the draft over disk `d`, DraftInv holds. */
  lemma {:induction false} DraftSlotsInv(d: Disk, n: nat)
    requires DiskShaped(d) && n <= MAX_INODES
    ensures DraftInv(d, DraftSlots(d.inodeBitmap, d.dataBitmap, d.inodes, n), n)
  {
    if n == 0 {
      DraftStartInv(d);
    } else {
      DraftSlotsInv(d, n - 1);
      DraftStep(d, DraftSlots(d.inodeBitmap, d.dataBitmap, d.inodes, n - 1), n - 1);
    }
  }

  /** The draft starts with zero counters and an empty report. */
  lemma DraftStartInv(d: Disk)
    requires DiskShaped(d)
    ensures DraftInv(d, DraftSlots(d.inodeBitmap, d.dataBitmap, d.inodes, 0), 0)
  {
  }

  /** The draft's orphan loop appends exactly the expected orphans when
      its counters count every claim. */
  lemma {:induction false} DraftOrphansInv(d: Disk, t0: Tally, m: nat)
    requires DiskShaped(d) && TallyShaped(t0) && m <= MAX_DATA_BLOCKS
    requires t0.used == ClaimCounts(d, MAX_INODES)
    ensures DraftOrphans(d.dataBitmap, t0, m).findings == t0.findings + ExpectedOrphans(d, m)
  {
    if m > 0 {
      DraftOrphansInv(d, t0, m - 1);
      ClaimCountPositive(d, m - 1, MAX_INODES);
      var prev := DraftOrphans(d.dataBitmap, t0, m - 1);
      assert prev.used[m - 1] == ClaimCount(d, m - 1, MAX_INODES);
      assert DraftOrphanStep(d.dataBitmap, prev, m - 1).findings == prev.findings + OrphanVerdict(d, m - 1);
    }
  }

  /** The draft reports, in order, each allocated slot's complaints and
      then each orphan, as the reference judges the input, and ends with
      each counter holding the number of claimants of its block. */
  lemma DraftReport(inodeBitmap: seq<byte>, dataBitmap: seq<byte>, img: seq<byte>)
    requires IsImage(img) && Inputs(inodeBitmap, dataBitmap, Table(img))
    ensures var r := CheckInodes(inodeBitmap, dataBitmap, img);
            var d := DiskOf(inodeBitmap, dataBitmap, img);
            r.findings == ExpectedDraftFindings(d)
            && forall k :: 0 <= k < MAX_DATA_BLOCKS ==> r.used[k] == ClaimCount(d, k, MAX_INODES)
  {
    var d := DiskOf(inodeBitmap, dataBitmap, img);
    DraftSlotsInv(d, MAX_INODES);
    DraftOrphansInv(d, DraftSlots(inodeBitmap, dataBitmap, d.inodes, MAX_INODES), MAX_DATA_BLOCKS);
  }

  /** The draft and the reconciler, in either mode, count the same blocks
      as used and end their reports with the same orphan complaints. */
  lemma DraftAgreesOnOrphans(fix: bool, inodeBitmap: seq<byte>, dataBitmap: seq<byte>, img: seq<byte>)
    requires IsImage(img) && Inputs(inodeBitmap, dataBitmap, Table(img))
    ensures var d := DiskOf(inodeBitmap, dataBitmap, img);
            var draft := CheckInodes(inodeBitmap, dataBitmap, img);
            var pass := CheckAndFix(fix, inodeBitmap, dataBitmap, Table(img));
            (forall k :: 0 <= k < MAX_DATA_BLOCKS ==> (draft.used[k] > 0) == (pass.used[k] > 0))
            && draft.findings == DraftSlotFindings(d, MAX_INODES) + ExpectedOrphans(d, MAX_DATA_BLOCKS)
            && pass.findings == ExpectedSlotFindings(d, MAX_INODES) + ExpectedOrphans(d, MAX_DATA_BLOCKS)
  {
    var d := DiskOf(inodeBitmap, dataBitmap, img);
    DraftReport(inodeBitmap, dataBitmap, img);
    PassFindings(fix, inodeBitmap, dataBitmap, Table(img));
    PassUsage(fix, inodeBitmap, dataBitmap, Table(img));
    forall k | 0 <= k < MAX_DATA_BLOCKS
      ensures ClaimCount(d, k, MAX_INODES) > 0 <==> Referenced(d, k)
    {
      ClaimCountPositive(d, k, MAX_INODES);
    }
  }

  /** On an image where no block has two claimants, the draft reports the
      same findings as the reconciler. */
  lemma DraftMatchesOnUniqueClaims(fix: bool, inodeBitmap: seq<byte>, dataBitmap: seq<byte>, img: seq<byte>)
    requires IsImage(img) && Inputs(inodeBitmap, dataBitmap, Table(img)) && ClaimsUnique(DiskOf(inodeBitmap, dataBitmap, img))
    ensures CheckInodes(inodeBitmap, dataBitmap, img).findings == CheckAndFix(fix, inodeBitmap, dataBitmap, Table(img)).findings
  {
    DraftReport(inodeBitmap, dataBitmap, img);
    PassFindings(fix, inodeBitmap, dataBitmap, Table(img));
    DraftMatchesWithoutDuplicates(DiskOf(inodeBitmap, dataBitmap, img));
  }
}
