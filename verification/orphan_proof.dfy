/**
 * The orphan loop against the reference: after data-block indices 0..m-1
 * the report has gained exactly the expected orphan complaints and, when
 * repairing, exactly the unreferenced bits among them are cleared.
 */
module OrphanProof {
  import opened Layout
  import opened Bitmap
  import opened Reconciler
  import opened Reference
  import opened SlotOutcome
  import opened ScanProof

  /** What the orphan loop may rely on about the state `t0` the slot loop
      leaves: its counters record every claim and its data bits are the
      input's, plus, when repairing, every claimed block. */
  predicate AfterSlots(fix: bool, d: Disk, t0: Pass)
    requires DiskShaped(d) && WellShaped(t0)
  {
    UsedInv(d, t0, MAX_INODES) && DataBitsAfter(fix, d, t0, MAX_INODES)
  }

  /** The orphan-loop invariant after indices 0..m-1, started from `t0`. */
  predicate OrphansInv(fix: bool, d: Disk, t0: Pass, t: Pass, m: nat)
    requires DiskShaped(d) && WellShaped(t0) && WellShaped(t) && m <= MAX_DATA_BLOCKS
  {
    t.findings == t0.findings + ExpectedOrphans(d, m)
    && (forall k :: 0 <= k < MAX_DATA_BLOCKS ==>
          BitSet(t.dataBitmap, k) == if fix && k < m then Referenced(d, k) else BitSet(t0.dataBitmap, k))
    && (forall k :: DATA_BITMAP_BYTES <= k < BLOCK_SIZE ==> t.dataBitmap[k] == t0.dataBitmap[k])
  }

  /** The orphan complaints of indices 0..m-1 judged on state `s`: a set
      data bit whose counter is 0. */
  function StateOrphans(s: Pass, m: nat): seq<Finding>
    requires WellShaped(s) && m <= MAX_DATA_BLOCKS
  {
    if m == 0 then []
    else StateOrphans(s, m - 1)
         + if BitSet(s.dataBitmap, m - 1) && s.used[m - 1] == 0 then [Orphan(DATA_BLOCK_START + m - 1)] else []
  }

  /** After indices 0..m-1 of the orphan loop from `s`: the report has
      gained the state's orphans and, when repairing, their bits are clear. */
  predicate OrphanLoopInv(fix: bool, s: Pass, t: Pass, m: nat)
    requires WellShaped(s) && WellShaped(t) && m <= MAX_DATA_BLOCKS
  {
    t.findings == s.findings + StateOrphans(s, m)
    && (forall k :: 0 <= k < MAX_DATA_BLOCKS ==>
          BitSet(t.dataBitmap, k) == (BitSet(s.dataBitmap, k) && !(fix && k < m && s.used[k] == 0)))
    && (forall k :: DATA_BITMAP_BYTES <= k < BLOCK_SIZE ==> t.dataBitmap[k] == s.dataBitmap[k])
  }

  /** One iteration of the orphan loop carries OrphanLoopInv from `m` to `m + 1`. */
  lemma OrphanLoopStep(fix: bool, s: Pass, t: Pass, m: nat)
    requires WellShaped(s) && WellShaped(t) && m < MAX_DATA_BLOCKS
    requires t.used == s.used && OrphanLoopInv(fix, s, t, m)
    ensures OrphanLoopInv(fix, s, OrphanStep(fix, t, m), m + 1)
  {
    var r := OrphanStep(fix, t, m);
    assert m / 8 < DATA_BITMAP_BYTES;
    assert BitSet(t.dataBitmap, m) == BitSet(s.dataBitmap, m);
    forall k | 0 <= k < MAX_DATA_BLOCKS
      ensures BitSet(r.dataBitmap, k) == (BitSet(s.dataBitmap, k) && !(fix && k < m + 1 && s.used[k] == 0))
    {
      if k != m {
        assert BitSet(r.dataBitmap, k) == BitSet(t.dataBitmap, k);
      }
    }
  }

  /** After indices 0..m-1 of the orphan loop from `s`, OrphanLoopInv holds. */
  lemma {:induction false} OrphanLoop(fix: bool, s: Pass, m: nat)
    requires WellShaped(s) && m <= MAX_DATA_BLOCKS
    ensures OrphanLoopInv(fix, s, ScanOrphans(fix, s, m), m)
  {
    if m > 0 {
      OrphanLoop(fix, s, m - 1);
      OrphanLoopStep(fix, s, ScanOrphans(fix, s, m - 1), m - 1);
    }
  }

  /** When the slot loop has left the counters recording every claim, the
      state's orphans are the reference's. */
  lemma {:induction false} StateOrphansExpected(fix: bool, d: Disk, t0: Pass, m: nat)
    requires DiskShaped(d) && WellShaped(t0) && AfterSlots(fix, d, t0) && m <= MAX_DATA_BLOCKS
    ensures StateOrphans(t0, m) == ExpectedOrphans(d, m)
  {
    if m > 0 {
      StateOrphansExpected(fix, d, t0, m - 1);
      assert BitSet(t0.dataBitmap, m - 1) == (BitSet(d.dataBitmap, m - 1) || (fix && Referenced(d, m - 1)));
      assert t0.used[m - 1] == if Referenced(d, m - 1) then 1 else 0;
    }
  }

  /** After indices 0..m-1 of the orphan loop the invariant holds. */
  lemma ScanOrphansInv(fix: bool, d: Disk, t0: Pass, m: nat)
    requires DiskShaped(d) && WellShaped(t0) && AfterSlots(fix, d, t0) && m <= MAX_DATA_BLOCKS
    ensures OrphansInv(fix, d, t0, ScanOrphans(fix, t0, m), m)
  {
    OrphanLoop(fix, t0, m);
    StateOrphansExpected(fix, d, t0, m);
    var t := ScanOrphans(fix, t0, m);
    forall k | 0 <= k < MAX_DATA_BLOCKS
      ensures BitSet(t.dataBitmap, k) == if fix && k < m then Referenced(d, k) else BitSet(t0.dataBitmap, k)
    {
      assert t0.used[k] == if Referenced(d, k) then 1 else 0;
      assert BitSet(t0.dataBitmap, k) == (BitSet(d.dataBitmap, k) || (fix && Referenced(d, k)));
    }
  }
}
