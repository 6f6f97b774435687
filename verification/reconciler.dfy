/**
 * The inode and bitmap reconciler of the checker.
 *
 * One pass walks inode slots 0..MAX_INODES-1 in order and then data-block
 * indices 0..MAX_DATA_BLOCKS-1. The pass threads an explicit state: the two
 * in-memory bitmaps, the inode table as the image holds it (the repair path
 * rewrites a slot's record in place, and slot `i` is read only at step `i`),
 * the usage counters of the data blocks and the findings reported so far.
 * The fix flag and the usage counters, globals in the checker, are a
 * parameter and a state component here. Blocks.StoreTable puts the table
 * back into the image's bytes.
 */
module Reconciler {
  import opened Layout
  import opened Bitmap
  import opened Codec
  import opened Blocks

  /** The range test on a direct pointer: its unsigned 32-bit value lies in
      [DATA_BLOCK_START, TOTAL_BLOCKS). A pointer of 0 fails it. */
  predicate IsDataBlockValid(block: u32): (ok: bool)
    ensures ok ==> block != 0 && 0 <= block as int - DATA_BLOCK_START < MAX_DATA_BLOCKS
    ensures !ok ==> block as int < DATA_BLOCK_START || TOTAL_BLOCKS <= block as int
  {
    DATA_BLOCK_START <= block as int < TOTAL_BLOCKS
  }

  /** The usage-map index of a data block, `block - DATA_BLOCK_START`: it
      is the block's position inside the data region, so it indexes the
      usage map and the data bitmap in bounds. */
  function BlockIndex(block: u32): (idx: nat)
    requires IsDataBlockValid(block)
    ensures idx < MAX_DATA_BLOCKS
    ensures idx / 8 < MAX_DATA_BLOCKS / 8
    ensures DATA_BLOCK_START + idx == block as int
  {
    block as int - DATA_BLOCK_START
  }

  /** An inode is live when it has links and no deletion time. */
  predicate ValidInode(n: Inode)
  {
    n.links > 0 && n.deleteTime == 0
  }

  /** What the checker reports, one value per printed complaint. */
  datatype Finding =
    | InvalidInode(slot: nat)            // allocated but not live
    | BadDirect(slot: nat, block: u32)   // direct pointer out of the data region
    | Duplicate(slot: nat, block: u32)   // block already claimed by a lower slot
    | Unmarked(slot: nat, block: u32)    // claimed block whose data bit is clear
    | Orphan(blockNumber: nat)           // data bit set but block unreferenced

  /** The state one pass threads. */
  datatype Pass = Pass(
    inodeBitmap: seq<byte>,
    dataBitmap: seq<byte>,
    table: seq<Inode>,
    used: seq<nat>,
    findings: seq<Finding>)

  /** Both bitmaps are full block buffers, the table has every slot and
      there is one usage counter per data block. */
  predicate WellShaped(s: Pass)
  {
    |s.inodeBitmap| == BLOCK_SIZE && |s.dataBitmap| == BLOCK_SIZE
    && |s.table| == MAX_INODES && |s.used| == MAX_DATA_BLOCKS
  }

  /** The state at the start of a pass: the loaded bitmaps, the inode table,
      a usage map of zeros and no findings. */
  function Start(inodeBitmap: seq<byte>, dataBitmap: seq<byte>, table: seq<Inode>): (s: Pass)
    requires |inodeBitmap| == BLOCK_SIZE && |dataBitmap| == BLOCK_SIZE && |table| == MAX_INODES
    ensures WellShaped(s)
    ensures forall k :: 0 <= k < MAX_DATA_BLOCKS ==> s.used[k] == 0
    ensures s.findings == []
  {
    Pass(inodeBitmap, dataBitmap, table, seq(MAX_DATA_BLOCKS, _ => 0), [])
  }

  /** One iteration of the slot loop on slot `i`: a slot whose inode bit is
      clear is skipped, otherwise its inode is read and judged. */
  function Slot(fix: bool, s: Pass, i: nat): (r: Pass)
    requires WellShaped(s) && i < MAX_INODES
    ensures WellShaped(r)
  {
    if !BitSet(s.inodeBitmap, i) then s
    else AllocatedSlot(fix, s, i, s.table[i])
  }

  /** The state with finding `f` appended to the report. */
  function Report(s: Pass, f: Finding): (r: Pass)
    ensures r.inodeBitmap == s.inodeBitmap && r.dataBitmap == s.dataBitmap
    ensures r.table == s.table && r.used == s.used
    ensures |r.findings| == |s.findings| + 1 && r.findings[..|s.findings|] == s.findings
    ensures r.findings[|s.findings|] == f
  {
    var r := s.(findings := s.findings + [f]);
    assert r.findings[..|s.findings|] == s.findings;
    r
  }

  /** The repair of an invalid inode: its inode-bitmap bit is cleared. */
  function FreeInode(s: Pass, i: nat): (r: Pass)
    requires WellShaped(s) && i < MAX_INODES
    ensures WellShaped(r)
    ensures r.dataBitmap == s.dataBitmap && r.table == s.table
    ensures r.used == s.used && r.findings == s.findings
  {
    s.(inodeBitmap := ClearBit(s.inodeBitmap, i))
  }

  /** The repair of a bad or duplicate pointer: slot `i` is rewritten as
      inode `n` with its direct pointer set to 0. */
  function DropPointer(s: Pass, i: nat, n: Inode): (r: Pass)
    requires WellShaped(s) && i < MAX_INODES
    ensures WellShaped(r)
    ensures r.inodeBitmap == s.inodeBitmap && r.dataBitmap == s.dataBitmap
    ensures r.used == s.used && r.findings == s.findings
  {
    s.(table := s.table[i := n.(direct := 0)])
  }

  /** The repair of an unmarked block: its data-bitmap bit is set. */
  function MarkBlock(s: Pass, idx: nat): (r: Pass)
    requires WellShaped(s) && idx < MAX_DATA_BLOCKS
    ensures WellShaped(r)
    ensures r.inodeBitmap == s.inodeBitmap && r.table == s.table
    ensures r.used == s.used && r.findings == s.findings
  {
    s.(dataBitmap := SetBit(s.dataBitmap, idx))
  }

  /** The first claim on data-block index `idx` bumps its counter. */
  function CountBlock(s: Pass, idx: nat): (r: Pass)
    requires WellShaped(s) && idx < MAX_DATA_BLOCKS
    ensures WellShaped(r)
    ensures r.inodeBitmap == s.inodeBitmap && r.dataBitmap == s.dataBitmap
    ensures r.table == s.table && r.findings == s.findings
    ensures r.used[idx] == s.used[idx] + 1
    ensures forall k :: 0 <= k < MAX_DATA_BLOCKS && k != idx ==> r.used[k] == s.used[k]
  {
    s.(used := s.used[idx := s.used[idx] + 1])
  }

  /** The body of the slot loop once slot `i`'s bit is found set and its
      inode `n` has been read. */
  function AllocatedSlot(fix: bool, s: Pass, i: nat, n: Inode): (r: Pass)
    requires WellShaped(s) && i < MAX_INODES
    ensures WellShaped(r)
  {
    if !ValidInode(n) then
      Report(if fix then FreeInode(s, i) else s, InvalidInode(i))
    else if !IsDataBlockValid(n.direct) then
      Report(if fix then DropPointer(s, i, n) else s, BadDirect(i, n.direct))
    else if n.direct != 0 then
      var idx := BlockIndex(n.direct);
      if s.used[idx] != 0 then
        Report(if fix then DropPointer(s, i, n) else s, Duplicate(i, n.direct))
      else
        var counted := CountBlock(s, idx);
        if !BitSet(s.dataBitmap, idx) then
          Report(if fix then MarkBlock(counted, idx) else counted, Unmarked(i, n.direct))
        else counted
    else s
  }

  /** Slots 0..n-1 processed in order, starting from state `s`. */
  function ScanSlots(fix: bool, s: Pass, n: nat): (r: Pass)
    requires WellShaped(s) && n <= MAX_INODES
    ensures WellShaped(r)
  {
    if n == 0 then s
    else
      Slot(fix, ScanSlots(fix, s, n - 1), n - 1)
  }

  /** One iteration of the orphan loop on data-block index `i`: a set data
      bit whose counter is 0 is reported and, when fixing, cleared. */
  function OrphanStep(fix: bool, s: Pass, i: nat): (r: Pass)
    requires WellShaped(s) && i < MAX_DATA_BLOCKS
    ensures WellShaped(r)
    ensures r.inodeBitmap == s.inodeBitmap && r.table == s.table && r.used == s.used
    ensures !fix ==> r.dataBitmap == s.dataBitmap
    ensures |s.findings| <= |r.findings| <= |s.findings| + 1
    ensures r.findings[..|s.findings|] == s.findings
    ensures |r.findings| == |s.findings| + 1 <==> BitSet(s.dataBitmap, i) && s.used[i] == 0
    ensures |r.findings| == |s.findings| + 1 ==> r.findings[|s.findings|] == Orphan(DATA_BLOCK_START + i)
    ensures fix ==> BitSet(r.dataBitmap, i) == (BitSet(s.dataBitmap, i) && s.used[i] != 0)
    ensures forall j :: 0 <= j < 8 * BLOCK_SIZE && j != i ==> BitSet(r.dataBitmap, j) == BitSet(s.dataBitmap, j)
    ensures forall k :: 0 <= k < BLOCK_SIZE && k != i / 8 ==> r.dataBitmap[k] == s.dataBitmap[k]
  {
    if BitSet(s.dataBitmap, i) && s.used[i] == 0 then
      s.(dataBitmap := if fix then ClearBit(s.dataBitmap, i) else s.dataBitmap,
         findings := s.findings + [Orphan(DATA_BLOCK_START + i)])
    else s
  }

  /** Data-block indices 0..n-1 processed in order, starting from `s`. */
  function ScanOrphans(fix: bool, s: Pass, n: nat): (r: Pass)
    requires WellShaped(s) && n <= MAX_DATA_BLOCKS
    ensures WellShaped(r)
    ensures r.inodeBitmap == s.inodeBitmap && r.table == s.table && r.used == s.used
    ensures !fix ==> r.dataBitmap == s.dataBitmap
    ensures |s.findings| <= |r.findings| <= |s.findings| + n
    ensures r.findings[..|s.findings|] == s.findings
  {
    if n == 0 then s
    else
      var p := ScanOrphans(fix, s, n - 1);
      var r := OrphanStep(fix, p, n - 1);
      assert r.findings[..|s.findings|] == p.findings[..|s.findings|];
      r
  }

  /** The whole reconciler: every inode slot, then every data-block index,
      from a zero usage map and an empty report. */
  function CheckAndFix(fix: bool, inodeBitmap: seq<byte>, dataBitmap: seq<byte>, table: seq<Inode>): (r: Pass)
    requires |inodeBitmap| == BLOCK_SIZE && |dataBitmap| == BLOCK_SIZE && |table| == MAX_INODES
    ensures WellShaped(r)
  {
    var s := ScanSlots(fix, Start(inodeBitmap, dataBitmap, table), MAX_INODES);
    ScanOrphans(fix, s, MAX_DATA_BLOCKS)
  }

  // ---------------------------------------------------------------------
  // The effect of one allocated slot, component by component

  /** The repair path rewrites the slot's pointer: the inode is live and
      its pointer is out of range or names a block already counted. */
  predicate DropsPointer(s: Pass, n: Inode)
    requires WellShaped(s)
  {
    ValidInode(n) && (!IsDataBlockValid(n.direct) || s.used[BlockIndex(n.direct)] != 0)
  }

  /** The slot makes the first claim on the block its pointer names. */
  predicate CountsBlock(s: Pass, n: Inode)
    requires WellShaped(s)
  {
    ValidInode(n) && IsDataBlockValid(n.direct) && s.used[BlockIndex(n.direct)] == 0
  }

  /** An allocated slot rewrites its record only when repairing a dropped
      pointer, and then writes its inode back with a zero pointer. */
  lemma AllocatedTable(fix: bool, s: Pass, i: nat, n: Inode)
    requires WellShaped(s) && i < MAX_INODES
    ensures AllocatedSlot(fix, s, i, n).table ==
      if fix && DropsPointer(s, n) then s.table[i := n.(direct := 0)] else s.table
  {
  }

  /** An allocated slot clears its own inode bit only when repairing a dead
      inode. */
  lemma AllocatedInodeBitmap(fix: bool, s: Pass, i: nat, n: Inode)
    requires WellShaped(s) && i < MAX_INODES
    ensures AllocatedSlot(fix, s, i, n).inodeBitmap ==
      if fix && !ValidInode(n) then ClearBit(s.inodeBitmap, i) else s.inodeBitmap
  {
  }

  /** An allocated slot moves a usage counter only on a first claim, from
      0 to 1. */
  lemma AllocatedUsed(fix: bool, s: Pass, i: nat, n: Inode)
    requires WellShaped(s) && i < MAX_INODES
    ensures CountsBlock(s, n) ==> AllocatedSlot(fix, s, i, n).used == s.used[BlockIndex(n.direct) := 1]
    ensures !CountsBlock(s, n) ==> AllocatedSlot(fix, s, i, n).used == s.used
  {
  }

  /** An allocated slot sets a data bit only when repairing a first claim on
      an unmarked block. */
  lemma AllocatedDataBitmap(fix: bool, s: Pass, i: nat, n: Inode)
    requires WellShaped(s) && i < MAX_INODES
    ensures fix && CountsBlock(s, n) && !BitSet(s.dataBitmap, BlockIndex(n.direct)) ==>
      AllocatedSlot(fix, s, i, n).dataBitmap == SetBit(s.dataBitmap, BlockIndex(n.direct))
    ensures !(fix && CountsBlock(s, n) && !BitSet(s.dataBitmap, BlockIndex(n.direct))) ==>
      AllocatedSlot(fix, s, i, n).dataBitmap == s.dataBitmap
  {
  }

  /** The complaint an allocated slot appends, judged on the threaded state. */
  lemma AllocatedFindings(fix: bool, s: Pass, i: nat, n: Inode)
    requires WellShaped(s) && i < MAX_INODES
    ensures AllocatedSlot(fix, s, i, n).findings == s.findings +
      if !ValidInode(n) then [InvalidInode(i)]
      else if !IsDataBlockValid(n.direct) then [BadDirect(i, n.direct)]
      else if s.used[BlockIndex(n.direct)] != 0 then [Duplicate(i, n.direct)]
      else if !BitSet(s.dataBitmap, BlockIndex(n.direct)) then [Unmarked(i, n.direct)]
      else []
  {
  }
}
