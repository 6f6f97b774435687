/**
 * The superblock check: nine independent comparisons of the decoded
 * superblock against the layout constants, each reporting one complaint.
 * The check only reports; it repairs nothing.
 */
module SuperblockCheck {
  import opened Layout
  import opened Codec

  /** One complaint per field test, in the order the tests run. */
  datatype SbFinding =
    | BadMagic
    | BadBlockSize
    | BadTotalBlocks
    | BadInodeBitmapBlock
    | BadDataBitmapBlock
    | BadInodeTableStart
    | BadFirstDataBlock
    | BadInodeSize
    | TooManyInodes

  /** Position of a test in the sequence of tests. */
  function Rank(f: SbFinding): nat
  {
    match f
    case BadMagic => 0
    case BadBlockSize => 1
    case BadTotalBlocks => 2
    case BadInodeBitmapBlock => 3
    case BadDataBitmapBlock => 4
    case BadInodeTableStart => 5
    case BadFirstDataBlock => 6
    case BadInodeSize => 7
    case TooManyInodes => 8
  }

  /** The test at position `k` of the check. */
  function Test(k: nat): (f: SbFinding)
    requires k < 9
    ensures Rank(f) == k
  {
    if k == 0 then BadMagic
    else if k == 1 then BadBlockSize
    else if k == 2 then BadTotalBlocks
    else if k == 3 then BadInodeBitmapBlock
    else if k == 4 then BadDataBitmapBlock
    else if k == 5 then BadInodeTableStart
    else if k == 6 then BadFirstDataBlock
    else if k == 7 then BadInodeSize
    else TooManyInodes
  }

  /** The comparison behind complaint `f` fails on `sb`. Every field must
      equal its layout constant, except the inode count, which need only
      not exceed the table's capacity. */
  predicate Mismatch(sb: Superblock, f: SbFinding)
  {
    match f
    case BadMagic => sb.magic != MAGIC_NUMBER
    case BadBlockSize => sb.blockSize as int != BLOCK_SIZE
    case BadTotalBlocks => sb.totalBlocks as int != TOTAL_BLOCKS
    case BadInodeBitmapBlock => sb.inodeBitmapBlock as int != INODE_BITMAP_BLOCK
    case BadDataBitmapBlock => sb.dataBitmapBlock as int != DATA_BITMAP_BLOCK
    case BadInodeTableStart => sb.inodeTableStart as int != INODE_TABLE_START
    case BadFirstDataBlock => sb.firstDataBlock as int != DATA_BLOCK_START
    case BadInodeSize => sb.inodeSize as int != INODE_SIZE
    case TooManyInodes => sb.inodeCount as int > MAX_INODES
  }

  /** Complaints come in test order. */
  predicate InTestOrder(v: seq<SbFinding>)
  {
    forall i, j :: 0 <= i < j < |v| ==> Rank(v[i]) < Rank(v[j])
  }

  /** Tests `k`..8 run in order, each reporting when its comparison fails:
      exactly the failing tests from `k` on are reported, in test order. */
  function CheckFrom(sb: Superblock, k: nat): (v: seq<SbFinding>)
    requires k <= 9
    ensures forall f :: f in v <==> k <= Rank(f) && Mismatch(sb, f)
    ensures forall i :: 0 <= i < |v| ==> k <= Rank(v[i])
    ensures InTestOrder(v)
    decreases 9 - k
  {
    if k == 9 then []
    else
      var rest := CheckFrom(sb, k + 1);
      OnlyTestOfRank(k);
      (if Mismatch(sb, Test(k)) then [Test(k)] else []) + rest
  }

  /** Test `k` is the only complaint of rank `k`. */
  lemma OnlyTestOfRank(k: nat)
    requires k < 9
    ensures forall f :: Rank(f) == k ==> f == Test(k)
  {
  }

  /** The superblock check: one complaint per field that disagrees with
      the layout, in the order the fields are tested. */
  function CheckSuperblock(sb: Superblock): (v: seq<SbFinding>)
    ensures forall f :: f in v <==> Mismatch(sb, f)
    ensures InTestOrder(v)
  {
    CheckFrom(sb, 0)
  }

  /** Of complaints in test order, the first comes before the second. */
  lemma FirstBeforeSecond(v: seq<SbFinding>)
    requires InTestOrder(v)
    ensures |v| > 0 ==> v[0] in v
    ensures |v| >= 2 ==> v[1] in v && Rank(v[0]) < Rank(v[1])
  {
  }

  /** A superblock wrong in exactly one tested field draws exactly that
      one complaint. */
  lemma SingleFieldWrong(sb: Superblock, f: SbFinding)
    requires Mismatch(sb, f)
    requires forall g :: g != f ==> !Mismatch(sb, g)
    ensures CheckSuperblock(sb) == [f]
  {
    var v := CheckSuperblock(sb);
    FirstBeforeSecond(v);
    assert f in v;
  }

  /** The inode count is only bounded above: when every other field is as
      the layout prescribes, a count up to the table's capacity draws no
      complaint and a larger count draws the one complaint about it. */
  lemma InodeCountBound(sb: Superblock)
    requires forall g :: g != TooManyInodes ==> !Mismatch(sb, g)
    ensures sb.inodeCount as int <= MAX_INODES ==> CheckSuperblock(sb) == []
    ensures sb.inodeCount as int > MAX_INODES ==> CheckSuperblock(sb) == [TooManyInodes]
  {
    if sb.inodeCount as int > MAX_INODES {
      SingleFieldWrong(sb, TooManyInodes);
    } else {
      FirstBeforeSecond(CheckSuperblock(sb));
    }
  }

  /** The check is silent exactly when every tested field is as the
      layout prescribes. */
  lemma SilentIffConforming(sb: Superblock)
    ensures CheckSuperblock(sb) == [] <==> forall f :: !Mismatch(sb, f)
  {
    FirstBeforeSecond(CheckSuperblock(sb));
  }
}
