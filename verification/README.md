# VSFS consistency checker, modelled in Dafny

VSFS is a very small file system. A disk image has 64 blocks of 4096 bytes:
- block 0 is the superblock;
- block 1 is the inode bitmap;
- block 2 is the data bitmap;
- blocks 3-7 are the inode table, with 80 slots of 256 bytes;
- blocks 8-63 are data blocks.

The checker runs in two modes, check and repair. It does three things:
- it checks the superblock fields against the layout;
- it reconciles the two bitmaps with the inode table;
- in repair mode, it writes its fixes back and then re-runs itself in check mode.

This project models that core as pure functions over an immutable image
(`seq<bv8>`) and proves what the checker reports and repairs.

| file | module | what it holds |
|---|---|---|
| `layout.dfy` | `Layout` | the layout constants and the bounds derived from them |
| `bitmap.dfy` | `Bitmap` | bit `i` of a bitmap is byte `i/8` under mask `1 << (i%8)`; setting and clearing a bit |
| `codec.dfy` | `Codec` | the packed `Superblock` and `Inode` records as little-endian byte overlays, and their round trips |
| `blocks.dfy` | `Blocks` | block reads and writes as slicing and splicing; inode addressing; reading and rewriting inode records; storing a whole table |
| `reconciler.dfy` | `Reconciler` | the reconciler as a left fold over slots 0..79, then over data blocks 0..55 |
| `reference.dfy` | `Reference` | an independent, input-only statement of what a pass must report and repair (claims, duplicates, orphans, consistency) |
| `slot_outcome.dfy`, `scan_proof.dfy`, `orphan_proof.dfy` | `SlotOutcome`, `ScanProof`, `OrphanProof` | the loop invariants that tie the fold to the reference |
| `theorems.dfy` | `Theorems` | what one pass reports and leaves, in either mode |
| `superblock_check.dfy` | `SuperblockCheck` | the nine superblock comparisons |
| `draft.dfy`, `draft_proof.dfy` | `Draft`, `DraftProof` | the earlier check-only pass (temp.c) and how it relates to the reconciler |
| `driver.dfy` | `Driver` | one run on an image, and the repair run followed by the re-check |

How the code is modelled:
- **Findings.** The checker's messages become a `Finding` datatype: `InvalidInode`, `BadDirect`, `Duplicate`, `Unmarked` and `Orphan`, each carrying the slot and block numbers involved. The messages print the same numbers, with one exception: the duplicate-block message (vsfsck.c:72, temp.c:52) prints only the block, while `Duplicate` also records the slot that made the second claim. Superblock messages become `SbFinding`.
- **Explicit state.** The global repair flag and the global usage map become a parameter and a field of the threaded `Pass` state.
- **The inode table.** The pass threads the decoded table:
  - it reads slot `i` only at step `i`;
  - when it zeroes a direct pointer, it replaces slot `i` in the table.
- **Writing back.** `Driver.WriteBack` stores the final table over the image with `Blocks.StoreTable`, then writes both bitmap blocks. Storing a record the image already holds changes no byte (`Blocks.RewriteSameInode`, `Blocks.StoreTableSame`). So the result is byte for byte the image that the checker's in-place rewrites of the zeroed slots leave. `Driver.InPlace` models those rewrites as the code does them, and `Driver.RepairRunInPlace` proves the two images equal.

**Behaviour of the code that the model keeps, although one might expect otherwise:**
- A direct pointer of 0 is not exempt. `is_data_block_valid(0)` is false (vsfsck.c:29-31), so an allocated live inode whose pointer is 0 draws a `BadDirect(i, 0)` complaint every time, in either mode. The `if (inode.direct)` test at vsfsck.c:69 is therefore always true when it is reached.
- Consequently, a re-check after repair is not silent. It reports exactly those zero-pointer complaints (`Driver.RecheckAfterFix`).
- The superblock is only checked, never repaired.
- Fields are read in host byte order (little-endian), not big-endian.

## Model

| member | source | states |
|---|---|---|
| Layout.DerivedBounds | vsfs.h:4-15 | the header's formulas give 80 inode slots (5 table blocks of 4096 bytes over 256-byte slots) and 56 data blocks (64 less the data start 8) |
| Layout.InodeTableGeometry | vsfs.h:7-14 | the table starts at block 3 and ends exactly at data block 8; it holds 16 slots per block; blocks 0-3 come in superblock, inode bitmap, data bitmap, table order |
| Layout.BitmapsFitInOneBlock | vsfs.h:4-15 | the 80 inode bits and 56 data bits fill exactly 10 and 7 bytes, both within one block |
| Layout.RecordSizes | vsfs.h:21-54 | the packed superblock has 34 field bytes and 4092 bytes in all, 4 short of a block; the packed inode has 212 bytes, less than its 256-byte slot |
| Bitmap.SetBit | vsfsck.c:89 | OR-ing `1 << (i%8)` into byte `i/8` sets bit `i`, leaves every other bit as it was, and changes no other byte |
| Bitmap.ClearBit | vsfsck.c:47 | AND-ing `~(1 << (i%8))` into byte `i/8` clears bit `i`, leaves every other bit as it was, and changes no other byte |
| Bitmap.SetClearNoop | vsfsck.c:86-89 | setting a set bit, or clearing a clear one, leaves the bitmap unchanged |
| Bitmap.BitmapExtensionality | vsfsck.c:37 | two bitmaps that agree on every bit below `8*m` and on every byte from `m` on are equal |
| Codec.U32DecodeEncode | vsfs.h:21-54 | reading a little-endian u32 back from its four bytes gives the value |
| Codec.U32EncodeDecode | vsfs.h:21-54 | the four bytes of the u32 read at an offset are exactly the bytes at that offset |
| Codec.DecodeSuperblock | vsfs.h:23-34 | the packed superblock overlay on block 0; its field offsets are fixed by Codec.DecodeSuperblockField and its faithfulness by the two superblock round trips |
| Codec.DecodeSuperblockField | vsfs.h:23-32 | superblock field `f` after the magic is the u32 at byte offset `2 + 4f` |
| Codec.SuperblockDecodeEncode | vsfs.h:23-34 | decoding an encoded superblock gives it back |
| Codec.SuperblockEncodeDecode | vsfs.h:23-34 | encoding a decoded superblock gives back its 34 field bytes |
| Codec.DecodeInode | vsfs.h:36-52 | the packed inode overlay on a 212-byte record, keeping the 156 reserved bytes; its offsets are fixed by Codec.DecodeInodeField and its faithfulness by the two inode round trips |
| Codec.DecodeInodeField | vsfs.h:36-50 | inode field `f` is the u32 at byte offset `4f`: delete_time at 28, links at 32, direct at 40 |
| Codec.EncodeInodeField | vsfs.h:36-50 | encoding puts field `f`'s four bytes at offset `4f` |
| Codec.EncodeInodeReserved | vsfs.h:51 | the 156 reserved bytes follow the fields unchanged |
| Codec.InodeDecodeEncode | vsfs.h:36-52 | decoding an encoded inode gives it back |
| Codec.InodeEncodeDecode | vsfs.h:36-52 | encoding a decoded 212-byte record reproduces it byte for byte, reserved bytes included |
| Codec.SetDirectFrame | vsfsck.c:59-61 | replacing the direct pointer rewrites record bytes 40..43 to the new value and no other byte |
| Blocks.ReadBlock | utils.c:7-10 | block `b` is the image bytes `[4096b, 4096(b+1))` |
| Blocks.WriteBlock | utils.c:12-15 | writing block `b` replaces exactly those bytes with the buffer and keeps every other byte |
| Blocks.LoadBitmap | utils.c:27-29 | a loaded bitmap is the block read, byte for byte |
| Blocks.ReadAfterWriteBlock | utils.c:7-15 | after writing block `b`, reading `b` gives the buffer and every other block reads as before |
| Blocks.WriteBackUnchanged | utils.c:7-15 | writing back a block as read leaves the image unchanged |
| Blocks.ReadInode | utils.c:17-24 | the inode in slot `i`, read through its table block; Blocks.ReadInodeAbsolute places it at absolute byte `3*4096 + 256i`, and Blocks.ReadAfterWriteInode relates it to Blocks.WriteInode |
| Blocks.WriteInode | vsfsck.c:59-61 | the in-place rewrite of slot `i`: the 212 encoded bytes of the new inode land at `3*4096 + 256i` and every other image byte is kept |
| Blocks.InodeAddressing | utils.c:17-23 | slot `i < 80` lies in a table block `3 + 256i/4096` at offset `256i % 4096`; its 212-byte record fits in that block and starts at absolute byte `3*4096 + 256i`, where the repair seeks |
| Blocks.SlotsApart | utils.c:17-20 | the records of two different slots do not overlap |
| Blocks.ReadInodeAbsolute | utils.c:17-24 | reading slot `i` through its block decodes the 212 bytes at its absolute position |
| Blocks.ReadAfterWriteInode | vsfsck.c:60-61 | after the in-place rewrite of slot `i`, slot `i` reads as the new inode and every other slot reads as before |
| Blocks.RewriteSameInode | vsfsck.c:60-61 | rewriting a slot with the inode read from it changes no byte |
| Blocks.ReadInodeAfterWriteBlock | utils.c:12-24 | writing a block before the table (a bitmap block) leaves every slot's inode unchanged |
| Blocks.SetDirectImageFrame | vsfsck.c:59-61 | rewriting slot `i` with only its pointer replaced changes no image byte outside that slot's bytes 40..43 |
| Blocks.ImageExtensionality | vsfsck.c:59-61 | two images that agree outside the direct-pointer fields and on every slot's pointer are equal |
| Blocks.StoreTableReads | vsfsck.c:60-61 | after storing the first `n` entries of a table, slot `j < n` reads as entry `j` and every other slot as before |
| Blocks.StoreTableRoundTrip | vsfsck.c:60-61 | reading the table back after storing it gives the stored table |
| Blocks.StoreTableFrame | vsfsck.c:59-61 | storing a table that differs from the image's only in direct pointers changes no byte outside the direct-pointer fields |
| Blocks.StoreTableSame | vsfsck.c:60-61 | storing the table an image already holds changes nothing |
| Blocks.StoreTableKeepsBlock | vsfsck.c:60 | storing a table leaves the superblock and both bitmap blocks as they were |
| Reconciler.IsDataBlockValid | vsfsck.c:29-31 | a pointer passes the range check only if it is nonzero and names one of the 56 data blocks (its offset from block 8 lies in 0..55), and fails it only if it lies below block 8 or at or past block 64 |
| Reconciler.BlockIndex | vsfsck.c:70 | the counter index of a valid pointer is `block - 8`, below 56, so it indexes the usage map and the 7 data-bitmap bytes in bounds |
| Reconciler.Start | vsfsck.c:13 | a pass starts with every usage counter at 0 and an empty report |
| Reconciler.OrphanStep | vsfsck.c:98-107 | the orphan test appends one complaint exactly when the data bit is set and the counter is 0, and that complaint is `Orphan(8 + i)`; it touches nothing but the data bitmap, and only in repair mode, where bit `i` ends set exactly when it was set and the block is counted, and no other bit of the bitmap moves |
| Reconciler.ScanOrphans | vsfsck.c:98-108 | the orphan loop only appends complaints, at most one per index; in check mode it leaves the data bitmap alone |
| Reconciler.ScanSlots | vsfsck.c:36-96 | the slot loop over slots 0..n-1 keeps the state's shape; what it leaves after each prefix is fixed by ScanProof.ScanSlotsInv |
| Reconciler.AllocatedSlot | vsfsck.c:40-95 | the judgement of one allocated slot; what it does to each component of the state is fixed by the five Reconciler.Allocated* lemmas below |
| Reconciler.AllocatedTable | vsfsck.c:56-82 | an allocated slot's record changes only in repair mode, and only by zeroing the pointer of a live inode whose pointer is out of range or already counted |
| Reconciler.AllocatedInodeBitmap | vsfsck.c:43-53 | an allocated but dead inode (no links, or a delete time) has its bit cleared in repair mode; otherwise the inode bitmap is unchanged |
| Reconciler.AllocatedUsed | vsfsck.c:69-84 | only the first live claimant of an in-range block sets its counter, from 0 to 1 |
| Reconciler.AllocatedDataBitmap | vsfsck.c:84-94 | in repair mode a newly counted block whose data bit is clear gets it set; otherwise the data bitmap is unchanged |
| Reconciler.AllocatedFindings | vsfsck.c:43-94 | an allocated slot draws one complaint: dead inode, else bad pointer, else duplicate, else unmarked block, else none |
| Reconciler.CheckAndFix | vsfsck.c:33-111 | the whole pass; its report is fixed by Theorems.PassFindings, its repair by Theorems.RepairResult and Theorems.RepairFrame, and its check mode by Theorems.CheckModeChangesNothing |
| Reference.ClaimedBeforeExists | vsfsck.c:69-84 | a block counts as claimed below `n` exactly when some live slot below `n` points to it |
| Reference.FirstClaimant | vsfsck.c:69-84 | a claimed block has a lowest claimant, which no lower slot precedes |
| Reference.DuplicatePolicy | vsfsck.c:69-82 | of two claimants of one block the later is reported as a duplicate and has its pointer zeroed; the first claimant keeps its pointer |
| Reference.FixedSlotsSound | vsfsck.c:43-67 | after repair every allocated inode is live, and its pointer is 0 or in range |
| Reference.FixedClaimsUnique | vsfsck.c:69-82 | after repair no block has two claimants |
| Reference.FixedDataBitsExact | vsfsck.c:84-108 | after repair a data bit is set exactly when some slot claims its block |
| Reference.FixRestoresConsistency | vsfsck.c:33-111 | a repaired disk is consistent: allocated inodes live, pointers 0 or in range, claims unique, data bits exact |
| Reference.FixOfConsistentIsIdentity | vsfsck.c:33-111 | repairing a consistent disk changes no bit and no inode |
| Reference.ConsistentFindings | vsfsck.c:29-108 | a consistent disk draws only one `BadDirect(i, 0)` per allocated slot whose pointer is 0 |
| SlotOutcome.SlotBranch | vsfsck.c:36-38 | a slot whose inode bit is clear yields no finding and no change; an allocated slot's zeroing and counting decisions match the reference's, judged on the input |
| SlotOutcome.SlotFindings | vsfsck.c:43-94 | a slot appends exactly the reference's verdict on it |
| SlotOutcome.SlotDataBitmap | vsfsck.c:84-94 | a slot sets a data bit only in repair mode, only for its block's first claim, and only when the bit is clear |
| ScanProof.ScanSlotsInv | vsfsck.c:36-96 | after slots 0..n-1 the state matches the reference component by component: counters in {0,1} mark the claimed blocks, dead inodes below `n` freed, claimed blocks marked, zeroed pointers dropped, and the report is the reference's; in check mode nothing changed |
| OrphanProof.ScanOrphansInv | vsfsck.c:98-108 | after data indices 0..m-1 the report has gained exactly the reference's orphans; in repair mode each of those data bits ends set exactly when its block is referenced, in check mode it is as the slot loop left it; no byte past the data bits moves |
| Theorems.PassFindings | vsfsck.c:33-111 | a pass reports, in order, each slot's complaints and then each orphan, as the reference judges the input |
| Theorems.ReportIndependentOfMode | vsfsck.c:33-111 | check mode and repair mode report the same findings, in the same order; the printed lines differ only in repair mode's trailing "Fixed." |
| Theorems.CheckModeChangesNothing | vsfsck.c:46-104 | in check mode neither bitmap nor any inode changes |
| Theorems.PassUsage | vsfsck.c:69-84 | every usage counter ends at 1 for a referenced block and 0 otherwise |
| Theorems.RepairResult | vsfsck.c:33-111 | a repair leaves exactly the live slots allocated, exactly the referenced blocks marked, and exactly the zeroed pointers dropped |
| Theorems.RepairFrame | vsfsck.c:47-102 | a repair changes no bitmap byte beyond the examined bits and no inode field but the direct pointer |
| Theorems.RepairIsConsistent | vsfsck.c:33-111 | what a repair leaves is consistent |
| Theorems.ConsistentPass | vsfsck.c:29-111 | on a consistent disk a pass in either mode reports only zero pointers and changes nothing |
| Theorems.RepairConverges | vsfsck.c:143-155 | a second pass on what a repair leaves, in either mode, reports only zero pointers and changes nothing |
| SuperblockCheck.CheckSuperblock | vsfsck.c:15-27 | each failing comparison draws exactly one complaint, and the complaints come in test order |
| SuperblockCheck.SingleFieldWrong | vsfsck.c:15-27 | a superblock wrong in one tested field draws exactly that one complaint |
| SuperblockCheck.InodeCountBound | vsfsck.c:25 | an inode count up to 80 is accepted, and only a larger one is reported |
| SuperblockCheck.SilentIffConforming | vsfsck.c:15-27 | the check is silent exactly when every tested field is as the layout prescribes |
| Draft.CheckInodes | temp.c:31-68 | the whole draft pass; its report and counters are fixed by DraftProof.DraftReport |
| Draft.DraftInode | temp.c:42-58 | the draft's judgement of one allocated slot; its effect on the counters and the report is fixed by DraftProof.DraftInodeEffect |
| DraftProof.DraftInodeEffect | temp.c:42-58 | a live inode with an in-range pointer adds one to that block's counter; the complaints appended are dead inode, else bad pointer, else a duplicate complaint when the counter was already nonzero followed by an unmarked complaint when the data bit is clear |
| Draft.DraftOrphans | temp.c:61-65 | the draft's orphan loop never changes its counters; its report is fixed by DraftProof.DraftOrphansInv |
| DraftProof.DraftOrphansInv | temp.c:61-65 | when the counters hold every block's claim count, the orphan loop appends exactly the reference's orphan complaints, in order |
| Draft.DraftOrphanStep | temp.c:61-65 | the draft's orphan test never changes its counters; it appends one complaint, `Orphan(8 + i)`, exactly when the data bit is set and the counter is 0, and otherwise nothing |
| Draft.ClaimCountPositive | temp.c:50-54 | a draft counter is nonzero exactly when some live slot points to the block |
| Draft.ClaimCountBound | temp.c:50-54 | a draft counter never exceeds the number of slots examined, so it stays at most 80 |
| Draft.CountersCanExceedOne | temp.c:50-54 | with two claimants of one block the draft's counter reaches at least 2 |
| Draft.DraftVerdictVsSlotVerdict | temp.c:42-58 | the draft's verdict on a slot is the reconciler's plus one unmarked-block complaint for a duplicate claim on an unmarked block |
| Draft.DraftMatchesWithoutDuplicates | temp.c:31-68 | without duplicate claims the draft reports exactly what the reconciler reports |
| DraftProof.DraftReport | temp.c:31-68 | the draft starts from zero counters and reports each allocated slot's complaints and then the orphans; each counter ends at its block's number of claimants |
| DraftProof.DraftAgreesOnOrphans | temp.c:61-65 | the draft and the reconciler (either mode) make the same counters nonzero and end with the same orphan complaints |
| DraftProof.DraftMatchesOnUniqueClaims | temp.c:31-68 | on an image without duplicate claims the draft reports the same findings as the reconciler, in the same order (the two programs word their messages differently) |
| Driver.Run | vsfsck.c:133-149 | one run; its reports are fixed by Driver.RunReport, its image by Driver.RepairRunResult, Driver.RepairRunFrame and Driver.RepairRunInPlace |
| Driver.FixThenRecheck | vsfsck.c:143-157 | a repair run and the `execv` re-check on the image it left; Driver.RecheckAfterFix states what the re-check sees |
| Driver.WriteBack | vsfsck.c:143-146 | in repair mode the pass's table and both bitmaps are put back, in check mode nothing; Driver.WriteBackDisk and Driver.RepairRunInPlace state what the image then holds |
| Driver.PassOn | vsfsck.c:141 | the pass's table differs from the image's only in direct pointers |
| Driver.WriteBackDisk | vsfsck.c:143-146 | after a repair run, the bitmap blocks hold the repaired bitmaps and the table reads as the repaired table |
| Driver.InPlace | vsfsck.c:56-79 | the image the code's own record writes leave: each slot whose pointer the repair zeroes is read as it stands, zeroed and written back in place; Driver.InPlaceIsStore relates it to Blocks.StoreTable |
| Driver.InPlaceIsStore | vsfsck.c:56-79 | rewriting each zeroed slot in place, reading the record from the image as it stands, leaves the same bytes as storing the table of zeroed and unchanged records |
| Driver.RepairRunInPlace | vsfsck.c:40-146 | a repair run leaves exactly the image that the in-place rewrites at vsfsck.c:59-61 and 74-76, followed by the two bitmap block writes, leave |
| Driver.RepairRunDetermined | vsfsck.c:141-146 | the repair run's image is the only image that keeps every byte a repair leaves alone and holds the repaired disk |
| Driver.RunReport | vsfsck.c:133-141 | a run reports the reference's findings on the disk it loads, whichever the mode |
| Driver.RepairRunResult | vsfsck.c:141-146 | a repair run leaves the repaired disk, which is consistent |
| Driver.RepairRunFrame | vsfsck.c:141-146 | a repair run changes no image byte but the examined bitmap bits and the direct-pointer fields |
| Driver.RunKeepsSuperblock | vsfsck.c:133-146 | no run changes a byte of block 0, so the re-check decodes the same superblock |
| Driver.RunOnConsistent | vsfsck.c:133-149 | on a consistent image a run in either mode reports only zero pointers and leaves the image byte for byte |
| Driver.RecheckAfterFix | vsfsck.c:143-157 | the re-check after a repair repeats the superblock report, reports only `BadDirect(i, 0)` complaints, and changes nothing |
| Driver.SecondRepairIsIdentity | vsfsck.c:133-157 | a second repair run changes no byte |

## Left out

- Argument parsing, `fopen`, `fclose`, `perror` and all printed text (vsfsck.c:113-131, temp.c:70-80). Findings are datatypes, not strings. So lemmas that equate two reports equate their findings, not the printed text: repair mode appends "Fixed." to each line, and the draft words its messages differently.
- Self re-execution through `execv` (vsfsck.c:152-157). It is modelled as a second `Driver.Run` in check mode on the image the first run left (`Driver.FixThenRecheck`).
- Driver.FixThenRecheck assumes the re-execution succeeds. If `execv` fails (for instance when `argv[0]` is not a path to the program), the code prints an error and exits with status 0 without any re-check (vsfsck.c:155-159). The model has no process environment to decide that.
- I/O failures. The code checks no `fseek`, `fread` or `fwrite` result, so block I/O is total and in bounds here.
- The superblock read copies 4096 bytes into a 4092-byte struct (vsfsck.c:134). The model decodes only the 34 field bytes the check reads.
- Byte order. Fields are little-endian byte overlays, as on the hosts the code targets; no other byte order is modelled.
- Superblock repair. The code has none.
- The indirect pointer fields are decoded and re-encoded but never examined, as in the code.
- The globals `fix_mode` and `used_data_blocks` are a parameter and a field of the pass state.
- temp.c's `main` (temp.c:70-94). It opens the image read-only; its `check_superblock` is the same as vsfsck.c's and is modelled once. Its `load_bitmap` and `is_data_block_valid` are also the same and are not repeated.
- Draft.CheckInodes reads the decoded table once instead of calling `read_inode` per slot. The draft never writes, so every read gives the same record.
- Driver.WriteBack stores the whole final table once instead of rewriting each zeroed record during the loop. The result is the same image (Driver.RepairRunInPlace): the pass never re-reads a slot, and rewriting an unchanged record changes no byte.
- Integer widths. Usage counters are unbounded naturals. The reconciler's counters never exceed 1 (Theorems.PassUsage). The draft's counters are bounded by the 80 slots (Draft.ClaimCountBound), so `int` overflow cannot occur.
