# Verified model of an A/B firmware updater

This project models the parts of the updater on which a device's next boot depends, and proves
what they promise:

* the bad-block-skipping stream layer over an MTD character device (`Mtd*.dfy`),
* the misc partition on top of it, or on a block device, and the A/B record in it, with its CRC-32 (`MiscMtd.dfy`,
  `Misc.dfy`, `AbRecord.dfy`, `Crc32.dfy`, `Crc32Bits.dfy`),
* the slot state machine and the upgrade protocol over it (`Slots.dfy`, `Upgrade.dfy`),
* the copy loops onto block devices and the digest comparison (`BlockCopy.dfy`,
  `BlockCompare.dfy`),
* the intrusive ring list (`RingList.dfy`).

`dafny verify dfyconfig.toml` checks everything.

## How the model is built

Code that changes state is imperative: the two MTD contexts are classes whose methods loop over
buffers and arrays, the list operations assign `next` and `prev`, the upgrade is a class whose
methods write partitions. Each such method is proved to compute a function of the old state
(`MtdWriteSpec`, `MtdReadSpec`, `BlockCopy`, `Slots`), and the promises are theorems about these
functions over all inputs and all runs.

The device is the environment. An MTD device is a byte array cut into erase blocks, a fixed answer
of the bad-block query for every offset, and an oracle that is asked once per call and decides
whether it succeeds, what a failed erase or write leaves behind, how far a failed read or write
moved the file position, and how many ECC failures a read counts. Assumed of it:

* the erase size is positive, the partition size is a multiple of it and below 2^31, and
  MEMGETINFO reports that size;
* a successful `read` returns what the flash holds, and a write touches only its own block;
* MEMERASE with a start that is no block offset is refused without effect (EINVAL);
* MEMGETBADBLOCK gives the same answer every time, and whether it is implemented is a property of
  the driver, not of the block;
* the ECC failure counter does not wrap around.

The bootloader is not in the repository. `Slots.Boot` assumes from the comments on the record's
fields that it boots the slot `get_current_slot` would select and uses up one of its tries unless
it is marked successful.

A 32-byte write of the A/B record by the upgrade is taken as atomic. Power loss during any other
write of the upgrade may leave anything in the partition being written.

## Where the code does not keep a promise

* Writer and reader disagree about a driver without a bad-block query (EOPNOTSUPP): the writer
  takes every block for good, the reader every block for bad. Reading back what was written works
  if and only if the query is supported (`RoundTripIffQuerySupported`).
* When a block the query calls good goes bad in use, `write_block` gives it up and goes on, and
  every write and the close can succeed; but nothing tells the reader, which delivers that block in
  the middle of the data. What it sees up to the closing position is longer than the padded data by
  exactly these blocks, so it is the padded data if and only if there are none (`ClosedMirrors`,
  `RoundTrip`, `GivenUpComesBack`).
* After a failed `mtd_write_data` at most one block of the call is kept, and the close behind it can
  return 0 although the rest is lost (`CloseBehindFailedWrite`, `CloseWithNothingPending`).
* On MTD every update of the A/B record erases it first, and a write that fails leaves it erased:
  the magic is gone and slot 0 is selected, whichever was before (`EraseLosesRecord`,
  `FailedWriteLosesRecord`).
* On a block device an fseek that fails goes unnoticed, and the record is read from or written to
  the start of the misc partition (`WriteMiscBlock`); what the slot operations promise there is
  stated for the case that no fseek fails.
* `mtd_find_write_start` is right from a given offset if and only if each offset up to the first
  free one has, where it first occurs in the list, no larger entry before it
  (`FindStartIsRightIff`). From block offsets it is right for ever, after any failures
  (`FindStartIsRightForBlocks`). From offsets that are no block offset it is right up to and
  including the first failed call, but not always after that: two failed writes on a two-block
  partition leave the list 0, 4, 2, which misleads the lookup from 2 (`SecondFailureMisleads`).
* `read_block` skips good blocks that read cleanly: when a read fails and counts an ECC failure,
  that failure is taken for one of the next read that succeeds. A block is delivered if and only
  if its read and the ECCGETSTATS behind it succeed, its bad-block query returns 0, and neither
  its own read nor a failed read since the last successful one has counted an ECC failure
  (`DeliveredIff`, `BacklogIff`, `CleanBlockSkipped`).
* `upgrade_do_write` reports success for an incomplete copy when an fread falls short at the end
  of the file or delivers nothing at the second block. "Success means a complete copy" holds, for
  a given block size and all images, if and only if the first fread to fall short, if one does
  below 2 GiB, delivers nothing and is not that of the second block
  (`SuccessMeansCompleteIffVigilant`).
* The eMMC backend keeps the result of lseek64 in an int, so an image of more than 2 GiB is never
  written (`DoWriteSucceedsIff`).
* `rk_ab_meta_active_another_slot` stores the result of its read, 0, as the last booted slot. It
  agrees with `setSlotActivity` if and only if the record selects the running slot and the field
  was 0 already (`ActivationsAgreeIff`); once both slots have used up their tries, slot 0 is
  selected whichever was running (`RollbackAfterActivateAnother`).
* `rk_upgrade_packet` does not check which slot the record selects. Everything power loss during it
  can leave is safe to boot if and only if the record selected the running slot (or there is nothing
  to install); after a first successful call it selects the other one, so a second call before the
  reboot can leave a half-written slot selected (`SafeToBootIff`, `SecondCallIsUnsafe`,
  `TornIsBooted`). The running slot still comes back after seven boots, unless the other one is
  confirmed (`AlwaysReturnsIff`).
* `setSlotSucceed` returns 0 when the magic is wrong, with nothing written (`SetSlotSucceed`).
* `upgrade_write_partition` returns 0 when the image cannot be opened, so a successful upgrade can
  activate a slot that did not get it: after success an image found is in place if and only if it
  could be opened or was in place before (`InPlaceIff`, `UpgradePacket`).
* A `tar` that fails is not noticed by `rk_upgrade_packet`, only a negative result of `system` is.
  What is then missing from the directory counts as upgraded; if nothing was unpacked, the call
  succeeds and activates a slot none of whose partitions has changed (`UpgradePacket`,
  `NothingUnpacked`). Nor is a failing activation noticed (`UpgradePacket`).

## Model

| member | source | states |
|---|---|---|
| MtdWriter.WriteContext.AddBadBlockOffset | flash/src/mtd_flash.c:417-424 | every earlier entry is kept and the new one appended; after n calls the capacity is between n and 2n-1 and all reallocations together have moved fewer than 2n elements |
| MtdWriter.WriteContext.TryBlockAt | flash/src/mtd_flash.c:448-482 | the erase, write, read-back, compare loop with one retry and the last erase, for every device behaviour |
| MtdWriter.WriteContext.WriteBlock | flash/src/mtd_flash.c:426-489 | return code, flash, file position and bad list of a block write |
| MtdWriter.WriteContext.WriteData | flash/src/mtd_flash.c:491-518 | cutting caller bytes into blocks around a partly filled buffer equals one pass over pending plus new bytes; on failure, exactly what stays in the buffer |
| MtdWriter.WriteContext.EraseBlocks | flash/src/mtd_flash.c:520-563 | padding and flushing, the block count check, the erase loop and the returned offset |
| MtdWriter.WriteContext.Close | flash/src/mtd_flash.c:565-575 | result 0 only if the flush and the close succeed |
| MtdWriter.WriteContext.FindWriteStart | flash/src/mtd_flash.c:577-591 | the pass over the bad list; it returns the first free offset if and only if all offsets up to that one come in turn |
| MtdWriteSpec.WriteFromEffect | flash/src/mtd_flash.c:432-488 | wherever a block write ends: nothing below its start and no block reported bad has changed, the file position has not gone back, and on success exactly one tried block holds the data, with the position right behind it |
| MtdWriteSpec.AttemptIff | flash/src/mtd_flash.c:451-474 | whether one attempt at a block verifies, from what the device does: the erase succeeds, the write leaves the data whatever it reports, and the read succeeds |
| MtdWriteSpec.VisitIff | flash/src/mtd_flash.c:437-482 | a block is taken if and only if the query does not object and one of two attempts verifies |
| MtdWriteSpec.GivenUpErased | flash/src/mtd_flash.c:448-482 | a good block that is given up is left erased, unless that last erase fails |
| MtdWriteSpec.RefusedIff | flash/src/mtd_flash.c:426-489 | the reasons for a refusal: lseek fails, with nothing done, or every block from the file position on has been recorded |
| MtdStream.DrainEffect | flash/src/mtd_flash.c:494-515 | committed blocks followed by the remainder are the bytes passed in, or a prefix when a block is refused |
| MtdStream.StreamRefinement | flash/src/mtd_flash.c:426-518 | over any calls: while all succeed, committed blocks in increasing offset order followed by the pending bytes equal everything passed in, with less than a block pending; after a failure a prefix is committed |
| MtdStream.CuttingDoesNotMatter | flash/src/mtd_flash.c:491-518 | with the same device responses every way of cutting the bytes into calls leaves the same flash, position, bad list, status and pending bytes |
| MtdStream.CallsAreOnePass | flash/src/mtd_flash.c:491-518 | a sequence of calls does what one pass over the concatenation does |
| MtdStream.Durability | flash/src/mtd_flash.c:426-575 | after any calls, failed ones included, and after the close behind them, every committed block holds what it held and no byte of a block reported bad has changed |
| MtdStream.EraseFromErases | flash/src/mtd_flash.c:544-560 | if no erase fails, every block of the range not reported bad reads 0xFF |
| MtdStream.EraseBlocksResult | flash/src/mtd_flash.c:520-563 | a negative count erases up to the last whole block, any other one is refused if and only if so many blocks are not left; the result is the offset behind the range |
| MtdStream.EraseBlocksErasesRange | flash/src/mtd_flash.c:539-563 | nothing outside the range up to that offset changes, and if no erase fails every block of it not reported bad reads 0xFF |
| MtdStream.CloseCommits | flash/src/mtd_flash.c:520-575 | a close that returns 0 has committed what was pending, with zeros to a block boundary |
| MtdStream.CloseBehindFailedWrite | flash/src/mtd_flash.c:491-518 | a close that returns 0 behind a failed mtd_write_data has committed the block gathered in the buffer if that was the one refused, and nothing more of the call otherwise |
| MtdStream.CloseBehindFailedErase | flash/src/mtd_flash.c:520-533 | when mtd_erase_blocks cannot write what is pending, a later close that returns 0 has committed it |
| MtdStream.CloseWithNothingPending | flash/src/mtd_flash.c:565-575 | with nothing pending a close returns 0 if and only if lseek and close succeed, whatever failed before |
| MtdCapacity.ExactCapacity | flash/src/mtd_flash.c:437-518 | if no good block is given up and lseek works, writing n bytes on a fresh context and flushing succeeds if and only if n rounded up to blocks is at most the number of good blocks |
| MtdCapacity.CapacityWhenDependable | flash/src/mtd_flash.c:451-575 | the same from the device's side, with the close, when from now on one of any two attempts in a row verifies on every good block |
| MtdCapacity.WholeWriteIff | flash/src/mtd_flash.c:426-518 | without faults an image of the whole partition can be written if and only if the query objects to no block |
| MtdCapacity.CeilingFits | flash/src/mtd_flash.c:494-515 | n bytes need at most k blocks if and only if they fit into k blocks |
| MtdBadHistory.BadListInOrder | flash/src/mtd_flash.c:417-563 | from a fresh context, over writes and erases in any order, the recorded offsets are block offsets, strictly increasing and below the next write position while no call fails, and still in order after the first that does |
| MtdBadHistory.FindStartIsRightUntilFailure | flash/src/mtd_flash.c:577-591 | up to and including the first failed call the lookup is right from every offset |
| MtdBadHistory.FindStartIsRightForBlocks | flash/src/mtd_flash.c:417-591 | after any calls on a fresh context, failed ones and retries included, the lookup returns from every block offset the first block offset at or after it that is not recorded |
| MtdBadHistory.FindStartFindsData | flash/src/mtd_flash.c:417-591 | while all calls succeed, every block below the file position is recorded as bad or committed and not both, and the lookup from a block offset returns the next committed block, or the file position |
| MtdBadHistory.SecondFailureMisleads | flash/src/mtd_flash.c:432-484 | a concrete device on which two failed writes leave a list that makes the lookup from an offset that is no block offset answer with a recorded one |
| MtdBadList.FindStartIsRightIff | flash/src/mtd_flash.c:580-591 | for any list and any starting offset the lookup is right if and only if each offset up to the first free one has no larger entry before its first occurrence |
| MtdBadList.FindStartIsRightAtAllIff | flash/src/mtd_flash.c:580-591 | the same for a set of starting offsets closed under stepping to the next block |
| MtdReader.ReadContext.ReadBlockInto | flash/src/mtd_flash.c:304-339 | the block read, skipping read errors, new ECC failures and blocks the query does not call good; bytes outside the destination are kept |
| MtdReader.ReadContext.ReadData | flash/src/mtd_flash.c:341-372 | reads of any length against the queue of fetched blocks, with termination although a round may deliver no byte |
| MtdReadSpec.ReadsAreConsecutive | flash/src/mtd_flash.c:341-372 | successive reads of any lengths deliver together what one read of the total length delivers and leave the same context |
| MtdReadSpec.ReaderRefinement | flash/src/mtd_flash.c:304-372 | whatever the device answers, what was delivered followed by the buffered rest is the contents of the blocks read, good ones in increasing offset order |
| MtdReadTrace.DeliveredIff | flash/src/mtd_flash.c:304-372 | which blocks are read: over any reads, successful or not, every block from the start to the last position or to where the run stopped has its round, and it is delivered if and only if its read and the statistics behind it succeed, its query returns 0 and no ECC failure is unaccounted for |
| MtdReadTrace.BacklogIff | flash/src/mtd_flash.c:318-327 | ECC failures are unaccounted for if and only if a read counted one and it and all later ones have failed |
| MtdReadTrace.CleanBlockSkipped | flash/src/mtd_flash.c:318-327 | a concrete device on which a good block that reads cleanly is skipped |
| MtdMirror.ClosedMirrors | flash/src/mtd_flash.c:426-575 | a closed writer has committed exactly the padded data; what a reader sees below its file position is longer by the blocks given up although the query calls them good, and is the padded data if and only if there are none |
| MtdRoundTrip.RoundTrip | flash/src/mtd_flash.c:304-575 | bytes written by any calls and closed without error are returned by any reads of a fresh context, with zeros to a block boundary, if no block the query calls good was given up, and with exactly these blocks in between otherwise; the reader may meet any faults but at good blocks and in ECCGETSTATS |
| MtdRoundTrip.DataComesBack | flash/src/mtd_flash.c:304-575 | so the data comes back whenever no such block was given up |
| MtdRoundTrip.GivenUpComesBack | flash/src/mtd_flash.c:448-484 | a concrete device on which the write and the close succeed and a reader without faults delivers the block given up in front of the data |
| MtdRoundTrip.QuietIsClean | flash/src/mtd_flash.c:304-339 | a reader without faults satisfies the condition of the round trip |
| MtdRoundTrip.RoundTripWhenDependable | flash/src/mtd_flash.c:304-575 | on a device whose good blocks verify within two attempts, whatever fits is written, closed and read back exactly |
| MtdRoundTrip.OneByteComesBack | flash/src/mtd_flash.c:304-575 | the conditions can be met: a byte is written and closed without error with or without the query, and comes back with it and not without |
| MtdRoundTrip.TakeQuiet | flash/src/mtd_flash.c:304-372 | without faults a read succeeds if and only if that many bytes are left, delivers the next ones and leaves the others |
| MtdRoundTrip.NothingReadableWithoutQuery | flash/src/mtd_flash.c:328-330 | without a bad-block query no byte can be read, whatever else the device answers |
| MtdRoundTrip.RoundTripIffQuerySupported | flash/src/mtd_flash.c:328-441 | reading back works if and only if the bad-block query is supported |
| MiscMtd.FullReadIsContents | ota/src/bootloader.c:228-233 | by counting blocks: a successful read of the whole partition skipped none |
| MiscMtd.FullWriteIsContents | ota/src/bootloader.c:243-247 | by counting blocks: after a successful write of the whole partition it holds exactly those bytes |
| MiscMtd.ReadMiscMtd | ota/src/bootloader.c:256-282 | result, device and bytes of a read, zeros when it fails; on success they are those at the offset |
| MiscMtd.RewriteLeaves | ota/src/bootloader.c:211-254 | what an update leaves: on success the bytes at the offset replaced and nothing else, on failure the old contents or what a write of that image leaves, and no block reported bad changed |
| MiscMtd.ReadWholeIff | ota/src/bootloader.c:256-282 | without faults the partition can be read if and only if it opens and the query calls every block good |
| MiscMtd.RewriteIff | ota/src/bootloader.c:211-254 | without faults an update succeeds if and only if the partition opens both times and the query calls every block good |
| MiscMtd.RewriteNeedsClose | ota/src/bootloader.c:248-253 | whatever happens, an update reports success only if both opens and the last device call, the close, succeed |
| Misc.Partition.ReadMiscBlock | ota/src/bootloader.c:303-324 | result and bytes for every outcome of the file calls, the unchecked fseek included |
| Misc.Partition.WriteMiscBlock | ota/src/bootloader.c:284-300 | result and contents for every outcome of the file calls, the unchecked fseek included |
| Misc.Partition.ReadMisc | ota/src/bootloader.c:256-343 | on either kind of device: exactly when it succeeds, and always when nothing goes wrong; success returns the bytes at the offset, if no fseek fails; nothing on the partition changes |
| Misc.Partition.WriteMisc | ota/src/bootloader.c:211-333 | on either kind of device: exactly when it succeeds, and always when nothing goes wrong; success leaves the old contents with exactly the bytes at the offset replaced, if no fseek fails; a failure leaves the old contents or exactly what the interrupted write leaves, and on MTD never touches a block reported bad |
| Misc.CellsAreIndependent | ota/src/bootloader.c:354-378 | in any interleaving of successful record and message writes each cell holds its own last value and every other byte its first one |
| Misc.UpdateAndReadBack | ota/src/bootloader.c:211-378 | on the device: after any successful sequence of record and message writes, reading each cell returns what was last written to it; when nothing goes wrong they all succeed |
| Misc.EraseLosesRecord | ota/src/bootloader.c:211-254 | power loss behind the erase that begins every write of the record's block leaves 32 bytes 0xFF |
| Misc.FailedWriteLosesRecord | ota/src/bootloader.c:243-247 | a worn-out device on which any rewrite fails and leaves no magic and slot 0 selected |
| Misc.SetSlotActivity | ota/src/bootloader.c:629-652 | when nothing goes wrong it succeeds if and only if a slot is current; success replaces only the record, by one with a right checksum that selects the other slot, and byte for byte only the two priorities, the other slot's tries and mark, and the checksum |
| Misc.SetSlotSucceed | ota/src/bootloader.c:578-624 | when nothing goes wrong it succeeds if and only if a slot is current; success replaces only the record, as SucceededWrites says, or writes nothing when the magic is wrong |
| Crc32.BitStepLinear | ota/src/bootloader.c:124-134 | one bit step is linear |
| Crc32.TableIsByteStep | ota/src/bootloader.c:58-102 | every entry of the table is eight bit steps with polynomial 0xEDB88320 |
| Crc32.TableStep | ota/src/bootloader.c:129-131 | the table step is the bit-serial step |
| Crc32.IavbCrc32 | ota/src/bootloader.c:124-134 | for every byte string the loop computes the bit-serial checksum of section 8 of RFC 1952 |
| Crc32.Chaining | ab_meta/src/rk_ab_meta.c:78-94 | a checksum can be continued: crc(crc(c, a), b) = crc(c, a + b) |
| Crc32.BurstDetected | ota/src/bootloader.c:124-139 | two messages of any length that differ only inside four consecutive bytes never have the same checksum |
| Crc32Bits.RegisterIsBitRegister | ota/src/bootloader.c:124-134 | taking in the message bit by bit, lowest bit first, gives the same register |
| Crc32Bits.BitBurstDetected | ota/src/bootloader.c:124-139 | two messages of any equal length that differ only inside 32 consecutive bits, at any bit offset, never have the same checksum |
| Crc32Bits.BoundIsSharp | ota/src/bootloader.c:124-139 | 33 bits are too many: a concrete pair with the same checksum |
| Crc32Bits.InvertedBothEnds | ota/src/bootloader.c:124-134 | the checksum is the complement of the bit register run from the complement of the start value |
| Crc32Bits.CheckValue | ota/src/bootloader.c:58-139 | the checksum of the nine bytes "123456789" is 0xCBF43926 |
| AbRecord.ParseSerialize | ota/include/bootloader.h:90-134 | the layout of the record: parsing what was serialized gives it back |
| AbRecord.SerializeParse | ota/include/bootloader.h:90-134 | and the other way round for every 32 bytes |
| AbRecord.SerializeLayout | ota/include/bootloader.h:90-134 | the byte at which each field of the record lies |
| AbRecord.UpdateCrc | ota/src/bootloader.c:141-144 | the record is sealed and nothing but its checksum field changes |
| AbRecord.UpdateCrcStores | ota/src/bootloader.c:104-144 | bytes 28 to 31, the highest first, are the checksum of bytes 0 to 27, which do not change |
| AbRecord.BigEndianInjective | ota/src/bootloader.c:104-116 | the stored bytes determine the checksum |
| AbRecord.SlotChangeDetected | ab_meta/src/rk_ab_meta.c:96-107 | changing any one slot entry always invalidates the checksum |
| Slots.CurrentSlotIff | ota/src/bootloader.c:529-573 | r is selected if and only if it is bootable and no bootable slot has a higher priority, or the same and a lower number; with none bootable, what the last-boot field names, else -1 |
| Slots.RunKeepsSane | ota/src/bootloader.c:578-652 | priorities at most 15, tries at most 7, no tie between bootable slots, and a right checksum are kept by every sequence of operations, in every build, and boots |
| Slots.ActivityFlips | ota/src/bootloader.c:629-652 | setSlotActivity always selects the other slot |
| Slots.ActivityWrites | ota/src/bootloader.c:629-652 | it fails if and only if no slot is current; otherwise the slot left gets priority 14, the other one 15, seven tries and no mark, and only the checksum changes besides |
| Slots.ActivateAnotherSelects | ab_meta/src/rk_ab_meta.c:314-350 | rk_ab_meta_active_another_slot always selects the slot that is not running |
| Slots.ActivateAnotherWrites | ab_meta/src/rk_ab_meta.c:314-350 | the same values, away from the running slot; besides, 0 as the last booted slot and the checksum |
| Slots.ActivationsAgreeIff | ab_meta/src/rk_ab_meta.c:334-341 | the two activations agree if and only if the record selects the running slot and the last-boot field is 0 |
| Slots.SucceededIsStable | ota/src/bootloader.c:578-624 | setSlotSucceed keeps the selected slot and is idempotent, in every build |
| Slots.SucceededWrites | ota/src/bootloader.c:578-624 | when it writes, and each field in each build: priority 15 and last booted; seven tries without the mark with RETRY_BOOT, none with the mark with SUCCESSFUL_BOOT alone; nothing else but the checksum |
| Slots.SucceededLasts | ota/src/bootloader.c:597-617 | built with SUCCESSFUL_BOOT alone, every later boot selects that slot |
| Slots.RetriedLastsSeven | ota/src/bootloader.c:597-617 | built with RETRY_BOOT, it is selected for seven more boots, and then a confirmed other slot |
| Slots.BootsForecast | ota/include/bootloader.h:90-104 | which slot each of any number of unconfirmed boots selects, from the record alone |
| Slots.Rollback | ota/src/bootloader.c:629-652 | after switching away from a confirmed slot exactly the next seven boots select the new one and all later ones the old one |
| Slots.RollbackAfterActivateAnother | ab_meta/src/rk_ab_meta.c:314-350 | the same after rk_ab_meta_active_another_slot for any record, down to the final fallback to slot 0 |
| Slots.FallsBack | ota/include/bootloader.h:90-104 | with one slot confirmed and the other not, all boots but at most the first seven select the confirmed one, whichever is selected now |
| BlockCopy.DoWriteCopies | upgrade/src/dl_upgrade.c:112-175 | with full reads, success means the image in front and the rest of the device unchanged, for any block size |
| BlockCopy.DoWriteAnyBlock | upgrade/src/dl_upgrade.c:112-175 | with full reads an image of up to 2 GiB is written if and only if it is not empty and fits and no write of it fails, with any block size |
| BlockCopy.DoWriteSucceedsIff | flash/src/emmc_flash.c:27-55 | in 16 KiB blocks and with full reads it succeeds if and only if the image is not empty, fits and is at most 2 GiB and no write of it fails |
| BlockCopy.VigilantCopies | upgrade/src/dl_upgrade.c:151-170 | if the first short fread delivers nothing and is not that of the second block, success means a complete copy, whatever writes fail |
| BlockCopy.SuccessMeansCompleteIffVigilant | upgrade/src/dl_upgrade.c:151-170 | for a given block size, success means a complete copy for all images and partitions if and only if that holds of the short freads |
| BlockCompare.BlockWrite | ota/src/bootloader.c:411-476 | it succeeds if and only if the image fits and every 16 KiB piece is read in full and written; then the image is in front and the rest unchanged |
| BlockCompare.CheckData | ota/src/md5sum.c:81-131 | the 512-byte chunk loop computes the digest of the whole range, for any streaming digest |
| BlockCompare.CompareFile | ota/src/bootloader.c:478-495 | accepts if and only if the digests of the two ranges agree |
| BlockCompare.FlashWritePartition | ota/src/bootloader.c:654-695 | the comparison accepts every copy made, so it succeeds under the same condition; without faults the copy equals what upgrade_do_write leaves with any block size |
| Upgrade.Board.UpgradeDoWrite | upgrade/src/dl_upgrade.c:112-175 | device contents and result of the copy loop; every state on the way differs only in the destination |
| Upgrade.Board.UpgradeWritePartition | upgrade/src/dl_upgrade.c:177-219 | contents and result for every outcome of its calls, and with 16 KiB blocks and full reads exactly when it succeeds; an image that cannot be opened counts as written with nothing done; an image is removed exactly if its copy was begun |
| Upgrade.Board.UpgradePartition | upgrade/src/dl_upgrade.c:221-244 | the same, and an image that is absent counts as written with nothing done |
| Upgrade.Board.ActivateAnotherSlot | ab_meta/src/rk_ab_meta.c:314-350 | result and record for every outcome of its read and write; no partition changes |
| Upgrade.Board.UpgradePacket | upgrade/src/dl_upgrade.c:246-326 | unconditionally: every state power loss can leave has the running slot untouched and the record as it was, or the activated one with all partitions of the other slot done; with 16 KiB blocks and full reads the call succeeds if and only if each image that opens is not empty, fits, is at most 2 GiB and can be written, and then each partition holds the image found for it if that could be opened and is unchanged otherwise; once the record is written the other slot is selected; a failed call stops at the first partition to fail and leaves the record alone; for each copy begun, power loss during its first write is among the states passed |
| Upgrade.InPlaceIff | upgrade/src/dl_upgrade.c:177-244 | a partition reported as written holds its image if and only if the image could be opened or was there already, unless a short fread goes unnoticed |
| Upgrade.AcceptedIff | upgrade/src/dl_upgrade.c:112-219 | exactly when a partition is reported as written, from its image and the partition |
| Upgrade.NothingUnpacked | upgrade/src/dl_upgrade.c:286-320 | with nothing unpacked no partition fails and none changes |
| Upgrade.SafeToBoot | upgrade/src/dl_upgrade.c:308-323 | whatever power loss leaves, if the record selected the running slot it still does, or it selects the other one with every openable image found completely in place |
| Upgrade.SafeToBootIff | upgrade/src/dl_upgrade.c:246-326 | the condition is exact, but for calls with nothing to install |
| Upgrade.SecondCallIsUnsafe | upgrade/src/dl_upgrade.c:308-323 | after a successful activation a second call with anything to install can leave an unsafe state |
| Upgrade.TornIsBooted | upgrade/src/dl_upgrade.c:112-175 | power loss during the first write to a partition, a state every such call passes through, is then booted with the image missing |
| Upgrade.AlwaysReturns | upgrade/src/dl_upgrade.c:308-323 | from every such state, if the running slot is confirmed and the other one is not or is not selected, and nothing later ever is confirmed, all boots but at most the first seven select the running slot, whose partitions are untouched; a second call before the reboot included |
| Upgrade.AlwaysReturnsIff | upgrade/src/dl_upgrade.c:308-323 | that condition on the record is exact |
| RingList.ListEmpty | test/utils/include/list.h:35-49 | the three tests agree and say whether the head is alone |
| RingList.RingRotates | test/utils/include/list.h:17-25 | a ring can be listed from any of its nodes |
| RingList.ListAdd | test/utils/include/list.h:59-62 | the node is inserted right behind the head |
| RingList.ListAddTail | test/utils/include/list.h:64-67 | the node is inserted right before the head |
| RingList.Unlink | test/utils/include/list.h:69-81 | the node is taken out of its ring and keeps its own links |
| RingList.ListDel | test/utils/include/list.h:83-90 | removal from the ring with both links cleared; NULL is ignored |
| RingList.ListDelInit | test/utils/include/list.h:92-96 | removal; the node becomes a ring of its own |
| RingList.ListReplace | test/utils/include/list.h:98-104 | substitution, also of the only node of a ring, and what the old node's links become |
| RingList.ListReplaceInit | test/utils/include/list.h:106-110 | substitution; the old node becomes a ring of its own |
| RingList.ListMove | test/utils/include/list.h:117-121 | relocation behind the head of the same ring, also from there |
| RingList.ListMoveOver | test/utils/include/list.h:117-121 | relocation behind the head of another ring |
| RingList.ListMoveTail | test/utils/include/list.h:128-133 | relocation before the head of the same ring |
| RingList.ListMoveTailOver | test/utils/include/list.h:128-133 | relocation before the head of another ring |
| RingList.Visit | test/utils/include/list.h:150-153 | a traversal visits every entry once, in order |
| RingList.ClearList | test/utils/include/list.h:160-164 | a traversal that unlinks each entry visits all of them once, in order, terminates, and leaves the head alone and the entries in no ring |

## Left out

- Finding, opening and mounting devices, `/proc/mtd` and command-line parsing, unpacking, `nandwrite` and `nanddump`: the partition, the running slot and the unpacked images are inputs; where the program stops because such a step failed, the model may stop too.
- `mtd_read_skip_to`: it moves the file position without dropping buffered bytes.
- Two descriptors open on one MTD device at the same time: the program never has them.
- MtdReader.ReadContext.ReadBlockInto: lseek(fd, 0, SEEK_CUR), whose result the program does not check, is taken to succeed.
- MtdWriter.WriteContext.AddBadBlockOffset: a failing realloc, which the program does not check, is not modelled.
- Misc.Partition.ReadMiscBlock: an access that fseek leaves at offset 0 transfers as many bytes as one at the offset would; `wait_for_device` is not modelled.
- Upgrade.Board.UpgradePacket: the nand and nor backends are stubs that report block size 0, for which the copy is refused; progress reports and the mutex are not modelled.
- BlockCompare.CompareFile: when one side cannot be read the program compares bytes it never set; the model then returns either result.
- Crc32.IavbCrc32: a negative size is not modelled; the table is written as sixteen rows of sixteen.
- RingList.ListMove: moving a head relative to itself is outside what the list supports.
- `miscUpdate` and `flash_write`: they call, per partition and then once, what is modelled as `BlockCompare.FlashWritePartition` and `Misc.SetSlotActivity`.
- `rk_ab_meta_active_current_slot`, the reverse list macros, `container_of`, the hash list types, the event hub, logging, semaphores and the helpers of `test/utils`: they would only add easy members.
