# Flash installer: layout, boot tables, factory log, NAND images

The installer writes a firmware image to NAND, NOR or eMMC. It decides where every image and partition
goes, records those decisions in partition tables, descriptor tables and a boot table, and keeps a small
log of factory settings that must survive power cuts. This project models the parts of it that compute,
and proves what they are for.

* **Layout** (`flash_layout`, `layout_sound`, `layout_wrap`, `safe_upgrade`, on top of `sums`, `stacks`,
  `align`): firmware is stacked upwards and partitions downwards in 64-bit wrapping arithmetic, and one scalar
  comparison decides. As long as its own 64-bit total has not wrapped, the comparison is shown to be enough:
  nothing else wrapped, all regions are disjoint and inside the flash, and the free space is the gap. For safe
  upgrades the same is shown for either half of the flash. Over every run of upgrades, of any sizes, the
  running image is never touched as long as the branch has a place for all that they install; when two upgrades
  install the same kinds of things, exactly then.
* **Partition tables** (`mbr_chain`, `mbr_decode`, `burn_position`, `emmc_install`): the master boot record
  and the chain of extended boot records (Legacy MBR, section 5.2.1 of the UEFI Specification) are built as
  the installer builds them, and read by an independent decoder. The decoder, the layout and the burner agree
  on every partition, for all lists, exactly when the sizes are whole sectors above the 16-sector reserve.
  `EmmcInstall.InstallEmmc` runs layout and tables one after the other; of the medium only the boot records
  change, and no sector of a partition or of the firmware below.
* **Factory log** (`factory_log`, `tar_header`): two slots written in turn, with a commit mark and wrapping
  sequence numbers, as a state machine with power cuts, refused archives and restarts. A restart finds the
  last complete archive, under a header with a right checksum. That a cut write is not taken for a finished
  one is not assumed: it follows from the sequence numbers.
* **NAND ECC and virtual NAND images** (`gf2`, `lfsr`, `nand_ecc`, `bch`, `nand_bch`, `virtual_nand`): the
  unrolled encoder is the bit-serial register, the register is polynomial division over GF(2), every emitted
  unit is a codeword, and the image can be stripped and addressed again. The generator in the table has the
  roots a, a^2, .., a^12 for an element a of order 8191, so any two codewords differ in thirteen bits or more:
  up to twelve wrong bits of a unit are noticed, and up to six leave its data determined.
* **Descriptor tables, archives, boot code** (`fw_desc`, `tar_walk`, `boot_code`, `part_table`).
* **Lists and fuses** (`ring_list`, `efuse`).

Words of 32 and 64 bits are bounded integers with their wrap-around written out (`words`). Storage is a
sequence, array or map of the units the code writes. Reads, writes and clocks that can fail or differ from
run to run are parameters, as are the answers of the fuse hardware. A null `next` or `prev` stands for the
list poison values.

Where the code does not do what it is for, the project proves the exact boundary:

* An image whose partition is not longer than the 16-sector reserve is described wrongly by the partition
  tables (`MbrDecode.FaithfulIffLong`), and sizes that are not whole sectors shift the layout against the
  tables (`BurnPosition.PositionsAgree`).
* On NAND the second factory slot runs into the descriptor table unless the two slots fill whole erase
  blocks (`LayoutSound.FactoryClearOfTable`). An image of a type that the branch never places gets space but
  no offset, and lies on the boot code unless it is empty or dropped by the A/V count
  (`LayoutSound.UnplacedCollides`); on eMMC it lies on the master boot record
  (`LayoutSound.EmmcUnplacedCollides`).
* The comparison adds up on 64 bits. A layout whose total reaches 2^64 can pass without fitting
  (`LayoutWrap.NandWrapAccepted`, `LayoutWrap.EmmcWrapAccepted`, `SafeUpgrade.WrapAccepted`); with a flash that
  is not near 2^64 that is the only way (`LayoutWrap.NandSoundIff`, `LayoutWrap.EmmcSoundIff`,
  `SafeUpgrade.HalfSoundIff`).
* The safe-upgrade branch has no place for seven of the fourteen partition types and for some firmware, but
  counts and burns them. What an upgrade installs of these goes to offset 0, over the boot area and over what the
  upgrade before has put there (`SafeUpgrade.DataOverwritten`). An upgrade keeps to its half exactly when there is
  none (`SafeUpgrade.InsideIff`, in terms of the sizes before the layout `SafeUpgrade.AllPlacedIff`). Exactly then
  it spares the boot area (`SafeUpgrade.BootSparedIff`), and among upgrades of the same kinds the image before
  (`SafeUpgrade.PreviousImageKeptIff`). The next item is about upgrades with a place for everything.
* A safe upgrade may write over the factory section unless that lies outside the half it writes
  (`SafeUpgrade.FactorySafeIff`; on a 16 MB flash with the factory start that the SPI parameters give, it
  does: `SafeUpgrade.FactoryOverwritten`). It may write over the boot area in the high half unless that area
  ends before the middle (`SafeUpgrade.BootSafeIff`, `SafeUpgrade.BootOverwritten`). And the space check of
  the low half says nothing when the boot area begins behind it (`SafeUpgrade.RoomSufficesIff`).
* The boot area of the NOR branch covers the rescue area unless their 32-bit sum wraps
  (`SafeUpgrade.BootCoversIff`), and the factory section its two slots unless they reach the last block of
  4 GB (`SafeUpgrade.SectionCoversIff`).
* On eMMC a device tree image above 256 KB does not fit its region (`LayoutSound.EmmcFirmwareFitsIff`).
* Slot selection finds the newer slot for 1 to 15 flushes across the wrap, and no further
  (`FactoryLog.NewerIff`); a write that stopped early counts as valid exactly when its commit mark was lying
  there already (`FactoryLog.TornWriteValidIff`), which cannot be while fewer than 2^32 numbers have been used
  (`FactoryLog.NoStaleMark`).
* A flush whose write fails leaves the slot switched. Without a restart the next flush writes over the only
  good slot, and a power cut there leaves none (`FactoryLog.FailureExposesGoodSlot`).
* A raw image has room in its partition unless a 32-bit sum wraps, or its minimum size is in the last block of
  64 bits (`BurnPosition.RawAllocationFitsIff`, `Align.AlignMoreExact`).
* Ten partitions fill all eight tables that the code declares, so that the write-back finds no end; it stops
  exactly up to nine (`MbrChain.ChainFitsIff`, `MbrChain.Emmc.WriteBackStopsIff`).
* The rescue descriptor table of a signed system is wrong unless every signature is zero
  (`FwDesc.FwHeader.RescueFwdesc`).
* The archive walk steps exactly while padded size and offset stay in 32 bits (`TarWalk.NextOffsetExactIff`),
  does not move at all on the 512 sizes up to 2^32 - 512 (`TarWalk.StuckIff`), and stops at the first member
  that starts beyond 2 GB (`TarWalk.AllVisitedIff`). It ends exactly when no step leads back to an offset where
  it has been (`TarWalk.WalkEndsIff`).
* A virtual NAND image above flash offset 0xF83E1000 goes to a wrapped position
  (`VirtualNand.OffsetExactIff`).
* The NAND boot code fits its reservation for erase blocks up to 128 MB only (`BootCode.ReservationFitsIff`).
* A partition name of 32 characters or more is never found for removal (`PartTable.BootTable.ReplacePart`).
* Fuse numbers from 4096 on burn another fuse than the one that is then read (`Efuse.Otp.ProgramStart`), so
  programming succeeds there only on bits that are set already, with working hardware exactly then. It adds exactly the source bits if the fuses
  burnt instead are set or source bits themselves and, when burns take, only then (`Efuse.Otp.StartProgram`).

`dafny verify dfyconfig.toml` checks everything.

## Model

| member | source | states |
|---|---|---|
| Align.AlignLessIsFloor | include/rtk_fwdesc.h:8-11 | the mask expression is the largest multiple of a power-of-two size not above the length |
| Align.AlignMoreExact | include/rtk_fwdesc.h:13-16 | the other one is the smallest multiple not below it, including length 0 where the subtraction wraps, and zero exactly for 0 and for lengths in the last block of 64 bits |
| FlashLayout.Layout.FillInstallAvCount | src/rtk_imgdesc.cpp:1142-1170 | exactly the first `count` boot, first logo and second logo files of audio, image and video keep their space, all other types too, and counts outside 0..3 fail and change nothing |
| FlashLayout.Layout.PlaceChain | src/rtk_imgdesc.cpp:1341-1371 | each firmware image starts where the one before it ends, from the given bottom; nothing else moves |
| FlashLayout.Layout.PlaceTopDown | src/rtk_imgdesc.cpp:1375-1389 | each partition ends where the next filled slot of the list begins, the last one at the top; empty slots are skipped and nothing else moves |
| FlashLayout.Layout.SetFreeSpace | src/rtk_imgdesc.cpp:1890-1901 | free space is recorded exactly when the stacks leave a gap |
| FlashLayout.Layout.SortByOffset | src/rtk_imgdesc.cpp:1922-1940 | the selection sort gives a permutation of all types by descending offset |
| FlashLayout.Layout.NeedSize | src/rtk_imgdesc.cpp:1942-1973 | the size added up in sorted order is the total of all counted allocations mod 2^64, whatever the order |
| FlashLayout.CountedAllBut | src/rtk_imgdesc.cpp:1942-1973 | that total is the space of all types but free space, the part of the running system and the boot loader |
| FlashLayout.Layout.StackAndCheck | src/rtk_imgdesc.cpp:1906-2012 | both stacks, then the comparison of the total with the flash, which an installation of the factory area only skips |
| FlashLayout.Layout.ReserveNand | src/rtk_imgdesc.cpp:1266-1331 | boot code, factory slots and descriptor table below the NAND firmware, the failures before that, and that no other type is touched |
| FlashLayout.Layout.LayoutNand | src/rtk_imgdesc.cpp:1259-1389 | success exactly when nothing is refused and the check passes or is skipped; then reservations, firmware sizes and both stacks together; no other type gets another space or offset |
| FlashLayout.Layout.ReserveEmmc | src/rtk_imgdesc.cpp:1623-1694 | factory slots and both descriptor tables below the eMMC firmware, and that no other type is touched |
| FlashLayout.Layout.LayoutEmmc | src/rtk_imgdesc.cpp:1608-1821 | the same for the eMMC branch |
| LayoutSound.CheckSuffices | src/rtk_imgdesc.cpp:2001-2012 | the one comparison implies: no subtraction wrapped, all regions disjoint and inside the flash, free space is the gap |
| LayoutSound.SoundIff | src/rtk_imgdesc.cpp:1335-1389 | two stacks placed in wrapping arithmetic are disjoint, inside the flash and apart if and only if their true lengths fit |
| LayoutSound.NandSound | src/rtk_imgdesc.cpp:1259-1389 | every NAND layout that passes is sound above boot code, factory slots and descriptor table, unless its total has wrapped |
| LayoutSound.ChainPositions | src/rtk_imgdesc.cpp:1341-1371 | in a sound layout the fifteen images join each other in this order: device trees, audio, kernel, root file systems, then per kind boot file and both logos |
| LayoutSound.EmmcSound | src/rtk_imgdesc.cpp:1608-1817 | every eMMC layout that passes is sound above the factory slots and both descriptor tables, unless its total has wrapped |
| LayoutWrap.NandSoundIff | src/rtk_imgdesc.cpp:1942-2012 | with a flash not near 2^64, a NAND layout that passes is sound if and only if its total has not wrapped |
| LayoutWrap.EmmcSoundIff | src/rtk_imgdesc.cpp:1942-2012 | and so for eMMC |
| LayoutWrap.NandWrapAccepted | src/rtk_imgdesc.cpp:1942-2012 | a partition of almost 2^64 bytes passes the check of a 1 MB NAND flash |
| LayoutWrap.EmmcWrapAccepted | src/rtk_imgdesc.cpp:1942-2012 | and that of a 1 MB eMMC |
| LayoutSound.FactoryClearOfTable | src/rtk_imgdesc.cpp:1287-1316 | factory slots and descriptor table are disjoint if and only if the two slots fill whole erase blocks |
| LayoutSound.TableBehindSlotsIff | src/rtk_imgdesc.cpp:1287-1316 | the descriptor table begins right behind the factory slots if and only if these begin where the boot code ends |
| LayoutSound.BootCodeFits | src/rtk_imgdesc.cpp:1266-1331 | the boot code has its size in whole blocks at its start, and the factory slots are where they should be |
| LayoutSound.UnplacedCollides | src/rtk_imgdesc.cpp:1269-1272 | a firmware type outside the chain, in a table that began at zero, lies clear of the boot code if and only if its image is empty or dropped |
| LayoutSound.EmmcUnplacedCollides | src/rtk_imgdesc.cpp:1625-1634 | on eMMC such a type lies clear of the master boot record if and only if its image is empty or dropped |
| LayoutSound.FirmwareFits | src/rtk_imgdesc.cpp:1269-1284 | on NAND every image gets its size in whole blocks, less than one to spare, or nothing exactly if the A/V count does not reach it |
| LayoutSound.EmmcFirmwareFitsIff | src/rtk_imgdesc.cpp:1625-1654 | on eMMC all images that the A/V count reaches have room if and only if both device trees are at most 256 KB |
| SafeUpgrade.ReserveNor | src/rtk_imgdesc.cpp:1449-1491 | boot code, factory section and the aligned firmware sizes of the NOR branch, that all other types keep space and offset, and when it fails, the boot code check included |
| SafeUpgrade.LayoutSsu | src/rtk_imgdesc.cpp:1490-1599 | which half is written and which protected for each working part, the two stacks and the gap, what space every type gets, the types that keep their offset, when the branch fails, and the skipped check of a factory-only installation |
| SafeUpgrade.NorFirmwareFits | src/rtk_imgdesc.cpp:1463-1480 | an accepted upgrade gives kernel, audio, both videos and the two boot files their size in whole blocks, or nothing exactly if the A/V count does not reach them; other types keep their space |
| SafeUpgrade.HalfPositions | src/rtk_imgdesc.cpp:1524-1599 | an accepted upgrade joins its regions in this order: etc and root file system from the bottom; video, audio, kernel, boot files, logos and partitions 5 to 1 from the top |
| SafeUpgrade.MiddleBlocks | src/rtk_imgdesc.cpp:1494-1516 | the two ends of the halves at the middle are the nearest block boundaries on either side of it |
| SafeUpgrade.BootCoversIff | src/rtk_imgdesc.cpp:1459-1462 | the boot area covers the rescue area, in whole blocks, if and only if their sum stays in 32 bits |
| SafeUpgrade.SectionCoversIff | src/rtk_imgdesc.cpp:1484-1491 | the factory section covers both slots, in whole blocks, if and only if these stay below the last block of 4 GB |
| SafeUpgrade.RoomSufficesIff | src/rtk_imgdesc.cpp:1987-1999 | what passes the safe-upgrade space check fits between bottom and top without wrap-around, if and only if the boot area does not begin behind the low half and a factory section |
| SafeUpgrade.StacksSound | src/rtk_imgdesc.cpp:1494-1599 | the sixteen regions that an accepted upgrade places are disjoint and inside the half that it writes |
| SafeUpgrade.UpgradeSound | src/rtk_imgdesc.cpp:1494-1599 | and if nothing is left without a place, these are all firmware and partitions |
| SafeUpgrade.InsideIff | src/rtk_imgdesc.cpp:1552-1599 | from zero offsets, and with a half that does not begin at 0, all firmware and partitions lie in the half if and only if nothing is left without a place |
| SafeUpgrade.AllPlacedIff | src/rtk_imgdesc.cpp:1142-1170 | which sizes before the layout that means |
| SafeUpgrade.HalfSoundIff | src/rtk_imgdesc.cpp:1942-1999 | with a flash not near 2^64, an upgrade that passes fills its half from both ends without wrap-around if and only if its total has not wrapped |
| SafeUpgrade.WrapAccepted | src/rtk_imgdesc.cpp:1942-1999 | on any board, in either half, a partition that brings the total to 2^64 passes and does not fit |
| SafeUpgrade.WorkingClearIff | src/rtk_imgdesc.cpp:1502-1516 | the protected part lies clear of the written half, for the high half if and only if the boot area ends in the low one |
| SafeUpgrade.WorkingIsOtherHalfIff | src/rtk_imgdesc.cpp:1502-1518 | the protected part is the half that the next upgrade will write, from end to end, if and only if that has its ends in order |
| SafeUpgrade.AllSpareIff | src/rtk_imgdesc.cpp:1494-1599 | addresses are left alone by every accepted upgrade of a board that has a place for all it installs if and only if they lie outside the half |
| SafeUpgrade.FactorySafeIff | src/rtk_imgdesc.cpp:1484-1514 | no such upgrade writes the factory section if and only if it lies outside the half |
| SafeUpgrade.BootSafeIff | src/rtk_imgdesc.cpp:1490-1514 | by such upgrades the boot area is always spared in the low half, and in the high half if and only if it ends before the middle |
| SafeUpgrade.BootSparedIff | src/rtk_tagflow.cpp:394-480 | an upgrade from zero offsets spares the boot area if and only if nothing is left without a place |
| SafeUpgrade.FactoryOverwritten | src/rtk_parameter.cpp:91-95 | with the factory area of the SPI parameters in two slots, an accepted upgrade that puts a partition over the factory section |
| SafeUpgrade.BootOverwritten | src/rtk_imgdesc.cpp:1510-1516 | with a boot area of 9 MB in 16, an accepted upgrade that puts a partition over it |
| SafeUpgrade.PreviousImageKept | src/rtk_imgdesc.cpp:1496-1522 | over every run of upgrades with a place for all they install, none touches firmware or partitions of the one before; and if boot area and factory section stay as they were, it protects all of them |
| SafeUpgrade.PreviousImageKeptIff | src/rtk_imgdesc.cpp:1552-1599 | an upgrade of the same kinds, from zero offsets, leaves the image before untouched if and only if that has a place for all it installs |
| SafeUpgrade.DataOverwritten | src/rtk_tagflow.cpp:433-450 | a run of two accepted upgrades whose data partitions lie over the boot area and over each other |
| MbrChain.Emmc.CountPartitions | src/rtk_boottable.cpp:112-121 | sectors and number of the partitions, independent of the order in which they are listed |
| MbrChain.Emmc.AddPartition | src/rtk_boottable.cpp:138-271 | one round of the table loop keeps the tables equal to what the first i partitions call for |
| MbrChain.Emmc.NextStart | src/rtk_boottable.cpp:193-209 | the three expressions for the next start give the same position, the true one |
| MbrChain.Emmc.WriteBoottable | src/rtk_boottable.cpp:97-310 | failure exactly when no sector is left for firmware, and then nothing changes; else the tables on the medium and all device numbers, and no sector but 0 and the first one of each logical region differs from before |
| MbrChain.Emmc.BuildTables | src/rtk_boottable.cpp:138-273 | for up to ten partitions the eight tables are what the plan calls for, sealed as far as the chain reaches |
| MbrChain.ChainFitsIff | src/rtk_boottable.cpp:100 | the chain fits the declared tables if and only if there are at most ten partitions |
| MbrChain.Emmc.WriteBackStopsIff | src/rtk_boottable.cpp:296-311 | of those, the write-back finds a table without signature if and only if there are at most nine |
| MbrChain.Emmc.WriteChain | src/rtk_boottable.cpp:296-311 | the write-back loop puts each table at its region's first sector, stops after the last, and leaves every other sector of the medium as it was |
| MbrChain.NumberedAt | src/rtk_boottable.cpp:211-268 | every listed partition has the device number of its position, and no other number changes |
| MbrDecode.DecodeChain | src/rtk_boottable.cpp:138-273 | decoding the chain gives one partition per list entry, in order, with device number, start and length |
| MbrDecode.FaithfulIffLong | src/rtk_boottable.cpp:185-189 | what is decoded is non-empty and inside its region for all entries if and only if all are longer than the reserve |
| MbrDecode.FoundApart | src/rtk_boottable.cpp:138-273 | partitions so found do not overlap and come in list order |
| MbrDecode.ExtendedCoversRest | src/rtk_boottable.cpp:156-209 | the extended partition is exactly the regions from the fourth on up to the last sector, each link spans exactly the next region, and the other slots of a link record are empty |
| BurnPosition.BurnOffset | src/rtk_burn.cpp:1582-1601 | the burner adds the reserve exactly for the partitions that are logical in the tables |
| BurnPosition.PositionsAgree | src/rtk_imgdesc.cpp:1765-1817 | layout offsets and table sectors name the same bytes if and only if all sizes are whole sectors |
| BurnPosition.RawAllocationFitsIff | src/rtk_imgdesc.cpp:1073-1077 | a raw image and its reserve fit the allocation if and only if the minimum size does not wrap, and the 32-bit sum does not or the minimum size covers it |
| BurnPosition.ImageInPartition | src/rtk_burn.cpp:1582-1617 | the image starts on the decoded partition, ends inside it, and overlaps no boot record |
| BurnPosition.RecordClear | src/rtk_boottable.cpp:298-305 | no boot record is written into partition data |
| BurnPosition.DataKept | src/rtk_boottable.cpp:296-311 | a table write changes no sector of any partition's data, and none between sector 0 and the first region |
| BurnPosition.InstalledPartitions | src/rtk_boottable.cpp:108-305 | after a sound layout and the table write a reader finds every partition where the layout put it |
| EmmcInstall.TablesInstalled | src/rtk_boottable.cpp:211-305 | the same for the allocations, list and device numbers as the table writer numbers them |
| EmmcInstall.InstallEmmc | src/rtk_boottable.cpp:97-310 | end to end: layout and tables in turn succeed exactly when the check passes, and then every reader finds every partition at its place, in full length and under its recorded device number, and no sector of a partition or of the firmware area has changed; on failure none at all |
| TarHeader.OctalStringToInt | src/rtk_common.cpp:340-353 | the octal value mod 2^32, other characters counting as zero |
| TarHeader.OctalRoundTrip | src/rtk_common.cpp:340-353 | reading octal digits gives back the number written |
| TarHeader.OneCharacter | src/rtk_common.cpp:340-353 | one character counts as its digit, 8 and 9 too, and any other as zero |
| TarHeader.FactoryTarChecksum | src/rtk_factory.cpp:314-329 | the byte sum with the checksum field taken as eight spaces |
| TarHeader.HeaderSumIsSpaced | src/rtk_factory.cpp:314-329 | it is the plain byte sum of the header with eight spaces in the field |
| TarHeader.FactoryTarFillChecksum | src/rtk_factory.cpp:331-339 | six octal digits, a zero and a space in the field, all other bytes kept |
| TarHeader.ChecksumRoundTrip | src/rtk_factory.cpp:314-339 | every sum fits six digits, filling does not change it, and the field reads back as it |
| TarHeader.ChecksumIgnoresField | src/rtk_factory.cpp:314-329 | the sum does not depend on what the field held |
| FactoryLog.FactoryStore.FindLatestUpdate | src/rtk_factory.cpp:80-151 | selects the slot by validity and sequence numbers, for any size field; number and size stay when no slot is valid |
| FactoryLog.NewerIff | src/rtk_factory.cpp:130-144 | for which gaps on the 32-bit circle the newer slot is picked |
| FactoryLog.StampedFields | src/rtk_factory.cpp:341-358 | the built header has number, size, signature and a right checksum in their fields and is the archive's first block everywhere else |
| FactoryLog.MarkText | src/rtk_factory.cpp:80-107 | what a header of ours begins with and is signed by, in characters |
| FactoryLog.FactoryStore.Prepare | src/rtk_factory.cpp:341-424 | the file is the archive between two copies of such a header, the number is used up, and the slot is toggled and the size kept exactly when the file fits the slot |
| FactoryLog.FactoryStore.Flush | src/rtk_factory.cpp:360-453 | one flush is one step of the state machine |
| FactoryLog.FactoryStore.InterruptedFlush | src/rtk_factory.cpp:426-447 | a power cut after any number of blocks, and the restart after it, is one step of the state machine |
| FactoryLog.FactoryStore.FailedFlush | src/rtk_factory.cpp:417-452 | a failing write leaves its first blocks, the used number and the switched slot |
| FactoryLog.TornWriteValidIff | src/rtk_factory.cpp:97-107 | a partly written slot is accepted if and only if the block at its commit mark already equalled the header |
| FactoryLog.NoStaleMark | src/rtk_factory.cpp:341-358 | while fewer than 2^32 numbers are in use, the place of the next commit mark never holds it already |
| FactoryLog.WholeWriteValid | src/rtk_factory.cpp:341-358 | a complete write is accepted and holds the archive: number, size, a header with a right checksum and the archive's other fields, and the other blocks |
| FactoryLog.OtherSlotKept | src/rtk_factory.cpp:417-424 | a write leaves the other slot's validity, header and payload alone |
| FactoryLog.OversizeStep | src/rtk_factory.cpp:412-415 | a too large archive changes nothing but uses up a number |
| FactoryLog.StepKept | src/rtk_factory.cpp:80-451 | every step, cuts after any number of blocks included, keeps: the current slot is valid, holds the last complete archive under a right header, and is 1 to 15 ahead of the other |
| FactoryLog.StepSpent | src/rtk_factory.cpp:80-451 | every step uses at most one number, and all stale marks stay that far behind the current slot |
| FactoryLog.BlankStart | src/rtk_factory.cpp:80-151 | an area without our headers is a start for both, with no current slot and number 0 |
| FactoryLog.CrashSafe | src/rtk_factory.cpp:80-451 | over every run of flushes, refused archives, cuts and restarts that uses fewer than 2^32 numbers, a restart finds a valid slot with the last complete archive, its header checksum right |
| FactoryLog.RestartAfterFailure | src/rtk_factory.cpp:417-452 | a restart after a failed write is a restart after a power cut |
| FactoryLog.FailureExposesGoodSlot | src/rtk_factory.cpp:417-452 | a flush after a failed write goes to the good slot, and cut short it leaves no valid slot |
| FactoryLog.DoubleFlush | src/rtk_boottable.cpp:770-781 | two flushes leave both slots valid with the two archives, and the current slot where it was |
| FactoryLog.FactoryStore.FlushPingPongFactoryMac | src/rtk_burn.cpp:3272-3311 | when it succeeds, that slot 0 is current at the end, and that both slots hold the last two archives |
| Lfsr.FeedIsRemainder | src/rtk_common.cpp:1491-1572 | after any bit string the register is the message times x^n mod the generator |
| Lfsr.RegisterIffRemainder | src/rtk_common.cpp:1491-1572 | and it is the only such remainder |
| Lfsr.FeedLinear | src/rtk_common.cpp:1491-1572 | the register is linear over GF(2) in the message |
| Lfsr.ZeroRegisterIffDivisible | src/rtk_common.cpp:1491-1572 | the register ends at zero if and only if the generator divides the message |
| Lfsr.CodewordClears | src/rtk_common.cpp:1574-1606 | data followed by its register drives the register to zero |
| Lfsr.OnlyFlushClears | src/rtk_common.cpp:1574-1606 | no other check bits of that length do |
| Lfsr.BurstDetected | src/rtk_common.cpp:1482-1572 | every non-zero error burst of at most the register's length in a codeword leaves a non-zero remainder |
| NandEcc.GenPolyIsGenerator | src/rtk_common.cpp:1482 | the table's polynomial has degree 78 and constant term 1; its roots are in `NandBch.GeneratorRoot` |
| NandBch.GeneratorRoot | src/rtk_common.cpp:1482 | a, a^2, .., a^12 are roots of the table's polynomial, in the field of x^13 + x^4 + x^3 + x + 1 |
| NandBch.OrderOfA | src/rtk_common.cpp:1482 | the powers of a repeat after 8191 |
| Bch.OrderPrime | src/rtk_common.cpp:1482 | and not before, as 8191 is prime |
| Bch.RootDoubles | src/rtk_common.cpp:1482 | with each root of a polynomial its square is a root |
| Bch.RootsApart | src/rtk_common.cpp:1491-1572 | a polynomial below the order with the roots a, .., a^top has more than top terms, for every register of an element of that order |
| NandBch.WordsApart | src/rtk_common.cpp:1574-1606 | two words of up to 8191 bits that the generator divides are equal or differ in thirteen bits or more |
| NandBch.TwelveBitsDetected | src/rtk_common.cpp:1574-1606 | any one to twelve wrong bits of a sealed unit are detected |
| NandBch.SixBitsCorrectable | src/rtk_common.cpp:1574-1606 | two sealed units that up to six wrong bits each make equal have the same data, tag and check bits |
| NandEcc.Encoder.Stage | src/rtk_common.cpp:1495-1501 | one unrolled stage is one clock of the bit-serial register |
| NandEcc.Encoder.EncodeEccByte | src/rtk_common.cpp:1491-1572 | the eight stages with packing and unpacking are eight clocks, top bit first |
| NandEcc.Encoder.PackSyndromes | src/rtk_common.cpp:1561-1565 | six 13-bit words hold the 78 register bits |
| NandEcc.Encoder.UnpackSyndromes | src/rtk_common.cpp:1567-1569 | and give them back |
| NandEcc.Encoder.Gen10BytesEcc | src/rtk_common.cpp:1574-1606 | the ten bytes are the register of the 518 bytes before them, or-ed into what was there; the data is kept |
| NandEcc.Encoder.SealUnit | src/rtk_common.cpp:1574-1606 | with clear check bytes the unit is sealed by exactly its register |
| NandEcc.SealedIffCodeword | src/rtk_common.cpp:1574-1606 | a unit is sealed if and only if the generator divides its 4222 bits and the last two bits are zero |
| NandEcc.KnownCheckBytes | src/rtk_common.cpp:1574-1606 | one unit in numbers: 517 zero bytes and 0x01 are sealed by exactly these ten bytes |
| NandEcc.SealedBurstDetected | src/rtk_common.cpp:1574-1606 | any burst of at most 78 bits in a sealed unit is detected |
| VirtualNand.TagNumbersPage | src/rtk_common.cpp:1712-1721 | mode 2 tags are equal if and only if the page numbers are equal mod 65536 |
| VirtualNand.UnitTags | src/rtk_common.cpp:1702-1745 | for every unit of a tagged image: which carry the indicator in each mode, which tag bytes are blank or zero, and that mode 2 numbers the pages from 0 |
| VirtualNand.EmitUnit | src/rtk_common.cpp:1696-1760 | a unit is 512 bytes of the page, the tag, and check bytes that seal it |
| VirtualNand.ReadPage | src/rtk_common.cpp:1652-1694 | the page buffer is the image from there on, padded with 0xff |
| VirtualNand.FdToFdVirtNand | src/rtk_common.cpp:1609-1783 | bytes taken, whole pages of sealed and tagged units, and the failing mode, for every image and page size |
| VirtualNand.StripRoundTrip | src/rtk_common.cpp:1696-1760 | taking out the spare bytes gives the image back, then only 0xff |
| VirtualNand.BytesLand | src/rtk_common.cpp:1823 | byte d of the image lies at d / 512 * 528 + d % 512 |
| VirtualNand.OffsetExactIff | src/rtk_common.cpp:1823 | the 32-bit file position is the true one if and only if the flash offset is below 0xF83E1000 |
| VirtualNand.VirtualNandFile.WriteImage | src/rtk_common.cpp:1785-1845 | success exactly when it should; then the file holds sealed and tagged units, every image byte is at its place, and no other flash byte has changed |
| VirtualNand.FdToFdYaffsToVirtNand | src/rtk_common.cpp:1847-2006 | one page per whole record of the source, nothing for a partial one |
| VirtualNand.YaffsRoundTrip | src/rtk_common.cpp:1939-1968 | page data and the first four spare bytes per unit come back |
| VirtualNand.YaffsMarks | src/rtk_common.cpp:1949-1968 | the first unit of a page has the mark of a good block, and unused tag bytes are zero |
| VirtualNand.YaffsForgetsRest | src/rtk_common.cpp:1939-1968 | and two records give the same page if and only if they agree on those |
| FwDesc.GetChecksum | src/rtk_common.cpp:39-49 | the byte sum mod 2^32 |
| FwDesc.FwHeader.SumEntries | src/rtk_fwdesc.cpp:499-511 | the two accumulation loops give the sum of both lists mod 2^32, for signed and unsigned entries |
| FwDesc.FwHeader.SaveFwdesc | src/rtk_fwdesc.cpp:481-562 | the stored checksum is the sum of everything behind it in the written image; header fields otherwise kept |
| FwDesc.FwHeader.SaveFwdescEmmc | src/rtk_fwdesc.cpp:603-712 | the same, and the length field covers the image behind the checksum in whole erase blocks |
| FwDesc.SumOkIff | src/rtk_fwdesc.cpp:499-515 | the image checks if and only if the field is the exact sum mod 2^32 |
| FwDesc.TableFields | src/rtk_fwdesc.cpp:526-540 | signature, checksum, version and the three lengths are found in their places of the written header |
| FwDesc.EntriesReadBack | src/rtk_fwdesc.cpp:526-562 | with the lengths in the header every entry is found again, and the image has that size |
| FwDesc.RedirectedFields | src/rtk_burn.cpp:1799-1804 | the overwritten fields read back as the copy's, and all other bytes are kept |
| FwDesc.RescuedFields | src/rtk_burn.cpp:1779-1804 | kernel, rescue device tree and rescue root file system point at their own copies, if those are not empty; all other entries stay |
| FwDesc.FwHeader.Redirect | src/rtk_burn.cpp:1795-1808 | subtracting the old entry and adding the new keeps the checksum in step with the list |
| FwDesc.FwHeader.RescueFwdesc | src/rtk_burn.cpp:1771-1846 | which entries change and how; from a valid table the rescue image is valid if and only if no signature bytes were left out |
| FwDesc.RescueLengthIff | src/rtk_burn.cpp:1824-1846 | the list length of the rescue header is right if and only if the system is unsigned or has no entries |
| TarWalk.NextOffsetExactIff | src/rtk_tar.cpp:193-195 | the 32-bit step, wrap for size 0 included, is the true one if and only if size and sum stay in 32 bits |
| TarWalk.AcceptedText | src/rtk_tar.cpp:144-197 | the magic of an accepted header, in characters |
| TarWalk.StuckIff | src/rtk_tar.cpp:193-195 | for which sizes the walk does not move |
| TarWalk.WalkEndsIff | src/rtk_tar.cpp:144-197 | the walk ends if and only if no chain of steps gets to an offset twice |
| TarWalk.StuckNeverEnds | src/rtk_tar.cpp:144-197 | with such a first header no finite walk exists |
| TarWalk.WalkUnique | src/rtk_tar.cpp:144-197 | a file has at most one walk |
| TarWalk.Walker.ParseTar | src/rtk_tar.cpp:106-215 | visits exactly the walk, keeps the first 50 headers with their offsets, and fails on no header |
| TarWalk.WalkVisits | src/rtk_tar.cpp:144-197 | the walk over any archive is its members' headers in order, as far as seeking works |
| TarWalk.AllVisitedIff | src/rtk_tar.cpp:76-81 | all members are visited if and only if the last one starts below 2^31 |
| TarWalk.ExtractFile | src/rtk_burn.cpp:4222-4298 | the slice behind the header, or failure, decided exactly |
| TarWalk.WalkAndExtract | src/rtk_burn.cpp:4222-4298 | any visited member with contents below the seek limit comes out as its payload; others fail |
| BootCode.SetSystemParam | src/rtk_parameter.cpp:37-74 | the boot code area ends where the factory area starts, which is far enough if and only if erase blocks are at most 128 MB |
| BootCode.ReservationFitsIff | src/rtk_parameter.cpp:64-73 | the worst case of all eight copies ends below the factory area if and only if erase blocks are at most 128 MB |
| BootCode.ReservationExact | src/rtk_parameter.cpp:64-73 | for such blocks the reservation is six fifths of its parts in whole blocks, with no wrap in between |
| BootCode.BootNand.BurnPart | src/rtk_burn.cpp:3397-3460 | four disjoint copies read back, with erased bytes behind each in its blocks, only their blocks change, and success is decided exactly |
| BootCode.BootNand.BurnBootcode | src/rtk_burn.cpp:3462-3511 | success is decided exactly, and then all eight copies read back with erased bytes behind them; parts of allowed size never reach the factory area, even on failure |
| PartTable.CopiedName | src/rtk_boottable.cpp:1053 | image names up to 31 characters arrive; longer ones run on into the previous entry's |
| PartTable.BootTable.GetIndexByPartName | src/rtk_boottable.cpp:974-985 | the first entry of that name, or that there is none |
| PartTable.BootTable.RemovePartByPartName | src/rtk_boottable.cpp:987-1022 | terminates and leaves exactly the multiset of entries with other names |
| PartTable.BootTable.AddPart | src/rtk_boottable.cpp:1029-1064 | one more entry with its strings cut to their buffers; earlier entries kept |
| PartTable.BootTable.ReplacePart | src/rtk_boottable.cpp:987-1048 | removing and adding leaves the entries of other names and one entry of the name with the given fields, on a full list too if it held the name; except for names too long to be found |
| RingList.InsertBetween | ion/list.h:79-87 | a ring with the node inserted between two neighbours |
| RingList.ListAdd | ion/list.h:97-100 | the node comes right after the head |
| RingList.ListAddTail | ion/list.h:110-113 | the node comes last |
| RingList.Unlink | ion/list.h:123-127 | a ring without the node, whose own links are kept |
| RingList.ListDel | ion/list.h:135-140 | the others form a ring and the node points nowhere |
| RingList.ListDelInit | ion/list.h:148-152 | the others form a ring and the node is one by itself |
| RingList.ListMoveWithin | ion/list.h:159-163 | moving to the front of its own ring |
| RingList.ListMoveAcross | ion/list.h:159-163 | moving to the front of another ring |
| RingList.ListMoveTailWithin | ion/list.h:170-175 | moving to the end of its own ring |
| RingList.ListMoveTailAcross | ion/list.h:170-175 | moving to the end of another ring |
| RingList.ListEmpty | ion/list.h:181-184 | whether the head is alone in its ring |
| RingList.ListSplice | ion/list.h:186-209 | the other list's entries, in order, right after the head |
| RingList.ListSpliceInit | ion/list.h:218-225 | the same, and the emptied list is a ring of its own |
| RingList.RingUnique | ion/list.h:58-62 | the pointers determine the order of a ring |
| RingList.RingRotates | ion/list.h:58-62 | a ring may be read from any of its nodes |
| RingList.PprevPointsHere | ion/list.h:396-403 | what a node's back pointer refers to is the node |
| RingList.HListDel | ion/list.h:405-410 | the chain without the node, whose links are poisoned |
| RingList.HListDelInit | ion/list.h:413-419 | the same with cleared links; an unhashed node is left alone |
| RingList.HListAddHead | ion/list.h:421-429 | the node in front of the chain |
| RingList.HListAddBefore | ion/list.h:434-441 | the node right before another |
| RingList.HListAddAfter | ion/list.h:443-452 | the second node right after the first |
| Efuse.Otp.JudgeBit | efuse/rtk_efuse.c:118-131 | the masked and shifted word gives the fuse asked for |
| Efuse.CommandNamesTarget | efuse/rtk_efuse.c:171-196 | the register value names fuse number mod 4096 and keeps its upper bits |
| Efuse.SourceByte | efuse/rtk_efuse.c:229-270 | source bits 8 b to 8 b + 7 are byte b, lowest first |
| Efuse.Otp.ProgramStart | efuse/rtk_efuse.c:156-227 | for any hardware: at most one fuse changes and only to on, four burns and 132 polls at most, and when it succeeds, below fuse 4096 and from there on |
| Efuse.Otp.StartProgram | efuse/rtk_efuse.c:229-270 | on success all source bits are set, those from fuse 4096 on were before, and exactly these are added if the fuses burnt in their place are set or source bits and, when burns take, only then; with working hardware it succeeds exactly if those were set before; in any case no fuse is cleared or set without a source bit |
| Efuse.ProgrammedTooMuch | efuse/rtk_efuse.c:171-196 | a burnt fuse that is not covered is one too many |

## Left out

- Shell commands, device nodes, ioctl, select timeouts, progress bars and messages; `dd`, `tar`, `flash_erase` and `nandwrite` are the writes they perform.
- Build variants NFLASH_LAOUT, NAS_ENABLE (except the rescue table), TEE_ENABLE, HYPERVISOR, RESERVED_AREA and GENERIC_LINUX, the SATA layout and `partition_inverse`: other constants and special placements.
- eMMC with `backup == 1`, and partitions named "logo" or "uboot", which override offsets of other images.
- The eMMC record of the boot code itself: its size is the end of the reservation, not its length.
- LayoutSound.NandSound: the 32-bit sums of the reservations do not wrap, and the boot code size is the factory start, as src/rtk_parameter.cpp:125-128 produces it.
- LayoutSound.EmmcSound: the same conditions.
- BurnPosition.InstalledPartitions: the flash and all partitions are whole sectors and longer than the reserve, the exact condition of `BurnPosition.PositionsAgree` and `MbrDecode.FaithfulIffLong`.
- EmmcInstall.InstallEmmc: the same condition for what is found, and that of `LayoutSound.EmmcSound` for success; at most nine partitions, each with space listed once and no gap in the list, sector counts in 32 bits, and no type that the branch does not know at 2^58 bytes or more.
- SafeUpgrade.UpgradeSound: the flash has at least one erase block, the boot area begins where the space check means something, exactly as `SafeUpgrade.RoomSufficesIff` says, and the total has not wrapped, exactly as `SafeUpgrade.HalfSoundIff` says.
- SafeUpgrade.ReserveNor: what check_spi_bootcode_size reads from the boot loader archive is a parameter, as are its answer and the rescue area that it leaves.
- SafeUpgrade.PreviousImageKept: runs are of completed upgrades, since the working part is recorded after the burn; the erase size and the flash stay the same. Firmware and partitions are the types up to FW_USR_LOCAL_ETC; the branch gives no space to the types behind them, except its reservations.
- SafeUpgrade.LayoutSsu: the NOR branch without safe upgrade.
- FlashLayout.Layout.FillInstallAvCount: the image sizes, which it clears too, are not read by the layout afterwards and stay as they are.
- FlashLayout.Layout.PlaceTopDown: a list without any partition, on which the code reads the entry behind its image table.
- MbrChain.Emmc.WriteBoottable: at most nine partitions. With ten the write-back reads behind the eight tables, which leaves the result to what lies there; with eleven to fourteen the tables are written behind their array too. Sector counts fit 32 bits; failing table writes and the unused head and cylinder bytes are not modelled.
- FactoryLog.CrashSafe: archives begin with the factory directory and hold no stamped header behind it, at most 14 oversize flushes pass between two writes of a session, and fewer than 2^32 numbers are used. At first no header points its commit mark outside its slot and no stale mark is ahead of the current slot, which `FactoryLog.BlankStart` gives for an area without headers. Storage writes 512-byte blocks in order. Sessions that go on after a failed write are no part of the runs: `FactoryLog.FailureExposesGoodSlot` shows what they lose.
- FactoryLog.FactoryStore.FindLatestUpdate: a commit mark that would be read behind both slots counts as absent; `current_pp` is taken as signed.
- TarHeader.OctalStringToInt: bytes are compared as unsigned, which agrees with signed characters for digits.
- VirtualNand.FdToFdVirtNand: regular files, so that a read is short only at the end of the file; `install_fail` prints and goes on, so a page size below 512 reads nothing.
- The decoder of the NAND code, which is hardware: `NandBch.SixBitsCorrectable` says what it can do at best.
- FwDesc.FwHeader.SaveFwdesc: tables are written in little-endian byte order, and the flash commands after the file is written are left out; loading a table swaps bytes and is no inverse of saving.
- FwDesc.FwHeader.RescueFwdesc: the checksum is read as the 32-bit field it is; the boot loader's own reading of the table is not part of the source.
- TarWalk.Walker.ParseTar: files on which the walk does not end are excluded, as the loop does not return on them; matching names against the image tables is represented by the list of visited offsets.
- BootCode.SetSystemParam: only the NAND branch; 1.2 times the reservation is the floor of six fifths, with which the rounded product of the code agrees below 2^32.
- BootCode.BootNand.BurnPart: the out-of-band bytes and the optional read-back check are left out.
- PartTable.BootTable.AddPart: a full list of 20 entries is the caller's error, as in the code, which writes behind the list; the file system name lookup is a parameter.
- Efuse.Otp.StartProgram: reading a fuse is exact and addresses stay inside the register window; secure hardware calls and key files are left out.
- RingList.ListMoveWithin: `list_move` of a list's own head is the caller's error and not modelled, and so are the iteration macros.
- Network installation, which retries for ever, the layout text file, file comparison by sums, checksums by hash, and the user interface.
