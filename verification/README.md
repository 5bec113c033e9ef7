# Firmware storage, timer and table code: a verified model

This project models the parts of the firmware package that carry state, loops or bounded arithmetic, and
proves what they keep over every input, every run and every device behaviour. Nothing here runs the
firmware; the statements below are about the model, which follows the code branch by branch.

`dafny verify dfyconfig.toml` checks the whole project.

## What is modelled

**NOR storage (`Bytes`, `Nor`, `SpiAccess`, `BlockMap`, `FvbAttributes`, `FvbVolume`, `FvbDriver`,
`FvbHeader`, `FvbInit`, `FvbBoot`, `SpiFlash`, `BiosWriter`).** One notion of NOR flash carries two
independent stacks: erasing a 4 KiB sector sets its bytes to 0xFF, programming ANDs bytes in, and any
command may fail and leave what it addressed in any state. What the environment does is a function from a
command counter to an event, so every statement holds for all environments.

* The firmware volume block driver is a class over the shared flash. Its main theorem,
  `FvbDriver.FvbDriver.RunCalls`, says that any sequence of protocol calls on any set of disjoint,
  well-formed volumes refines a run over independent arrays of blocks (`FvbVolume.Run`), the replies
  included, on a part that does not fail. Whatever fails, attribute words follow that run, blocks that no
  call names keep their contents, and flash outside the volumes never changes. What the abstract run
  promises is proved in `FvbVolume` and `FvbAttributes`: erase-write-read returns the data, blocks that no
  call names keep their contents, a locked volume stays locked.
* Address translation is proved against an independent reading of the block map, the list of all its
  blocks, and shown to tile the volume.
* Initialisation lays down a packed buffer of variable-length records. The second pass, which repairs
  volumes while it runs, fills the buffer sized by the first pass exactly; the walk over the records' own
  header lengths finds each of them; repaired headers validate. `FvbBoot.Boot` goes from the flash, the
  hand-off blocks and the package's own table to a driver that the run theorem applies to.
* The flash updater works through the SPI controller's registers. On every exit there is a sector boundary
  up to which the region equals the image and behind which, one sector apart, nothing changed. Whether a
  fault-free write of a sector succeeds is decided exactly.
* The BIOS writer's "Done" message implies that flash equals the file, also after an abort of the updater.

**Timers (`AcpiTimer`, `HpetStall`).** A counter is the finite sequence of tick totals that successive
polls would see; the code reads them modulo 2^24 or 2^32. A run that ends inside a wait has not returned.
Both exit tests are characterised exactly, then lower bounds, upper bounds and termination follow.

**Tables and images (`SataRom`, `Madt`).** The option ROM patch is proved to keep the byte sum and to
forget earlier patches. The MADT builder is proved from the processor reports to the bytes of the table.

**Ranges and routing (`Mtrr`, `IrqRouting`).** The MTRR table covers exactly the ranges that found an
entry. The routing table and the single-pin translation, written separately, agree on every pin.

## Where the code differs from what it says or promises

The model follows the code in each case.

* `FvbWriteBlock` sets EFI_BAD_BUFFER_SIZE for a clipped write and then overwrites it with the program
  status. No write reports that it was clipped, and exactly the writes that start inside their block and
  reach behind its end store less than asked for and report success (`FvbVolume.ClippedWriteSucceeds`;
  `FvbVolume.ClippedWrite` is one).
* A read is clipped at the end of the run of equal-size blocks, a write at the end of one block.
* `SpiProgramBuffer` compares before the part is idle and only logs a difference, so the comparison has no
  effect in the model.
* The number of blocks counted at initialisation ignores block lengths, while the address walk stops at a
  zero length. The two agree if and only if no map entry in front of the zero count has length zero
  (`FvbHeader.CountMatchesWalk`, `FvbBoot.InstanceWellFormed`); `FvbBoot.EmptyEntryMiscounts` shows a map
  on which they differ.
* An erase request that is refused as invalid is promised to change nothing. The validation adds start and
  count in 64 bits, so a range whose sum wraps passes it, and the erase fails on that range after it has
  erased the ones in front (`FvbVolume.WrappedRequest`). Over all requests, a writable volume keeps the
  promise if and only if every block that can be erased is blank already (`FvbVolume.WrappedNeverValidates`).
  Over the requests in which no sum wraps, it does so if and only if that holds or every counted block
  exists and is a whole number of sectors (`FvbVolume.ValidatesExactly`; in terms of the header,
  `FvbBoot.ErasePromiseExactly`). `FvbBoot.EmptyEntryBreaksErase` shows a request without a wrapping sum
  that erases a block and is then refused.
* `ValidateFvHeader` accepts a header whose declared length is too short to contain the length field itself
  (`FvbInit.BareHeaderValidates`). Initialisation copies that many bytes into the record and then steps by
  the length it reads back from the record. What it reads back is the header's length, whatever the buffer
  held before, if and only if the header is at least 50 bytes long (`FvbInit.ReadsBackExactly`).
* The block counting loop stops at the first zero count wherever that lies. If there is none inside the
  header, the stored count is whatever the loop comes to behind it (`FvbInit.FvbGlobal.StoreRecord`).
* `_writeSector` takes a page of 0x000000FF dwords for blank. A fault-free sector write succeeds if and only
  if the buffer has no such page (`SpiFlash.WholeSectorVerdict`, `SpiFlash.SpiController.WriteSector`).
* `writeSpiFlash` returns TRUE after an abort. A TRUE comes with an unfinished region if and only if one of
  the keys polled in front of the region's sectors is an abort key (`SpiFlash.SpiController.WriteSpiFlash`).
* `MicroSecondDelay` and `NanoSecondDelay` cast the tick count to 32 bits. If the exact tick count fits, the
  delay is long enough. If it does not, a delay with polls at most 2^21 ticks apart ends too early. The
  request itself suffices if and only if the count fits (`AcpiTimer.RequestSuffices`); about twenty minutes
  do not (`AcpiTimer.TwentyMinutes`).
* The HPET stall with a wait of zero ticks never returns, and its acceptance window can be one tick wide
  (`HpetStall.DoneExactly`, `HpetStall.HpetCounter.Stall`).
* Patching an option ROM to the slow delay and then to the fast one gives what the fast patch alone gives,
  for every pair of delays, if and only if the image is steady (`SataRom.SteadyExactly`): the patched bytes
  miss the pointer to the PCI data structure, its length and its code type, and hit a byte of the image
  length only if no value of it makes the image too long. A length field that covers the structure is
  enough (`SataRom.CoveringIsSteady`); `SataRom.MisplacedChecksumLosesSecondPatch` shows an image on which
  the first patch makes the second one fail.
* The MTRR merge joins a range to the first touching entry only. Entries of one type stay apart if and only
  if the new range touches at most one of them (`Mtrr.MergeSeparates`; over whole sequences,
  `Mtrr.FoldSeparates`); `Mtrr.BridgeLeavesOverlap` shows two entries that cover the same address
  afterwards.
* The BIOS writer stores the result of reading the file's region word in one variable and tests another, so
  a failed read goes unnoticed; `BiosWriter.UnreadWordPasses` shows an image that passes because of it.
* The region that a BIOS region word names lies inside the chip if and only if its base field is at most
  one behind its limit field (`BiosWriter.RegionFitsExactly`). For other words the size wraps, and the check
  that adds base and size in 32 bits does not notice (`BiosWriter.GateIgnoresWrap`,
  `BiosWriter.WrappedRegionPasses`).

## Assumptions written as preconditions

* Machine widths: `UINTN` is 64 bits. Offset plus size of a read or write do not wrap (no buffer is that
  long), and the ranges of an erase are pairs of a 64-bit start other than the terminator and a 32-bit
  count; a volume is smaller than 4 GiB, so that the 32-bit product in the address walk does not wrap; HOB
  ranges given to the MTRR code end below 2^64.
* Volumes handed to the driver lie in the flash, do not overlap, have a terminated block map, and their
  blocks of whole sectors start at sector boundaries; other blocks and a stored block count that exceeds
  the map are allowed (`FvbDriver.WellFormed`, `FvbDriver.Apart`). The hand-off blocks of flash volumes are
  disjoint and long enough for what initialisation reads and repairs (`FvbInit.Placed`,
  `FvbInit.HobsApart`). Laying down records needs headers that contain their own length field
  (`FvbInit.HobOk`), serving them needs a zero count inside the header (`FvbBoot.Serviceable`).
* The region word of the chip has its base in order (`BiosWriter.BaseInOrder`) when the write is modelled.
* Flash images of the updater are at most 16 MiB, and an option ROM holds at least its 26-byte header.
* APIC ids are below 0x80 and there are 1 to 64 processors. PIRQ table values are below 16 or at least 0x80,
  with the first one below 16; PCI functions have device numbers below 32, and the distinct devices fit
  below offset 0xE00.

## Model

| member | source | states |
|---|---|---|
| SpiAccess.SectorsErase | Platform/FvbServicesRuntimeDxe/FWBlockService.c:166-235 | bad arguments change nothing; success blanks exactly the addressed bytes; it is reported exactly if no command failed, and then the part is idle; any failure leaves a prefix of blank sectors, one sector in doubt and everything else unchanged |
| SpiAccess.ProgramBuffer | Platform/FvbServicesRuntimeDxe/FWBlockService.c:238-283 | success ANDs the data into exactly the addressed bytes, it is reported exactly if no command failed, and then the part is idle; failure can only damage those, and a fault-free part succeeds |
| Nor.ErasedBytes | Platform/FvbServicesRuntimeDxe/FWBlockService.c:185-233 | byte by byte, what an erase that stopped leaves: blank sectors, one doubtful one, the rest as before |
| BlockMap.LocateIsTiling | Platform/FvbServicesRuntimeDxe/FWBlockService.c:535-567 | the map walk succeeds exactly for the LBAs of the expanded map and finds the sum of the preceding lengths, the block's length and how many blocks its entry has left |
| BlockMap.LocatedBlocksTile | Platform/FvbServicesRuntimeDxe/FWBlockService.c:535-567 | the located intervals start at 0, are consecutive and disjoint, and a byte is inside the volume exactly when some block holds it |
| FvbAttributes.Masks | Platform/FvbServicesRuntimeDxe/FWBlockService.c:860-883 | the mask constants of the model are the unions of the attribute bits that the code forms |
| FvbAttributes.BitValues | Platform/FvbServicesRuntimeDxe/FWBlockService.c:866-885 | the attribute bits have the values of the PI Specification |
| FvbAttributes.ReadBit | Platform/FvbServicesRuntimeDxe/FWBlockService.c:639-641 | a volume is readable exactly if bit 2 of its word is set |
| FvbAttributes.WriteBit | Platform/FvbServicesRuntimeDxe/FWBlockService.c:724-726 | a volume is writable exactly if bit 5 of its word is set |
| FvbAttributes.LockBit | Platform/FvbServicesRuntimeDxe/FWBlockService.c:896-898 | a volume is locked exactly if bit 7 of its word is set |
| FvbAttributes.SetAttributes | Platform/FvbServicesRuntimeDxe/FWBlockService.c:848-946 | no request, accepted or not, moves a bit outside the read, write and lock status bits |
| FvbAttributes.AcceptedExactly | Platform/FvbServicesRuntimeDxe/FWBlockService.c:858-940 | a request succeeds if and only if its read-only bits match, its status respects the capability bits and it moves no status bit of a locked volume |
| FvbAttributes.DeniedExactly | Platform/FvbServicesRuntimeDxe/FWBlockService.c:889-898 | access is denied if and only if the read-only bits match but a locked volume would have to move a status bit |
| FvbAttributes.AcceptedWord | Platform/FvbServicesRuntimeDxe/FWBlockService.c:942-944 | an accepted request takes over the requested status and ends in a state that the capability bits allow |
| FvbAttributes.Outcome | Platform/FvbServicesRuntimeDxe/FWBlockService.c:858-944 | the verdict and the word after a request, on the read-only bits, the status bits and the lock, are one of three: taken over, denied, invalid |
| FvbAttributes.CapabilityBits | Platform/FvbServicesRuntimeDxe/FWBlockService.c:902-940 | which capability bit each status needs, by bit value |
| FvbAttributes.LockedWord | Platform/FvbServicesRuntimeDxe/FWBlockService.c:889-898 | no request changes the word of a locked volume |
| FvbAttributes.AttributesAfter | Platform/FvbServicesRuntimeDxe/FWBlockService.c:848-946 | over any run of requests only the three status bits move |
| FvbAttributes.RunRespectsCapabilities | Platform/FvbServicesRuntimeDxe/FWBlockService.c:899-944 | a run that has moved the word ends in a state that the capability bits allow |
| FvbAttributes.LockIsPermanent | Platform/FvbServicesRuntimeDxe/FWBlockService.c:889-898 | once the lock status is set at some point of a run, the word is constant for the rest of it |
| FvbVolume.ClippedWriteSucceeds | Platform/FvbServicesRuntimeDxe/FWBlockService.c:735-752 | no write reports a clipped size; success with fewer bytes than asked for is exactly a write that starts inside a block of a writable volume and reaches behind its end |
| FvbVolume.ClippedWrite | Platform/FvbServicesRuntimeDxe/FWBlockService.c:735-752 | a concrete write of two bytes of which one is stored and success is reported |
| FvbVolume.WriteRefused | Platform/FvbServicesRuntimeDxe/FWBlockService.c:703-742 | which writes are refused, with which status and count, and that none of them stores anything |
| FvbVolume.WriteStores | Platform/FvbServicesRuntimeDxe/FWBlockService.c:735-752 | a write succeeds if and only if it has data for a place inside a block of a writable volume; then the bytes that fit are ANDed in at the offset and every other byte is kept |
| FvbVolume.ReadRefused | Platform/FvbServicesRuntimeDxe/FWBlockService.c:615-642 | which reads are refused, with which status and count |
| FvbVolume.EraseAnswers | Platform/FvbServicesRuntimeDxe/FWBlockService.c:1080-1172 | an erase succeeds if and only if every range passes the validation and the list is empty or the volume is writable and every block can be erased; then exactly the listed blocks go blank; validation failures and denials change nothing |
| FvbVolume.EraseStops | Platform/FvbServicesRuntimeDxe/FWBlockService.c:1151-1171 | at the first block that cannot be erased the request fails as invalid, and exactly the blocks in front of it, in the order of the request, are blank |
| FvbVolume.AttributeReply | Platform/FvbServicesRuntimeDxe/FWBlockService.c:816-947 | a request to a volume touches the attribute word only; its status is decided exactly, and an accepted one takes over the requested status bits |
| FvbVolume.ValidatesExactly | Platform/FvbServicesRuntimeDxe/FWBlockService.c:1128-1171 | over the requests in which no start plus count wraps, a refused erase of a writable volume has changed nothing if and only if every counted block exists and is a whole number of sectors, or nothing is left to erase |
| FvbVolume.WrappedNeverValidates | Platform/FvbServicesRuntimeDxe/FWBlockService.c:1134-1171 | over all requests, a refused erase of a writable volume has changed nothing if and only if every block that can be erased is blank |
| FvbVolume.WrappedRequest | Platform/FvbServicesRuntimeDxe/FWBlockService.c:1134-1171 | a concrete request whose second range wraps: it passes the validation, erases a block and fails as invalid |
| FvbVolume.EraseWriteRead | Platform/FvbServicesRuntimeDxe/FWBlockService.c:571-814 | on a readable and writable volume, erasing a block of whole sectors, writing into it and reading the place back succeeds and returns the data written |
| FvbVolume.UntouchedBlock | Platform/FvbServicesRuntimeDxe/FWBlockService.c:659-814 | a block that no write or erase of a run names keeps its contents over the run |
| FvbVolume.LockedVolume | Platform/FvbServicesRuntimeDxe/FWBlockService.c:889-898 | no request of a run, to whichever volume, changes the attribute word of a locked volume |
| FvbDriver.WalkBlockMap | Platform/FvbServicesRuntimeDxe/FWBlockService.c:528-567 | the search loop with its 32-bit product finds what the map walk finds, in every map of less than 4 GiB |
| FvbDriver.FvbDriver.GetLbaAddress | Platform/FvbServicesRuntimeDxe/FWBlockService.c:478-568 | succeeds exactly below the total block count, with the block's address, its length and the blocks left in the same map entry |
| FvbDriver.FvbDriver.ReadBlock | Platform/FvbServicesRuntimeDxe/FWBlockService.c:571-657 | reads the flash bytes that are the abstract volume's consecutive blocks up to the end of the map entry, with the same status and count |
| FvbDriver.ReadServed | Platform/FvbServicesRuntimeDxe/FWBlockService.c:644-656 | a read answers with the flash bytes up to the end of the map entry: invalid behind it, clipped with EFI_BAD_BUFFER_SIZE across it, else all bytes asked for |
| FvbDriver.FvbDriver.WriteBlock | Platform/FvbServicesRuntimeDxe/FWBlockService.c:659-753 | without a device error it is the abstract write to one block; with one, only that block can be damaged |
| FvbDriver.FvbDriver.EraseBlock | Platform/FvbServicesRuntimeDxe/FWBlockService.c:755-814 | blanks exactly one block of a writable volume; a call for a block that does not exist or is not a whole number of sectors changes nothing, a failing one no other block |
| FvbDriver.FvbDriver.CheckRanges | Platform/FvbServicesRuntimeDxe/FWBlockService.c:1128-1145 | the first pass accepts exactly the lists whose every range is nonempty and has a 64-bit sum of start and count within the counted blocks |
| FvbDriver.FvbDriver.EraseRanges | Platform/FvbServicesRuntimeDxe/FWBlockService.c:1147-1171 | the second pass blanks exactly the blocks of the ranges up to the first one that does not exist or is not a whole number of sectors, and succeeds if and only if there is none; a failure in it damages no block outside the ranges |
| FvbDriver.FvbDriver.EraseBlocks | Platform/FvbServicesRuntimeDxe/FWBlockService.c:1080-1172 | one range that fails the validation leaves the flash unchanged and reports an invalid parameter; otherwise it is the abstract erase, for every request and every stored block count |
| FvbDriver.FvbDriver.SetVolumeAttributes | Platform/FvbServicesRuntimeDxe/FWBlockService.c:816-947 | changes the attribute word of one volume as the abstract request does and nothing else; the caller's copy follows only on success |
| FvbDriver.FvbDriver.Call | Platform/FvbServicesRuntimeDxe/FWBlockService.c:571-1172 | one protocol call on a fault-free part is one abstract step on one volume; on any part, other volumes, unnamed blocks and flash outside all volumes never change and the attribute word follows the step |
| FvbDriver.FvbDriver.RunCalls | Platform/FvbServicesRuntimeDxe/FWBlockService.c:478-1172 | any run of protocol calls refines the run over independent arrays of blocks, replies included; even if commands fail, attribute words follow that run, and blocks that no call names and flash outside the volumes keep their contents |
| FvbVolume.ContainedBlocks | Platform/FvbServicesRuntimeDxe/FWBlockService.c:659-814 | what the run theorem says of a single block on a part that may fail: not named, not changed |
| FvbDriver.OutsideBytes | Platform/FvbServicesRuntimeDxe/FWBlockService.c:478-814 | what it says of a single flash byte: in no volume, not changed |
| FvbHeader.ValidateFvHeader | Platform/FvbServicesRuntimeDxe/FWBlockService.c:1271-1326 | succeeds exactly if revision, signature and lengths are right and the header's 16-bit words sum to zero modulo 2^16 |
| FvbHeader.ValidExactly | Platform/FvbServicesRuntimeDxe/FWBlockService.c:1298-1325 | on the bytes: revision 2, signature _FVH, volume length not all ones, even header length, and a word sum of zero, are necessary and sufficient |
| FvbHeader.CorruptionIsRefused | Platform/FvbServicesRuntimeDxe/FWBlockService.c:1306-1325 | changing any one word of a valid header, other than its length, makes validation refuse it |
| FvbHeader.ChecksumBalances | Platform/FvbServicesRuntimeDxe/FWBlockService.c:1517-1523 | a header with its checksum recomputed sums to zero |
| FvbHeader.ChecksumOnly | Platform/FvbServicesRuntimeDxe/FWBlockService.c:1517-1523 | a recomputed header differs from the template in no byte but the checksum |
| FvbHeader.RepairedIsValid | Platform/FvbServicesRuntimeDxe/FWBlockService.c:1514-1523 | wherever a template with recomputed checksum lies in an image, validation accepts it there |
| FvbHeader.CountMatchesWalk | Platform/FvbServicesRuntimeDxe/FWBlockService.c:1556-1573 | the block count stored at initialisation is never below, and equals, the number of blocks the address walk reaches if and only if no entry has length zero |
| FvbHeader.TemplateOk | Platform/FvbServicesRuntimeDxe/FvbInfo.c:60-105 | the NV-storage template passes every header check except the checksum and its length field is its length |
| FvbHeader.TemplateMap | Platform/FvbServicesRuntimeDxe/FvbInfo.c:88-103 | the template's bytes read back as one run of equal blocks and the terminating entry |
| FvbInit.GetFvbInfo | Platform/FvbServicesRuntimeDxe/FvbInfo.c:107-123 | returns the header of the first table entry for the address, or nothing if there is none |
| FvbInit.LookupIsFirst | Platform/FvbServicesRuntimeDxe/FvbInfo.c:107-123 | the table is searched from the front |
| FvbInit.FindHeader | Platform/FvbServicesRuntimeDxe/FWBlockService.c:1435-1446 | the valid header in flash if there is one, else the table's template for the address |
| FvbInit.KeptHeader | Platform/FvbServicesRuntimeDxe/FWBlockService.c:1435-1446 | a valid header in flash is kept as the bytes it covers, any other volume gets the table entry or nothing |
| FvbInit.SizeBuffer | Platform/FvbServicesRuntimeDxe/FWBlockService.c:1413-1450 | the computed size is the total size of the records of all accepted hand-off blocks, whatever length their headers declare |
| FvbInit.ScanStops | Platform/FvbServicesRuntimeDxe/FWBlockService.c:1422-1428 | the scan ends at the first hand-off block whose address has no descriptor |
| FvbInit.ScanAppends | Platform/FvbServicesRuntimeDxe/FWBlockService.c:1430-1446 | each further block adds its record exactly if it lies in flash and has a header |
| FvbInit.ReadsBackExactly | Platform/FvbServicesRuntimeDxe/FWBlockService.c:1552-1553 | the length read back from a stored header is the header's for every earlier content of the buffer if and only if the header is at least 50 bytes long |
| FvbInit.BareHeaderValidates | Platform/FvbServicesRuntimeDxe/FWBlockService.c:1298-1325 | 64 bytes with only signature and revision set validate as a header of length zero, whose length cannot be read back |
| FvbInit.RepairVolume | Platform/FvbServicesRuntimeDxe/FWBlockService.c:1508-1546 | only the first block of the volume can change; if neither assertion behind the repair fires, the healthy header is in flash even on a faulty part; on a fault-free part none fires and the first block becomes the repaired block |
| FvbInit.VarStoreFields | Platform/FvbServicesRuntimeDxe/FWBlockService.c:1526-1527 | the variable store header has its GUID, the variable size less the header length, the formatted and healthy marks, and zeros |
| FvbInit.RepairRestores | Platform/FvbServicesRuntimeDxe/FWBlockService.c:1508-1538 | a repaired block holds the template with a header that validates, then the variable store header with GUID, remaining size and marks, then blank bytes to its end |
| FvbInit.Restore | Platform/FvbServicesRuntimeDxe/FWBlockService.c:1495-1547 | the second pass accepts a volume exactly as the first pass did, leaves later and healthy volumes alone, and on a fault-free part turns a damaged known one into exactly its repair, which validates; nothing but first blocks of damaged known volumes changes |
| FvbInit.FvbGlobal.CountBlocks | Platform/FvbServicesRuntimeDxe/FWBlockService.c:1556-1569 | over a stored header with a zero count inside, the loop counts the blocks in front of it |
| FvbInit.FvbGlobal.StoreRecord | Platform/FvbServicesRuntimeDxe/FWBlockService.c:1549-1573 | the record's addresses and header, and the count if the header determines it, can be read back, and earlier records keep their bytes |
| FvbInit.RecordLayout | Platform/FvbServicesRuntimeDxe/FWBlockService.c:1549-1573 | where base addresses, count and header of a record lie |
| FvbInit.FvbGlobal.RecordHeld | Platform/FvbServicesRuntimeDxe/FWBlockService.c:382-390 | the header length stored in record k leads exactly to record k + 1 |
| FvbInit.FvbGlobal.GetFvbInstance | Platform/FvbServicesRuntimeDxe/FWBlockService.c:348-395 | succeeds exactly below the number of volumes and reaches exactly the record of that volume |
| FvbInit.FvbGlobal.Initialize | Platform/FvbServicesRuntimeDxe/FWBlockService.c:1413-1651 | for all validating headers that contain their own length field, the records of the second pass fill the buffer sized by the first one exactly, in hand-off order; nothing but first blocks of damaged known volumes changes, and on a fault-free part each of these ends as exactly its repair, with a valid header |
| FvbBoot.InstanceWellFormed | Platform/FvbServicesRuntimeDxe/FWBlockService.c:1549-1573 | given a header that describes its volume, the instance is one the driver can serve, and its stored count is exact if and only if no counted map entry has length zero |
| FvbBoot.EmptyEntryMiscounts | Platform/FvbServicesRuntimeDxe/FWBlockService.c:1558-1569 | a concrete map whose stored count includes blocks that the address walk refuses |
| FvbBoot.ErasePromiseExactly | Platform/FvbServicesRuntimeDxe/FWBlockService.c:1128-1171 | for the instance of an accepted header and requests that do not wrap, a refused erase has changed nothing if and only if no counted map entry has length zero and all blocks are whole sectors, or nothing is left to erase; for all requests, only in the latter case |
| FvbBoot.EmptyEntryBreaksErase | Platform/FvbServicesRuntimeDxe/FWBlockService.c:1128-1171 | a concrete map and request: validation passes, one block is erased, then the request fails as invalid |
| FvbBoot.TemplateInstance | Platform/FvbServicesRuntimeDxe/FvbInfo.c:60-105 | the record of a repaired NV-storage volume is a well-formed instance at the NV base with attribute word 0x0836 and an exact block count |
| FvbBoot.RecordsAreServed | Platform/FvbServicesRuntimeDxe/FWBlockService.c:1474-1651 | the instances read out of the records of any accepted hand-off list are well-formed and pairwise disjoint, as the driver requires |
| FvbBoot.PlatformTableOk | Platform/FvbServicesRuntimeDxe/FvbInfo.c:60-105 | the package's own table meets everything that initialisation needs of it |
| FvbBoot.ReadInstances | Platform/FvbServicesRuntimeDxe/FWBlockService.c:348-395 | the base, count, attributes and block map decoded from the record buffer are those of the accepted volumes |
| FvbBoot.Boot | Platform/FvbServicesRuntimeDxe/FWBlockService.c:1413-1651 | from the flash, the hand-off blocks and the package's table to a valid driver over exactly the accepted volumes; nothing but first blocks of damaged known volumes changes |
| SpiFlash.SpiController.ExecuteOpcode | Applications/SpiFlash.c:570-664 | true exactly if the controller was idle and done within 4000 polls; a cycle changes only the sector or the bytes it addresses; without the prefix or with protection on it changes nothing, and an obeyed one does what its opcode says |
| SpiFlash.SpiController.FindOpcode | Applications/SpiFlash.c:784-798 | the last slot of the menu that holds the opcode, or -1 exactly if none does |
| SpiFlash.SpiController.EquippedExactly | Applications/SpiFlash.c:783-827 | which opcodes and prefix must be in the menu for a sector to be written at all |
| SpiFlash.SpiController.ArmedExactly | Applications/SpiFlash.c:827-829 | a cycle can write exactly if bit 0 of BIOS_CNTL is set and its prefix slot holds write enable |
| SpiFlash.SpiController.CheckBlank | Applications/SpiFlash.c:838-846 | true exactly if all 4096 bytes of the sector are 0xFF |
| SpiFlash.SpiController.EraseSector | Applications/SpiFlash.c:834-864 | success means a blank sector after at most two erases, and a third one always ends in failure; without faults one erase is enough |
| SpiFlash.SpiController.BurnPages | Applications/SpiFlash.c:866-897 | at most 64 programs, confined to the sector; without faults a blank sector becomes the buffer except for pages taken for blank |
| SpiFlash.SpiController.Verify | Applications/SpiFlash.c:899-908 | true exactly if the whole dwords compared are equal |
| SpiFlash.SetThenReset | Applications/SpiFlash.c:829-831 | setting the write-enable bit and resetting it on exit restores the register for every entry value |
| SpiFlash.BurnedExactly | Applications/SpiFlash.c:866-897 | the first n pages written equal the buffer if and only if none of them is made of 0x000000FF dwords |
| SpiFlash.WholeSectorVerdict | Applications/SpiFlash.c:866-908 | a sector programmed from blank equals the buffer if and only if no page is made of 0x000000FF dwords |
| SpiFlash.TakenForBlankExactly | Applications/SpiFlash.c:870-879 | a page is skipped if and only if every fourth byte is 0xFF and all others are zero |
| SpiFlash.SpiController.WriteSector | Applications/SpiFlash.c:746-919 | on every exit only the sector may have changed and BIOS_CNTL has its entry value; success means equal dwords and that every cycle was seen to start and end; without faults the result and verdict depend on the buffer alone, with at most one erase and 64 programs |
| SpiFlash.SpiController.WriteSpiFlash | Applications/SpiFlash.c:927-992 | on every exit a sector boundary separates sectors equal to the image from one doubtful sector and unchanged ones; TRUE means that no cycle failed; it comes with an unfinished region if and only if a polled key is an abort key; without faults and aborts the verdict is decided exactly |
| SpiFlash.StoppedBytes | Applications/SpiFlash.c:958-984 | byte by byte, what an update that stopped leaves: the image, one doubtful sector, the rest as before |
| SpiFlash.AbortKeysExactly | Applications/SpiFlash.c:961-966 | the abort keys are escape, x and X |
| BiosWriter.RegionIsAligned | Applications/BiosWriter.c:3338-3353 | base and size of every region word are whole sectors |
| BiosWriter.RegionFitsExactly | Applications/BiosWriter.c:3338-3353 | the region lies inside the chip, and ends with it, if and only if its base is at most one behind its limit; otherwise it starts behind the chip and its size has wrapped |
| BiosWriter.GateIgnoresWrap | Applications/BiosWriter.c:3751-3759 | the 32-bit sum of base and size is the chip size for every region word, wrapped or not |
| BiosWriter.FileWordExactly | Applications/BiosWriter.c:3694-3712 | the region word is the dword at 0x44 of the file, or whatever was there if the read fails or falls short |
| BiosWriter.WrappedRegionPasses | Applications/BiosWriter.c:3694-3759 | a concrete region word behind the end of an 8 MiB chip that an image naming it gets past every check |
| BiosWriter.UnreadWordPasses | Applications/BiosWriter.c:3700-3734 | a concrete image that names another region than the chip and passes if the read of its region word fails |
| BiosWriter.AcceptableExactly | Applications/BiosWriter.c:3694-3759 | which files pass all checks before the write |
| BiosWriter.CompareSpiFlash | Applications/BiosWriter.c:577-597 | true exactly if flash and file agree from the region base to the end, whichever keys are pressed |
| BiosWriter.WriteBios | Applications/BiosWriter.c:3694-3830 | "Done" implies flash equal to the file from the region base to the end of the chip; bytes below the base never change; without faults and aborts "Done" is reached exactly for confirmed images that the checks accept, whether or not the region word could be read, and that have no page taken for blank |
| AcpiTimer.ExpiredExactly | Platform/Library/AcpiTimerLib/AcpiTimerLib.c:86-97 | whatever the upper bits of the readings, the exit test fires if and only if the advance modulo 2^24 lies behind the delay by at most half the range |
| AcpiTimer.AcpiCounter.Wait | Platform/Library/AcpiTimerLib/AcpiTimerLib.c:86-97 | a wait of at most 2^22 ticks returns only after more than its delay; paced polls make it return with an overshoot of at most one pace |
| AcpiTimer.AcpiCounter.InternalAcpiDelay | Platform/Library/AcpiTimerLib/AcpiTimerLib.c:73-99 | for every 32-bit delay, return implies that strictly more ticks than the delay passed; with polls 1 to p <= 2^23 ticks apart it returns and each wait and each step between waits overshoots by at most p |
| AcpiTimer.NanoSecondsExact | Platform/Library/AcpiTimerLib/AcpiTimerLib.c:233-254 | the split computation is the exact floor modulo 2^64 for every 64-bit tick count, and its remainder term never overflows |
| AcpiTimer.RequestSuffices | Platform/Library/AcpiTimerLib/AcpiTimerLib.c:117-125 | more than the requested ticks outlasts the time asked for, despite the floor, if and only if the exact tick count fits 32 bits |
| AcpiTimer.CutIsShort | Platform/Library/AcpiTimerLib/AcpiTimerLib.c:117-125 | a request cut by the cast is short of the exact tick count by at least 2^32 |
| AcpiTimer.TwentyMinutes | Platform/Library/AcpiTimerLib/AcpiTimerLib.c:117-125 | a concrete number of microseconds whose request is cut to no ticks |
| AcpiTimer.TwoFloors | Platform/Library/AcpiTimerLib/AcpiTimerLib.c:141-254 | flooring to nanoseconds and back to ticks loses at most one tick |
| AcpiTimer.TickRoundTrip | Platform/Library/AcpiTimerLib/AcpiTimerLib.c:141-254 | converting a 32-bit tick count to nanoseconds and back in the code's arithmetic loses at most one tick |
| AcpiTimer.MicroSecondDelay | Platform/Library/AcpiTimerLib/AcpiTimerLib.c:111-127 | within the 32-bit cast, return implies more than the exact rational number of ticks passed; beyond it, with polls at most 2^21 ticks apart, fewer passed; paced polls make it return, with the overshoot of the wait for the request |
| AcpiTimer.NanoSecondDelay | Platform/Library/AcpiTimerLib/AcpiTimerLib.c:139-155 | likewise, and waiting for the nanoseconds of t ticks lets at least t ticks pass |
| HpetStall.DoneExactly | Platform/PlatformInit/Pei/Platform.c:109-120 | the exit test fires if and only if the advance modulo 2^32 lies in a window that starts at the wait and ends at the next wrap of the counter |
| HpetStall.HpetCounter.Stall | Platform/PlatformInit/Pei/Platform.c:91-124 | return implies at least the wait passed, and 15 ticks per microsecond if that fits 32 bits; a zero wait never returns; polls no further apart than the window is wide make it return |
| SataRom.CheckAndPatch | Platform/PciPlatformDxe/PciPlatform.c:23-122 | the scan byte by byte ends with the status and the image that the specification gives, and every access stays in the buffer |
| SataRom.ChecksumExactly | Platform/PciPlatformDxe/PciPlatform.c:51-79 | on the bytes of the image, exactly which headers pass the checks and where the checksum byte then is |
| SataRom.MarkerExactly | Platform/PciPlatformDxe/PciPlatform.c:82-85 | a marker is the eight letters CDRMWTDL |
| SataRom.FindMarker | Platform/PciPlatformDxe/PciPlatform.c:80-91 | the first marker at or behind the start that leaves room for the delay word, or none exactly if there is none |
| SataRom.PlacesExactly | Platform/PciPlatformDxe/PciPlatform.c:51-94 | the patch goes to a checksum byte and a delay word if and only if the checks pass and the marker in front of the delay word is the first one |
| SataRom.ResultExactly | Platform/PciPlatformDxe/PciPlatform.c:23-122 | a call succeeds if and only if there is a setting and a place, and then the image carries the selected delay; one that fails changes nothing |
| SataRom.PatchInPlace | Platform/PciPlatformDxe/PciPlatform.c:100-117 | the 8-bit update in place makes the checksum byte balance the delay bytes |
| SataRom.PatchKeepsSum | Platform/PciPlatformDxe/PciPlatform.c:100-117 | the byte sum of the image modulo 256 survives the patch |
| SataRom.ResultKeepsSum | Platform/PciPlatformDxe/PciPlatform.c:23-122 | for every image and setting the sum is kept and only the checksum byte and the two delay bytes may change |
| SataRom.PlacesStay | Platform/PciPlatformDxe/PciPlatform.c:51-94 | a patch of a steady image moves neither the checksum byte nor the delay word that the next call finds |
| SataRom.CoveringIsSteady | Platform/PciPlatformDxe/PciPlatform.c:51-94 | an image whose structure length covers the structure is steady |
| SataRom.LastSettingWins | Platform/PciPlatformDxe/PciPlatform.c:23-122 | on a steady image, after any earlier call the image and status are those of the last call alone, so repeating changes nothing and slow then fast equals fast |
| SataRom.SteadyExactly | Platform/PciPlatformDxe/PciPlatform.c:23-122 | slow then fast equals fast for every pair of delays if and only if the image is steady, a condition on where the checksum byte and the delay word fall |
| SataRom.MisplacedChecksumLosesSecondPatch | Platform/PciPlatformDxe/PciPlatform.c:71-79 | a concrete image that is not steady, on which the first patch makes the second one fail |
| Madt.XorSwap | Platform/AcpiPlatformDxe2/AcpiPlatformAPIC.c:113-115 | the three XOR assignments exchange two entries of the array |
| Madt.Sort | Platform/AcpiPlatformDxe2/AcpiPlatformAPIC.c:107-118 | the exchange sort leaves an ascending permutation of the array |
| Madt.PrimariesFirst | Platform/AcpiPlatformDxe2/AcpiPlatformAPIC.c:100-120 | sorting tagged ids and dropping the tags lists all primary processors, then all secondary ones, each group complete and ascending |
| Madt.CollectIds | Platform/AcpiPlatformDxe2/AcpiPlatformAPIC.c:82-105 | completes exactly if no query fails, with the tagged id of every processor in order |
| Madt.UntagAll | Platform/AcpiPlatformDxe2/AcpiPlatformAPIC.c:120-120 | every entry of the array loses its tag |
| Madt.TableSumsToZero | Platform/AcpiPlatformDxe2/AcpiPlatformAPIC.c:145-149 | the bytes of the finished table sum to zero modulo 256 |
| Madt.TableEntry | Platform/AcpiPlatformDxe2/AcpiPlatformAPIC.c:138-143 | the eight bytes of processor entry k: type, length, processor id k + 1, the k-th APIC id, enabled |
| Madt.FixedFields | Platform/AcpiPlatformDxe2/AcpiPlatformAPICRes.h:13-76 | the bytes of the fixed part: signature, length, revision, I/O APIC, the two overrides and the NMI |
| Madt.WalkEndsAtLength | Platform/AcpiPlatformDxe2/AcpiPlatformAPIC.c:122-143 | walking the structures by their own length fields ends exactly at the header's length and meets one I/O APIC, two overrides, one NMI and n processors |
| Madt.FillLocals | Platform/AcpiPlatformDxe2/AcpiPlatformAPIC.c:138-143 | the loop writes the processor entries behind the fixed part and keeps the fixed part |
| Madt.SumBytes | Platform/AcpiPlatformDxe2/AcpiPlatformAPIC.c:146-148 | the countdown loop sums every byte of the table once |
| Madt.BuildTable | Platform/AcpiPlatformDxe2/AcpiPlatformAPIC.c:122-149 | the buffer filled in place is the table of the sorted ids |
| Madt.Install | Platform/AcpiPlatformDxe2/AcpiPlatformAPIC.c:82-149 | a table results exactly if no query fails, and it is the table of a primaries-first ascending order of the reported ids |
| Madt.OrderedExactly | Platform/AcpiPlatformDxe2/AcpiPlatformAPIC.c:100-120 | what the order of the ids means entry by entry |
| Mtrr.MergeMemoryRange | Platform/PlatformInit/PeiMtrr/Platform2.c:103-145 | the in-place loop stops at the first free or touching entry of the type, merges there, returns its index, and leaves the table unchanged when it returns the maximum |
| Mtrr.MergeCovers | Platform/PlatformInit/PeiMtrr/Platform2.c:116-136 | a merge adds exactly the accepted range to what its type covers; a refused range and the other types change nothing |
| Mtrr.MergeKeepsShape | Platform/PlatformInit/PeiMtrr/Platform2.c:116-136 | used entries stay a prefix and no end address wraps |
| Mtrr.MergeSeparates | Platform/PlatformInit/PeiMtrr/Platform2.c:116-136 | entries of one type stay apart if and only if the new range touches at most one of them |
| Mtrr.BridgeLeavesOverlap | Platform/PlatformInit/PeiMtrr/Platform2.c:116-136 | a concrete range that bridges a gap and leaves an address covered by two entries of one type |
| Mtrr.FoldSeparates | Platform/PlatformInit/PeiMtrr/Platform2.c:177-210 | after any sequence of ranges the entries of each type are apart if and only if no range ever touched more than one entry of its type |
| Mtrr.FoldShape | Platform/PlatformInit/PeiMtrr/Platform2.c:177-210 | after any HOB sequence the used entries form a prefix and their end addresses do not wrap |
| Mtrr.FoldCovers | Platform/PlatformInit/PeiMtrr/Platform2.c:177-210 | after any HOB sequence the table covers, type by type, exactly the union of the ranges that found an entry |
| Mtrr.EightAreKept | Platform/PlatformInit/PeiMtrr/Platform2.c:177-210 | with at most eight cacheable HOBs every range finds an entry |
| Mtrr.CacheableExactly | Platform/PlatformInit/PeiMtrr/Platform2.c:184-195 | write-back wins over every other attribute, write-protected over write-combining, write-combining counts only without the uncacheable attribute, and all else is uncacheable |
| Mtrr.CacheableIsWanted | Platform/PlatformInit/PeiMtrr/Platform2.c:184-206 | the ranges handed to the merge cover, type by type, exactly the addresses from start up to start plus length of the cacheable HOBs |
| Mtrr.RangeOfHob | Platform/PlatformInit/PeiMtrr/Platform2.c:200-206 | a HOB asks for the addresses from its start on, its length many, under the type of its attributes |
| Mtrr.MergeHobs | Platform/PlatformInit/PeiMtrr/Platform2.c:174-210 | the loop over the HOBs merges exactly the cacheable ones, in order |
| Mtrr.PlatformMtrr | Platform/PlatformInit/PeiMtrr/Platform2.c:158-222 | exactly the used entries are programmed; together they cover the ranges that found an entry, and with at most eight cacheable HOBs exactly what the HOBs ask for |
| IrqRouting.FindRow | Platform/LegacyBiosPlatformProtocolDxe/LegacyBiosPlatform.c:893-902 | finds the first table row of the device, or the table size exactly if the device has none |
| IrqRouting.RoutedExactly | Platform/LegacyBiosPlatformProtocolDxe/LegacyBiosPlatform.c:730-739 | which devices have a route register |
| IrqRouting.TranslatePirq | Platform/LegacyBiosPlatformProtocolDxe/LegacyBiosPlatform.c:1004-1056 | unsupported exactly for pins above 3 and for pins other than the first of a device without a route register; otherwise the interrupt of the selected link |
| IrqRouting.LinkReadsNibbles | Platform/LegacyBiosPlatformProtocolDxe/LegacyBiosPlatform.c:1046-1049 | the link of each pin is the low three bits of its own nibble of the route register |
| IrqRouting.TranslatesNibbles | Platform/LegacyBiosPlatformProtocolDxe/LegacyBiosPlatform.c:1026-1052 | every pin of a routed device translates to the interrupt of the link in its own nibble |
| IrqRouting.TranslatesUnrouted | Platform/LegacyBiosPlatformProtocolDxe/LegacyBiosPlatform.c:1037-1044 | a device without a route register has its first pin on link A and no other |
| IrqRouting.FillPins | Platform/LegacyBiosPlatformProtocolDxe/LegacyBiosPlatform.c:893-942 | each of the four pins agrees with the translation of that pin: number and mask, zero mask when disabled, no link when unsupported |
| IrqRouting.MaskNamesIrq | Platform/LegacyBiosPlatformProtocolDxe/LegacyBiosPlatform.c:900-942 | a pin's mask is that of interrupt n if and only if the translation is n, it is zero if and only if the pin is unsupported or its link disabled, and the link is the pin number or zero |
| IrqRouting.SeenExactly | Platform/LegacyBiosPlatformProtocolDxe/LegacyBiosPlatform.c:875-888 | the entries are for exactly the devices present |
| IrqRouting.SeenInOrder | Platform/LegacyBiosPlatformProtocolDxe/LegacyBiosPlatform.c:875-888 | no device has two entries, and entries follow the order of first occurrence |
| IrqRouting.Listed | Platform/LegacyBiosPlatformProtocolDxe/LegacyBiosPlatform.c:875-888 | the search over the entries so far finds a device exactly if it has one |
| IrqRouting.GetRoutingTable | Platform/LegacyBiosPlatformProtocolDxe/LegacyBiosPlatform.c:838-950 | one entry for each distinct device in first-seen order, every pin as TranslatePirq answers it, and a table size of 0x20 plus 0x10 for each entry |
| IrqRouting.EntryAnswers | Platform/LegacyBiosPlatformProtocolDxe/LegacyBiosPlatform.c:893-942 | the entry of a device carries its bus and shifted device number and, for each pin, the mask of interrupt n exactly if the translation answers n |

## Left out

* FWBlockServiceSmm.c: a near copy of the runtime driver, which would only repeat the model.
* Virtual addresses, EfiConvertPointer and the virtual copy of the instance pointer: one address space is modelled.
* Device paths, protocol installation, memory-space attributes and allocation failures.
- FvbInit.FvbGlobal.StoreRecord: the bytes of the lock at the start of a record, and MaxLbaSize, are not modelled, because nothing that is modelled reads them.
- FvbInit.SizeBuffer: does not model the width of BufferSize, because records of a few dozen bytes cannot reach it.
- FvbDriver.FvbDriver.RunCalls: the exact contents and replies are for a fault-free part, because what a failed command leaves in the block it addresses is arbitrary.
- FvbDriver.FvbDriver.ReadBlock: null pointers for size and data are modelled as an absent option; the copy back of the byte count is part of the reply.
- SpiFlash.SpiController.WriteSector: the Skylake path is not part of this model; the constants of the opcode menu and its prefix are parameters.
- BiosWriter.WriteBios: menus, dumps, console texts and file access are reduced to whether the file opens, its bytes, whether reading succeeds and which keys are pressed; region words with their base more than one behind their limit name addresses outside the chip, and what the chip does with those is not modelled; the second-chip build (GIGABYTE_H77) and the build without region checks (GBYTEH77) are left out.
- HpetStall.HpetCounter.Stall: no termination claim beyond paced polls, because the acceptance window can be a single tick.
- AcpiTimer.AcpiCounter.GetTimerTick: reading the power management base from PCI configuration space is left out.
- Madt.Install: locating the protocols, allocation and the ACPI protocol's own copy of the table are left out.
- Mtrr.PlatformMtrr: leaving cache-as-RAM mode, the CPU HOB and the status of the MTRR library calls are left out.
- IrqRouting.GetRoutingTable: the IRQ priority table, whose pointer is never advanced, the header fields other than the size, and the class code reads are left out; route registers are parameters, since their addresses come from a header that is not part of this model.
* BDS code, PeripheralInfo, PlatformInfo, graphics policy, Int13 handler and the other platform drivers: mostly calls into services that are not part of this model, with only easy properties.
