# Verified models of the firmware framework

A Dafny 4.11 project that models the parts of the framework that hold no SDK calls, and proves
what they promise. `dafny verify dfyconfig.toml` checks all of it.

- **Settings that survive a power cut.** `Flash` is the chip: erasing sets bits, programming clears
  them, and the power can go between any two pages. `ConfigStore` edits a byte image in place and
  refines a finite map. `SlotFormat`, `PowerFail` and `PersistentConfig` put the image in one of two
  slots; `DurableRuns` is the theorem over whole runs.
- **Firmware over a serial line.** `HexParser` reads records, `Staging` and `FirmwareReceive` turn
  them into pages of flash, `ImageFormat` and `Manifest` keep a record of what was verified,
  `FirmwareService` has the commands, `UpdateRuns` is the theorem over whole runs of them, and
  `SerialUpdate` is the sender's side of the bargain. `Crc` has the algebra behind every checksum here,
  `CrcDivision` the polynomial division it stands for and `CrcCheckValue` its published check value.
- **The console.** `CliEditor` is the line editor as a pure machine with the terminal row it draws
  on, `CliTokens` the cutting of a line into arguments, `Cli` the code on its buffers.
- **JSON.** `JsonText` and `JsonWriter` write, `JsonScan`, `JsonFind` and `JsonReader` read. `JsonDocs`
  is the grammar of everything the reader accepts and `JsonLookups` what it answers about it;
  `JsonPrinted` places what is written in that grammar, and `JsonRoundTrip` joins the two halves.
- **Queues and streams.** `RingBuffer` is the byte ring on its own, `RingProtocol` the same ring
  shared by two sides in single steps, and `RingRuns` shows every call of the one to be a run of the
  other; `CanQueue` and `Streams` stand on it.
- **Arithmetic and transformation.** `CanFilters`, `BitTiming`, `PwmTiming`, `LightFades` and
  `Publication`.

Code that changes fields and buffers is modelled by classes and methods over them; each method is
proved against a function, and the laws are proved of the function. Bytes are numbers from 0 to 255
and words are numbers with their wrap written out. The chip, the link, the broker, the terminal and
whatever answers a command line are environments that may do anything the hardware may.

Where the code does not do what its documentation says, the model follows the code:

- The sender promises the image as the device will store it; a record without data extends the
  sender's image and not the device's (`SerialUpdate.SenderAgreesIff`).
- Records may arrive in any order (components/firmware_update/README.md:107-116); they may, except
  that a page come back to has to be sent again with every byte of it that is not erased
  (`FirmwareReceive.CompletesIffResent`, `TransferCompletesIff`, `UnsentByteFails`).
- An exponent is rejected (components/json/README.md:75), or dropped with a fraction (json.h:125); it is
  rejected exactly when no fraction comes before it (`JsonLookups.ExponentRefusedIff`).
- The header of json.h says a string's slice lies between its quotes; it includes them
  (`JsonRoundTrip.FoundStringIsQuoted`).

And where a promise stops, the model says where:

- A load that ends in `TOO_LARGE`, or whose records do not parse, leaves nothing loaded, so the next
  save starts again from the first slot with sequence number one (persistent_config.c:149-161).
  `DurableRuns.UnloadedSaveTakesEffectIff` and `UnloadedSaveKeepsOldIff` say when that loses settings.
- An erasure stopped after the first slot has taken the settings with it if they were there. They are
  then in RAM alone, or an older save is back; `DurableRuns.EraseStoppedKeepsOrForgetsIff`,
  `RefusedErasure` and `ExposedLoses` say when, and `FatalSettlesIff` when what is left can be relied on.
- `config_store_load` lets duplicate keys through, and a removal then leaves one behind
  (`ConfigStore.WithoutRefinesMapIff`).
- `config_get_string` narrows its buffer's size to a byte (`ConfigStore.StringRoundTripIff`).
- The guard of `flash_layout_compute` wraps for the two largest counts of data sectors
  (`FlashLayout.ComputeTilesIff`).
- A filter whose mask compares a bit outside its identifier's width matches nothing in software, and
  in a register is cut down to its width (`CanFilters.SlotExactIff`).
- A line is raw from the moment the prefix begins it until it ends, even if the prefix is rubbed out
  (`CliEditor.RawIff`).
- Very long pulses at clocks from 2^28 Hz on wrap 64 bits (`PwmTiming.PulseExactIff`).
- What a Bluetooth stream hears between two peers waits for the second one
  (`Streams.StartsCleanIff`).
- The restored state of the light counts as published before anything has been sent
  (`Publication.NothingPublishedYet`).

## Model

| member | source | states |
|---|---|---|
| DurableRuns.RunIsDurable | components/persistent_config/persistent_config.c:102-257 | over every run of edits, saves and erasures, each of them refused or cut anywhere, and reboots: a load reports exactly the last save whose header page landed, unless a stopped erasure has taken the current slot and no save has run to its end since; after power lost in such a state, or in an erasure, the run goes on from what the chip then holds, as long as that is whole |
| DurableRuns.RunStaysGood | components/persistent_config/persistent_config.c:102-257 | with no erasure refused the two slots stay good at every moment of the run |
| DurableRuns.WholeIff | components/persistent_config/persistent_config.c:102-257 | what a chip holds is durable from then on exactly when it holds a copy that loads beside one that cannot be taken for later, or two blank slots |
| DurableRuns.FatalSettlesIff | components/persistent_config/persistent_config.c:102-257 | so power lost with the settings exposed, or while they are being erased, leaves the next start good exactly when it leaves the chip whole |
| DurableRuns.StepKeepsInv | components/persistent_config/persistent_config.c:102-257 | each event keeps the two slots good, a readable slot beside the current one carrying the sequence number before it modulo 2^32, or exposes the settings |
| DurableRuns.RefusedErasure | components/persistent_config/persistent_config.c:239-257 | a refused erasure keeps the two slots good exactly unless it has taken the slot that was current |
| DurableRuns.FirstSlotCut | components/persistent_config/persistent_config.c:244-249 | power lost while the first slot is erased costs nothing when the settings are in the second, or when there are none |
| DurableRuns.ExposedStep | components/persistent_config/persistent_config.c:169-257 | exposed settings stay in RAM, and the next save that runs to its end makes them durable again |
| DurableRuns.ExposedLoses | components/persistent_config/persistent_config.c:102-167 | a load while exposed finds what the second slot holds, never the settings themselves |
| DurableRuns.NextSaveErasesSurvivor | components/persistent_config/persistent_config.c:169-206 | the save after a refused erasure erases the only copy left before it writes another |
| DurableRuns.BlankStart | components/persistent_config/persistent_config.c:102-167 | blank flash, booted, is a good start |
| DurableRuns.InvLoads | components/persistent_config/persistent_config.c:102-167 | from a good chip a load gives back exactly what is durable, or reports empty |
| DurableRuns.UnloadedSaveTakesEffectIff | components/persistent_config/persistent_config.c:149-237 | saving after a load that adopted nothing is found by the next load exactly when the second slot holds nothing that counts as later |
| DurableRuns.UnloadedSaveKeepsOldIff | components/persistent_config/persistent_config.c:169-206 | and losing power anywhere in such a save, once the old header has gone and before the new one lands, keeps the old settings exactly when they were not in the first slot |
| DurableRuns.TooSmallLoadLosesSettings | components/persistent_config/persistent_config.c:144-161 | a load into too small a buffer followed by a save's erase loses good settings |
| DurableRuns.EraseStoppedKeepsOrForgetsIff | components/persistent_config/persistent_config.c:239-257 | an erasure stopped between the slots leaves the settings as they were or nothing, exactly unless the first slot was current and the second can still be read |
| DurableRuns.EraseCutCanRevert | components/persistent_config/persistent_config.c:239-257 | and then it brings back the save before last |
| PowerFail.SaveSurvivesPowerLoss | components/persistent_config/persistent_config.c:169-237 | wherever the power goes in a save, the chip is good for the new records if the header page landed and for the old ones if not |
| PowerFail.SaveTakesEffect | components/persistent_config/persistent_config.c:169-237 | a save that runs to its end makes its records the current ones |
| PowerFail.RefusedSaveKeepsOld | components/persistent_config/persistent_config.c:189-231 | a save the flash layer refuses part-way keeps the old records |
| PowerFail.GoodReloads | components/persistent_config/persistent_config.c:102-167 | the choice between two readable slots is the later one across the wrap of the counter |
| PowerFail.NeighboursOrdered | components/persistent_config/persistent_config.c:89-100 | of two neighbouring sequence numbers the signed difference picks the next one, at the wrap as well |
| PowerFail.StageReached | components/persistent_config/persistent_config.c:169-231 | after its first k operations a save has touched its own slot only, and brought it to a known stage |
| PowerFail.SaveCutOutcome | components/persistent_config/persistent_config.c:169-231 | a cut leaves the slot finished, or with its old or a blank first page |
| PersistentConfig.PersistentConfig.Load | components/persistent_config/persistent_config.c:102-167 | the loading code computes the load specification, and leaves the store, the counters and the flash as it says |
| PersistentConfig.PersistentConfig.Save | components/persistent_config/persistent_config.c:169-237 | the page loop performs exactly the specified operations, in order, or a prefix of them when refused |
| PersistentConfig.PersistentConfig.Erase | components/persistent_config/persistent_config.c:239-257 | both slots in turn, RAM forgotten only when both went |
| SlotFormat.NewSlotReads | components/persistent_config/persistent_config.c:58-87 | a finished slot reads back as exactly the records and the sequence saved |
| SlotFormat.SlotReadsIff | components/persistent_config/persistent_config.c:58-87 | a slot is read as those records under that number exactly when its bytes say so: the magic, three words, two checksums, and the records from byte 256 on, 3840 at most |
| DurableRuns.LoadTable | components/persistent_config/persistent_config.c:102-167 | what a load answers for every pair of slot contents: empty, damaged, too large, or the records of which slot |
| SlotFormat.DamagedRecordsRejected | components/persistent_config/persistent_config.c:67-83 | records changed anywhere within four consecutive bytes are not read |
| SlotFormat.DamagedHeaderRejected | components/persistent_config/persistent_config.c:67-76 | nor is a header so changed, its own checksum included, taken as sound |
| ConfigStore.ParseImage | components/persistent_config/config_store.c:63-100 | any run of sound records parses back to those records |
| ConfigStore.ParseSound | components/persistent_config/config_store.c:63-100 | whatever parses is the image of sound records and nothing else |
| ConfigStore.RecordBytes | components/persistent_config/config_store.c:5-8 | a record as bytes: two lengths, up to 31 and 255, the key and the value |
| ConfigStore.AnswerTable | components/persistent_config/config_store.c:10-190 | every answer to a key, and to a read or a write under it, in the order they are given |
| ConfigStore.TypedAnswerTable | components/persistent_config/config_store.c:253-340 | what a caller gets for a number missing or of another length, and for a text missing or too long |
| ConfigStore.PutRefinesMap | components/persistent_config/config_store.c:102-153 | a set is an update of one key of a map and keeps keys unique |
| ConfigStore.PutKeepsOrder | components/persistent_config/config_store.c:102-153 | and leaves the other records in their order, the new one last |
| ConfigStore.WithoutRefinesMapIff | components/persistent_config/config_store.c:192-215 | a removal is a removal from the map exactly when the key was there once |
| ConfigStore.RemovalCanLeaveKey | components/persistent_config/config_store.c:80-96 | duplicates that a load lets through can outlive a removal |
| ConfigStore.U32RoundTrip | components/persistent_config/config_store.c:241-290 | every 32-bit number set is the number got |
| ConfigStore.StringRoundTripIff | components/persistent_config/config_store.c:292-340 | a string set is the string got exactly when it fits the buffer and the buffer's size as the code narrows it |
| ConfigStore.LargeBufferLosesString | components/persistent_config/config_store.c:333-333 | a buffer over 256 bytes can lose a string that fits it |
| ConfigStore.Store.Load | components/persistent_config/config_store.c:63-100 | accepts exactly the buffers that parse to their whole length, and otherwise is left empty |
| ConfigStore.Store.FindRecord | components/persistent_config/config_store.c:28-45 | the first record of that key, by its offset |
| ConfigStore.Store.Set | components/persistent_config/config_store.c:102-153 | the moves in place give the specified records, full and unchanged exactly when the new total exceeds the buffer |
| ConfigStore.Store.Get | components/persistent_config/config_store.c:155-190 | the first value of the key, or how it is missing or too long |
| ConfigStore.Store.Remove | components/persistent_config/config_store.c:192-215 | closing the gap gives the records without the first of that key |
| ConfigStore.Store.GetString | components/persistent_config/config_store.c:307-340 | the value with its terminator, under the narrowed size |
| CrcDivision.ChecksumIff | components/crc/crc.c:17-38 | a word is a message's checksum exactly when its complement, reflected, is the remainder of the message by the polynomial of clause 3.2.9 of IEEE 802.3, thirty-two zeros behind it and its first thirty-two bits complemented |
| CrcDivision.RemainderIff | components/crc/crc.c:17-33 | long division leaves the one number below 2^32 that differs from the dividend by a multiple of the polynomial |
| CrcDivision.RegisterIsRemainder | components/crc/crc.c:17-33 | from any register, bytes fed in leave the remainder of them all with that register over their front |
| CrcDivision.PolynomialIsDivisor | components/crc/crc.c:29-29 | the constant is that polynomial's low word, reflected |
| CrcCheckValue.CheckValue | components/crc/README.md:7-7 | the nine characters 1 to 9 have the checksum 0xCBF43926 |
| Crc.BurstDetected | components/crc/crc.c:17-38 | messages of one length that differ only within four consecutive bytes have different checksums |
| Crc.ChunkedEqualsOneShot | components/crc/crc.c:17-38 | a checksum taken in any pieces is the checksum of the whole |
| Crc.UpdateIsDivision | components/crc/crc.c:17-33 | the byte loop divides the message, as one number, by the polynomial |
| Crc.StepsInjective | components/crc/crc.c:25-29 | the register's bit steps lose nothing, because the polynomial's top bit is set |
| Crc.ChecksummedIffResidue | components/crc/crc.c:17-38 | four bytes are a message's checksum exactly when they leave one fixed value in the register |
| Crc.ChecksummedBurstRejected | components/crc/crc.c:17-38 | damage within four bytes of message and checksum together never leaves a valid pair |
| Crc.Crc32Update | components/crc/crc.c:17-33 | the two loops compute that division |
| FlashLayout.ComputeTilesIff | components/flash_storage/flash_layout.c:19-63 | an accepted division tiles the chip sector by sector exactly when the guard's sum does not wrap |
| FlashLayout.ComputeCanOverlap | components/flash_storage/flash_layout.c:33-60 | on the largest chip either of the two values that slip through the guard puts the manifest over the application |
| FlashLayout.DivisionAcceptedIff | components/flash_storage/flash_layout.c:22-36 | a division is accepted exactly for whole sectors, at least two of them reserved, and that many and two more no more than there are, in 32 bits |
| FlashLayout.SectorsShared | components/flash_storage/flash_layout.c:38-62 | both images get half of what is not reserved and an odd sector goes to the data |
| FlashLayout.AccessTable | components/flash_storage/flash_layout.c:83-146 | an access is refused first for lying outside its region and then for not being whole sectors, or pages |
| FlashStorage.Flash.Erase | components/flash_storage/flash_storage.c:83-114 | an accepted erase is one erase of the chip at that place; a refused one is nothing at all |
| FlashStorage.Flash.Program | components/flash_storage/flash_storage.c:116-148 | programming only clears bits, in bounds and on page boundaries |
| FlashStorage.Flash.ProgramVerified | components/flash_storage/flash_storage.c:150-169 | reports success exactly when the region then reads as the data |
| FlashStorage.Flash.RegionCrc32 | components/flash_storage/flash_storage.c:196-207 | the checksum of what the region holds, or zero out of bounds |
| FlashStorage.ProgramErased | components/flash_storage/flash_storage.c:33-37 | over erased flash, programming puts exactly the data there |
| FlashStorage.CutOutside | components/flash_storage/flash_storage.c:27-37 | operations on one region, cut anywhere, leave the rest of the chip alone |
| HexParser.FormatRoundTrip | components/hex_parser/hex_parser.c:104-196 | every record written in the format is accepted as written, in either case and with white space around it |
| HexParser.RecordTable | components/hex_parser/hex_parser.c:62-196 | what each of the six kinds of record does before the end mark, by its number and its one length, and that there is no seventh |
| HexParser.RefusalTable | components/hex_parser/hex_parser.c:104-196 | every line with a colon, the reason it is refused for, in the order the reasons are looked for |
| HexParser.NoStartCode | components/hex_parser/hex_parser.c:112-118 | without a colon after any white space there is no record |
| HexParser.EntryPointLine | components/hex_parser/hex_parser.c:90-102 | the entry-point line a linker writes, to the character |
| HexParser.AcceptedIsFormatted | components/hex_parser/hex_parser.c:104-196 | and nothing is accepted that is not such a record, white space and case aside |
| HexParser.Parser.Feed | components/hex_parser/hex_parser.c:104-196 | the parser's state, result and record are the specified ones for any line |
| Staging.StagedIff | components/firmware_update/firmware_receive.c:40-99 | with nothing left in the buffer the region holds the overlay of all records exactly when the pages no record touched were erased |
| Staging.PageWrittenTracks | components/firmware_update/firmware_receive.c:40-53 | a page that took loses nothing of an earlier visit, though flash can only clear bits |
| Staging.TakesIffLands | components/firmware_update/firmware_receive.c:40-53 | a page programmed reads back as itself exactly when it asks for no bit that an earlier visit, or whatever was there before, had cleared |
| Staging.ThroughIff | components/firmware_update/firmware_receive.c:64-99 | byte by byte from an empty buffer, no page fails exactly when every visit but the one in hand lands |
| Staging.LandsIffResent | components/firmware_update/firmware_receive.c:40-99 | on erased flash a visit lands exactly when it asks again for every byte earlier visits made anything but erased, within the bits they left |
| Staging.AllLandIffResent | components/firmware_update/firmware_receive.c:40-99 | and every visit does exactly when each sends again what it finds |
| Staging.NeverReturningLands | components/firmware_update/firmware_receive.c:64-99 | a file that comes back to no page can be staged on erased flash in whatever order its pages come |
| Staging.ByteTracks | components/firmware_update/firmware_receive.c:64-99 | placing a byte, in a fresh page or one come back to, keeps flash and buffer together at the overlay |
| Staging.ExtentBounds | components/firmware_update/firmware_receive.c:94-96 | the image size is one past the highest offset placed |
| FirmwareReceive.TransferCompletesIff | components/firmware_update/firmware_receive.c:120-171 | with nothing wrong with the flash, a file goes through to its end exactly when every line is acceptable, it ends, and every visit to every page lands |
| FirmwareReceive.CompletesIffResent | components/firmware_update/firmware_receive.c:120-171 | on erased flash, exactly when every line is acceptable, it ends, and every visit to a page sends again all that earlier visits put there, within the bits they left |
| FirmwareReceive.SessionIff | components/firmware_update/firmware_receive.c:120-171 | and up to any line, exactly when each was acceptable and every page that has had to go out landed |
| FirmwareReceive.UnsentByteFails | components/firmware_update/firmware_receive.c:64-171 | so any file of acceptable lines that comes back to a page and leaves out one byte it had put there fails, whatever was on the flash |
| FirmwareReceive.ReturningFileFails | components/firmware_update/firmware_receive.c:64-99 | the four lines that write a byte, leave its page and return for another byte of it without the first one are such a file on erased flash |
| FirmwareReceive.Receiver.Line | components/firmware_update/firmware_receive.c:120-171 | one line does to the transfer what its record says, or spoils it for good; on a flash that was not held off and whose pages can be programmed it fails to write exactly when the page asks for a bit back; a write error means held off, out of place, or the page was programmed and reads back otherwise; only the staging region is written |
| FirmwareReceive.Receiver.PlaceByte | components/firmware_update/firmware_receive.c:64-99 | below the base, past the region, or placed there and nowhere else; a write can fail only when another page had to go out first and, with the flash undisturbed, exactly when that page does not land |
| FirmwareReceive.Receiver.FlushPage | components/firmware_update/firmware_receive.c:40-53 | the page in hand is programmed once and goes out whole, failing with the flash undisturbed exactly when it does not land; a clean page is not programmed and never fails |
| FirmwareReceive.Receiver.Flush | components/firmware_update/firmware_receive.c:101-118 | the same between lines, failing only with a page in hand |
| FirmwareReceive.CompleteMeansStaged | components/firmware_update/firmware_receive.c:120-171 | a transfer that reported complete has staged the image its lines ask for, exactly when untouched pages were erased; and, never flushed by hand, every visit landed |
| FirmwareReceive.PlacedInOrder | components/firmware_update/firmware_receive.c:64-99 | the bytes of an acceptable record go one after another from its address on, in order and no others |
| FirmwareReceive.RefusedIffOutside | components/firmware_update/firmware_receive.c:67-74 | and a record is refused exactly when some byte of it lies outside the region |
| FirmwareReceive.RefusedForFirst | components/firmware_update/firmware_receive.c:64-74 | for the first such byte, as below the base or as past the region, the bytes before it having been placed |
| FirmwareReceive.StartAddressTaken | components/firmware_update/firmware_receive.c:120-171 | a start-address line is taken and places nothing |
| ImageFormat.HeaderRoundTrip | components/firmware_update/firmware_image.c:18-76 | a header written is a header accepted, field for field |
| ImageFormat.AcceptedIsWritten | components/firmware_update/firmware_image.c:53-76 | whatever passes every check is what writing its own fields gives |
| ImageFormat.HeaderAcceptedIff | components/firmware_update/firmware_image.c:53-76 | a header is accepted exactly when its first eight bytes are the magic, version and length, its size is from one byte to eight megabytes and its last word is its checksum, byte by byte |
| ImageFormat.ErasedHeaderRejected | components/firmware_update/firmware_image.c:61-63 | erased flash is not a header |
| ImageFormat.DamagedImageHeaderRejected | components/firmware_update/firmware_image.c:53-76 | a header changed within four consecutive bytes is refused |
| ImageFormat.DamagedPayloadRejected | components/firmware_update/firmware_image.c:78-89 | so is a payload |
| Manifest.RecoverIff | components/firmware_update/firmware_service.c:75-153 | where the manifest is honest, start-up takes up an image exactly when it is valid, and the image is one that was verified, all there in staging |
| Manifest.RecoverSound | components/firmware_update/firmware_service.c:75-104 | whatever start-up takes up, staging has that checksum over that many bytes |
| Manifest.ManifestWords | components/firmware_update/firmware_service.c:33-57 | the manifest of an image holds its size, its checksum twice and the start of flash |
| Manifest.ChangedStagingNotRecovered | components/firmware_update/firmware_service.c:67-104 | a valid manifest over staging that has since changed within four consecutive bytes is not taken up |
| Manifest.ManifestOpHonest | components/firmware_update/firmware_service.c:33-65 | an operation on the manifest cut anywhere leaves it honest if it was before and would be after |
| Manifest.EraseManifestHonest | components/firmware_update/firmware_service.c:59-65 | erasing it passes from honest to absent with nothing between |
| Manifest.WriteManifestHonest | components/firmware_update/firmware_service.c:33-57 | writing it for what staging holds is honest at every point |
| Manifest.ElsewhereHonest | components/firmware_update/firmware_service.c:214-277 | work on staging without a manifest, or elsewhere with one, keeps it honest |
| Manifest.ThroughoutBoth | components/firmware_update/firmware_service.c:33-57 | two runs of operations safe one after the other are safe as one |
| FirmwareService.FirmwareService.constructor | components/firmware_update/firmware_service.c:120-153 | on any chip that could be divided, verified exactly when the manifest is valid and staging still has its checksum; on one whose manifest is honest, exactly when it is valid; the state start-up has in the machine of whole runs |
| FirmwareService.FirmwareService.ManifestMatchesStaging | components/firmware_update/firmware_service.c:75-104 | the header, the size, and the checksum of what staging now holds |
| FirmwareService.FirmwareService.CmdBegin | components/firmware_update/firmware_service.c:214-277 | whatever happens nothing stays verified; it succeeds exactly for a size that fits and a flash not held off, clearing the manifest and then that much of staging, and starts a fresh transfer; every cut is safe; a step of that machine |
| FirmwareService.FirmwareService.LineFilter | components/firmware_update/firmware_service.c:159-208 | claims exactly the lines that start a record and takes each into a transfer as the receiver's line specification says; receiving ends with the transfer; every cut is safe; a step of that machine, or none for a line it does not take |
| FirmwareService.FirmwareService.CmdVerify | components/firmware_update/firmware_service.c:303-350 | succeeds exactly when a complete image in staging has that checksum; the manifest then describes it, with the flash not held off and an image of a size a header may have; staging is untouched and every cut is safe; a step of that machine, agreeing or differing |
| FirmwareService.FirmwareService.CmdApply | components/firmware_update/firmware_service.c:353-385 | refuses what is unverified, empty or too large; otherwise the application region holds the verified image and nothing outside that region has changed; a step of that machine, or nothing |
| FirmwareService.CompleteTransferIsTheImage | components/firmware_update/firmware_service.c:214-350 | a transfer begun with room for its image stages exactly what its lines ask for |
| UpdateRuns.RunIsSafe | components/firmware_update/firmware_service.c:59-385 | over every run of begins, lines that leave a transfer going, complete or spoilt, verifications that agree or differ, and installs, each of them refused or cut anywhere, and reboots: start-up takes up an image exactly if there is a manifest, and then one that has passed verification and lies whole in staging; and what the last finished install put in place has passed verification and is still there |
| UpdateRuns.CourseRuns | components/firmware_update/firmware_service.c:159-385 | from any state, an image that fits can be begun, received, verified and installed in one session, and is then in place |
| FirmwareService.ServiceIsSafe | components/firmware_update/firmware_service.c:59-385 | a valid service is a state of that machine that satisfies its invariant |
| UpdateRuns.CommandedKeepsInv | components/firmware_update/firmware_service.c:59-385 | and whatever a command leaves, done or refused, satisfies it again |
| UpdateRuns.Sent | components/firmware_update/firmware_service.c:59-385 | a command whose operations, or the first of them, have been sent to the chip is a step of the machine |
| UpdateRuns.StepKeepsInv | components/firmware_update/firmware_service.c:59-385 | each of those events keeps the manifest honest, and the verified and the installed image where they are |
| UpdateRuns.BeginHonest | components/firmware_update/firmware_service.c:214-277 | clearing up for a transfer, cut anywhere: the old manifest whole over untouched staging, or none |
| UpdateRuns.VerifyHonest | components/firmware_update/firmware_service.c:303-350 | rewriting the manifest, cut anywhere: the old one whole, none, or the new one whole |
| UpdateRuns.FreshStart | components/firmware_update/firmware_service.c:120-153 | a chip without a manifest, freshly started, is where a run can begin |
| FirmwareApply.Apply | components/firmware_update/firmware_apply.c:84-104 | sector by sector the destination becomes the source, and nothing else is touched |
| SerialUpdate.SenderAgreesIff | scripts/serial_update.py:39-104 | for every file the device takes, when the sender raises, and that its image is the device's exactly when no record without data lies past the device's end |
| SerialUpdate.SenderAgrees | scripts/serial_update.py:39-104 | without records that carry no data, one image and one checksum on both sides |
| SerialUpdate.EmptyRecordPartsThem | scripts/serial_update.py:80-83 | a file with such a record on which the two sides disagree |
| SerialUpdate.LinesAlike | scripts/serial_update.py:51-95 | line by line both sides have the same bytes at the same offsets, the same base and the same end of file |
| SerialUpdate.LineReadsAlike | scripts/serial_update.py:52-72 | a line the device takes decodes to the same bytes for the sender |
| SerialUpdate.RecordBytesAlike | scripts/serial_update.py:78-82 | the bytes of a record land alike, for an address that would wrap is refused |
| SerialUpdate.ParseHex | scripts/serial_update.py:39-104 | the loops over lines, bytes and chunks compute the sender's image |
| CliEditor.ScreenAgrees | components/cli/cli.c:428-697 | after every character of every input, with echo on and the line not raw, the row reads the line with the cursor in its place and never steps into the prompt |
| CliEditor.KeyTable | components/cli/cli.c:643-697 | every character outside an escape by its code: backspace and delete take the character before the cursor, other codes below 32 change neither half of the line, anything else goes in at the cursor or, without room, marks the line overlong |
| CliEditor.EscapeTable | components/cli/cli.c:632-680 | every character inside one by its code: a bracket and then a letter, left and right by one character, everything else dropped |
| CliEditor.RecallTable | components/cli/cli.c:572-641 | up is an older line and down a newer one, the newest of all being none, and past either end nothing moves |
| CliEditor.RememberedIff | components/cli/cli.c:522-539 | a line that is neither raw, empty nor overlong is remembered as the newest and pushes out the oldest of too many; any other leaves the history as it was |
| CliEditor.EndingPrints | components/cli/cli.c:606-627 | what a line's end prints: the complaint about an overlong line, the answer to one that is not blank, and the prompt unless a filter has taken the line |
| CliEditor.EditInStep | components/cli/cli.c:643-697 | any character that does not end a line keeps buffer and terminal together |
| CliEditor.InsertInStep | components/cli/cli.c:488-511 | an insertion anywhere redraws the tail and comes back |
| CliEditor.RuboutInStep | components/cli/cli.c:428-456 | so does a rubout, blanking the stale cell |
| CliEditor.ReplaceInStep | components/cli/cli.c:543-563 | a recalled line wipes all of the old one first |
| CliEditor.EndLineSane | components/cli/cli.c:606-627 | a line ending leaves an empty line on a row of its own |
| CliEditor.RuboutUndoesInsert | components/cli/cli.c:428-511 | rubbing out what was typed gives the line back |
| CliEditor.RightUndoesLeft | components/cli/cli.c:459-481 | cursor moves undo each other and never change the line |
| CliEditor.LeftUndoesRight | components/cli/cli.c:459-481 | and the other way round |
| CliEditor.RecallBringsBack | components/cli/cli.c:522-600 | the up arrow brings back the line just entered, cut to what the buffers hold |
| CliEditor.OlderThenNewer | components/cli/cli.c:572-600 | older and newer lines come in the order they were entered |
| CliEditor.RawIff | components/cli/cli.c:643-697 | after any input the line is raw exactly when, since it began, the prefix has come while it was empty with no escape sequence under way |
| CliEditor.RawOutlivesItsPrefix | components/cli/cli.c:690-696 | so it stays raw and unechoed even when its prefix has been rubbed out |
| Cli.Cli.FeedChar | components/cli/cli.c:643-697 | the interpreter's buffer, flags, history and output are those of the editor machine, and the lines it hands on are exactly the lines typed |
| Cli.Cli.InsertCharAtCursor | components/cli/cli.c:488-511 | moving the tail up in place inserts at the cursor, or notes the overflow |
| Cli.Cli.HandleBackspace | components/cli/cli.c:428-456 | moving it down in place removes to the left of the cursor |
| Cli.Cli.HistoryPush | components/cli/cli.c:522-539 | the ring of fixed slots holds the newest lines, each cut to its slot |
| Cli.Cli.HistoryRecall | components/cli/cli.c:572-600 | the slot index reached by wrapping is the line that many back |
| Cli.Cli.HandleEndOfLine | components/cli/cli.c:606-627 | what is remembered, answered, handed on and prompted at a line's end |
| Cli.RingPushed | components/cli/cli.c:522-539 | stepping the head on makes every line one older and drops the oldest of a full ring |
| Cli.Cli.NextToken | components/cli/cli.c:118-140 | the token is cut out of the buffer where it stands, terminated, and the rest remains to be read |
| CliTokens.TokensKeepEverything | components/cli/cli.c:111-140 | tokens are never empty, hold no separator and between them hold everything else |
| CliTokens.TokensRoundTrip | components/cli/cli.c:111-140 | arguments written with any separators between them are read back as they were |
| JsonDocs.ValidIff | components/json/json.c:15-159 | the valid texts are exactly the spellings of documents nested no deeper than sixteen levels, with any white space in any gap, numbers with any of their parts and strings with any escapes |
| JsonDocs.SpelledIsValidIff | components/json/json.c:429-442 | every such document, whatever stands in its gaps, is valid exactly when it nests no deeper than sixteen levels |
| JsonDocs.DocSkipped | components/json/json.c:98-159 | wherever it stands, the scanner steps over each document up to the limit and not one character further, and refuses each nested deeper |
| JsonDocs.ValueRead | components/json/json.c:98-159 | and whatever the scanner steps over is the spelling of such a document |
| JsonDocs.NumberSkipped | components/json/json.c:52-80 | a number is a sign, digits, a fraction and an exponent, any of them missing, that end in a digit |
| JsonDocs.TextSkipped | components/json/json.c:24-45 | a string runs to the first quote that no backslash covers |
| JsonLookups.MemberFoundIff | components/json/json.c:322-405 | a key is found, after any white space and whatever follows the object, as the text of its first member of that name however the name is spelled, and not at all when there is none or the object nests too deep |
| JsonLookups.FoundIff | components/json/json.c:322-405 | in any text at all a key is found exactly when the text begins with such an object that has it |
| JsonLookups.ElementFoundIff | components/json/json.c:550-618 | an array has as many elements as stand in it, and each is found by its place and no other |
| JsonLookups.UnescapedIff | components/json/json.c:200-261 | a string body stands for a text exactly when its pieces do: characters, the eight letters after a backslash, and codes of four hexadecimal digits up to 127 |
| JsonLookups.StringReadIff | components/json/json.c:522-537 | and is read as that text exactly when it fits with its terminator |
| JsonLookups.IntReadIs | components/json/json.c:449-511 | a number is read as the whole number before its fraction when that fits 32 bits with a sign; not when there are no digits there, nor when an exponent follows them directly |
| JsonLookups.ExponentRefusedIff | components/json/json.c:486-496 | so an exponent is refused exactly when no fraction comes before it |
| JsonLookups.ExponentSlipsThrough | components/json/json.c:486-496 | 1.5e3 is read as one, while 15e2 is refused |
| JsonPrinted.PrintedIsSpelled | components/json/json.c:641-856 | what the writer writes spells a document, which nests as deep as the value does |
| JsonPrinted.WrittenTable | components/json/json.c:676-705 | every character inside quotes by its code: seven letters, two lower-case hexadecimal digits, or as it is |
| JsonPrinted.WrittenNumber | components/json/json.c:785-799 | decimal digits worth the number, of which only zero begins with a zero |
| JsonPrinted.WrittenExample | components/json/json.c:641-856 | one whole document to the character |
| JsonPrinted.PrintedIsValidIff | components/json/json.c:98-159 | what is written for a value is a valid document exactly when it nests within the limit, which is the writer's own |
| JsonPrinted.PrintedFound | components/json/json.c:322-405 | a key is looked up to exactly the text of its first member, quotes and braces included |
| JsonPrinted.GetIntRoundTrip | components/json/json.c:449-511 | every 32-bit integer written is the integer read |
| JsonPrinted.GetStringRoundTrip | components/json/json.c:522-537 | every string written is the string read, given room for it and its terminator |
| JsonText.EscapeRoundTrip | components/json/json.c:200-261 | unescaping undoes escaping, control characters included |
| JsonText.DigitsRoundTrip | components/json/json.c:785-799 | decimal digits are read back as their number |
| JsonRoundTrip.ValuesRoundTrip | components/json/json.c:429-618 | reading any written value gives the value, of every kind; each member of an object is found by its name and each element of an array by its place |
| JsonPrinted.PrintedElements | components/json/json.c:550-618 | an array that was written has as many elements as went in, each exactly the text of its value |
| JsonFind.FoundBoolIsWord | components/json/json.c:513-520 | any member or element found in any text at all is a whole value of its kind, so that a boolean read out of it, on the strength of one letter, is the word true or false that stands there |
| JsonReader.JsonArrayLength | components/json/json.c:550-577 | the elements stepped over one by one |
| JsonReader.JsonArrayAt | components/json/json.c:579-618 | the element that many further on, or none |
| JsonRoundTrip.FoundStringIsQuoted | components/json/json.c:389-393 | the slice found for a string keeps both its quotes |
| JsonRoundTrip.Exchange | components/json/json.c:322-857 | an object written into a buffer and asked for a member: success exactly when the text fits, then the first member of that name |
| JsonReader.WalkItems | components/json/json.c:98-142 | the container loop ends where the grammar says |
| JsonReader.WalkValue | components/json/json.c:144-159 | and so does the dispatch on a value's first character |
| JsonReader.JsonFindN | components/json/json.c:322-405 | the search loop finds the first whole key that matches, in an object that closes |
| JsonReader.UnescapeInto | components/json/json.c:200-261 | the unescaped text, refused when malformed or longer than its buffer |
| JsonReader.EscapedEquals | components/json/json.c:283-307 | true exactly when the text unescapes to the one expected |
| JsonReader.JsonGetInt | components/json/json.c:449-511 | sign, digits, dropped fraction and refused exponent, stopped as soon as 32 bits are passed |
| JsonWriter.Writer.Put | components/json/json.c:658-667 | what fits is kept in order, one place is always held back, and an overflow is never forgotten |
| JsonWriter.Writer.WriteInt | components/json/json.c:775-800 | the sign and digits of any 32-bit integer, the least of them included |
| JsonWriter.Writer.Finish | components/json/json.c:845-856 | succeeds exactly when nothing was malformed, all is closed and the text with its terminator fits |
| JsonWriter.WriteValue | components/json/json.c:641-856 | matching calls for a value write its text, or mark the document malformed if it nests too deep |
| JsonWriter.WriteDocument | components/json/json.c:641-856 | a document is finished exactly when it nests no deeper than the limit and fits |
| RingProtocol.ConsumedIsPrefix | components/ring_buffer/ring_buffer.c:61-189 | under every interleaving of index reads, byte copies and index publications, what is taken is a prefix of what was accepted and the rest is in the buffer in order |
| RingProtocol.SlotsApart | components/ring_buffer/ring_buffer.c:76-164 | what the producer writes holds nothing, what the consumer copies has been published |
| RingProtocol.StepKeepsInv | components/ring_buffer/ring_buffer.c:61-189 | each step of either side keeps that |
| RingRuns.WriteActs | components/ring_buffer/ring_buffer.c:61-106 | a write or a push left alone is a run of the shared protocol's steps, one byte stored after another and then the index |
| RingRuns.ReadActs | components/ring_buffer/ring_buffer.c:122-189 | so is a read or a pop, passing on the oldest bytes with every one of them read |
| RingRuns.PeekActs | components/ring_buffer/ring_buffer.c:112-164 | so is a peek, passing on nothing |
| RingRuns.DropActs | components/ring_buffer/ring_buffer.c:166-196 | so is a discard or a clear, passing on bytes unread |
| RingRuns.LaidInRuns | components/ring_buffer/ring_buffer.c:76-106 | bytes copied in one run or two are bytes laid one after another |
| RingBuffers.RingBuffer.Write | components/ring_buffer/ring_buffer.c:76-106 | as much as fits is queued behind what is there, in at most two runs that come to the same as the protocol's single bytes |
| RingBuffers.RingBuffer.Push | components/ring_buffer/ring_buffer.c:61-74 | one byte, refused exactly when full; a run of the protocol |
| RingBuffers.RingBuffer.Pop | components/ring_buffer/ring_buffer.c:122-134 | the oldest byte; a run of the protocol |
| RingBuffers.RingBuffer.PeekBytes | components/ring_buffer/ring_buffer.c:136-164 | the oldest bytes, left in place |
| RingBuffers.RingBuffer.Discard | components/ring_buffer/ring_buffer.c:166-183 | the oldest bytes let go |
| RingBuffers.RingBuffer.Read | components/ring_buffer/ring_buffer.c:185-189 | the oldest bytes, taken; a run of the protocol |
| Ring.HeadMoved | components/ring_buffer/ring_buffer.c:90-105 | moving the head takes in what was stored beyond it after what was there, wherever it wraps |
| Ring.TailMoved | components/ring_buffer/ring_buffer.c:166-183 | moving the tail drops exactly the oldest |
| CanFrames.RecordRoundTrip | components/can_frame/can_frame.c:109-170 | a record decodes to its frame, data past the length and of remote frames zeroed |
| CanFrames.ValidIff | components/can_frame/can_frame.c:5-9 | a message is valid exactly with up to eight bytes and an identifier of eleven bits, or of twenty-nine |
| CanQueues.CanQueue.Push | components/can_frame/can_frame.c:109-143 | a whole frame or none: a full queue counts the loss and writes not one byte |
| CanQueues.CanQueue.Pop | components/can_frame/can_frame.c:145-170 | the oldest frame accepted, in order |
| CanQueues.CanQueue.Count | components/can_frame/can_frame.c:172-178 | the frames waiting |
| Streams.TcpStream.Flush | components/tcp/tcp_stream.c:72-121 | segments are offered from the front of the queue, each all that fits, until one is refused in part, the room is filled or nothing is left; what the link gets is exactly what was queued, in order, and it is given up exactly as far as the link took it |
| Streams.TcpStream.SendSegment | components/tcp/tcp_stream.c:78-109 | one segment offered as it stands at the front, and as much of it let go as was taken, however much the link claims |
| Streams.TcpStream.Write | components/tcp/tcp_stream.c:46-62 | what fits is queued, what does not is counted |
| Streams.TcpStream.OnReceived | components/tcp/tcp_stream.c:131-149 | all of a segment or none of it |
| Streams.TcpStream.SetConnected | components/tcp/tcp_stream.c:27-44 | a new session hears nothing of the last; a closed one can still be read |
| Streams.SentMore | components/tcp/tcp_stream.c:104-109 | giving up exactly what the link took keeps what was written equal to what was sent and what is queued |
| Streams.OneMore | components/tcp/tcp_stream.c:78-116 | one more segment in turn keeps the offers in order and within the room |
| Streams.ChunkIsLeast | components/tcp/tcp_stream.c:78-92 | a segment is all that is pending, or all there is room for, or 512 bytes, and never more than any of them |
| Streams.BtStream.OnCanSend | components/bluetooth/bt_stream.c:78-125 | exactly one packet is offered, of all that fits it, and the link gets what it takes from the front of the queue; nothing at all is offered with no peer, no room or nothing queued |
| Streams.BtStream.OnReceived | components/bluetooth/bt_stream.c:127-138 | what fits is stored whether or not a peer is attached |
| Streams.StartsCleanIff | components/bluetooth/bt_stream.c:27-43 | over every run, a peer that arrives finds nothing waiting exactly when all stored since the last one left has been read |
| Streams.HeardBetweenPeers | components/bluetooth/bt_stream.c:127-138 | a byte heard between two peers is the first the second reads |
| Streams.BtStream.SetConnected | components/bluetooth/bt_stream.c:27-43 | leaving clears both directions, arriving clears none |
| CanFilters.PlanCleans | components/mcp2515/mcp2515_filters.c:44-92 | for every list the controller can express, loaded with its plan it takes exactly the frames that the filters, their identifiers cut to what a register keeps, would take in software |
| CanFilters.PlanExact | components/mcp2515/mcp2515_filters.c:44-92 | so it takes exactly what the filters in software take, as long as no mask compares a bit its register drops |
| CanFilters.PlanMissesNothing | components/mcp2515/mcp2515_filters.c:44-92 | and it never misses a frame the filters in software take, whatever the list |
| CanFilters.SlotExactIff | components/mcp2515/mcp2515_frame.c:9-37 | one filter register under its mask agrees with its filter in software on every frame exactly when the mask compares no bit the register drops |
| CanFilters.SlotExact | components/mcp2515/mcp2515_frame.c:9-37 | then it takes exactly the frames its filter matches, whatever the data bytes |
| CanFilters.SlotCleans | components/mcp2515/mcp2515_frame.c:9-37 | in any case it takes what the identifier cut to its width matches |
| CanFilters.UnfaithfulMatchesNothing | components/can_frame/can_frame.c:45-53 | a filter that compares a dropped bit matches no frame there can be |
| CanFilters.BitBeyondWidth | components/can_frame/can_frame.c:45-53 | such a filter, which a register takes for identifier zero |
| CanFilters.MatchesParts | components/can_frame/can_frame.c:45-53 | in software a filter compares the frame type, a spare bit of its own and, under the mask, the identifier |
| CanFilters.SameSplit | components/can_frame/can_frame.c:45-53 | agreement under a mask is agreement of the parts under the parts |
| CanFilters.SlotOfPlan | components/mcp2515/mcp2515_filters.c:66-91 | a slot and its bank, loaded for a filter, accept what that filter matches once cut to its width |
| CanFilters.PlanLoads | components/mcp2515/mcp2515_filters.c:66-91 | each slot holds a filter of the list under the mask and the layout that are that filter's own |
| CanFilters.EverySourceUsed | components/mcp2515/mcp2515_filters.c:66-91 | every filter given has a slot |
| CanFilters.FilterPlan | components/mcp2515/mcp2515_filters.c:44-92 | the loops fill that plan, or none for a list the controller cannot express |
| CanFilters.PlanGivenIff | components/mcp2515/mcp2515_filters.c:13-42 | a plan is given exactly for up to six filters, the first two of one mask and kind and the other four of one, whose masks compare the kind of frame and not whether it is remote |
| CanFilters.FiltersAreValid | components/mcp2515/mcp2515_filters.c:13-42 | count, masks and frame types, bank by bank |
| CanFilters.CheckFilters | components/can_frame/can_frame.c:55-72 | any filter, or no filters at all |
| CanFilters.HeaderRoundTrip | components/mcp2515/mcp2515_frame.c:39-67 | a header packed and unpacked is the message without its data |
| CanFilters.PackRoundTrip | components/can_frame/can_frame.c:11-30 | identifier and flags packed and unpacked are themselves |
| CanFilters.PackedBits | components/can_frame/can_frame.c:19-30 | the identifier with its two flags, by value |
| CanFilters.RegisterBytes | components/mcp2515/mcp2515_frame.c:9-26 | the four register bytes of an identifier, field by field |
| CanFilters.HeaderRead | components/mcp2515/mcp2515_frame.c:48-68 | any five bytes read as a header, a length field over eight meaning eight |
| BitTiming.ComputeBitTiming | components/mcp2515/mcp2515_timing.c:112-137 | registers are found exactly when some quanta and prescaler give the rate exactly; they decode to legal segments so shared out and to the quanta nearest sixteen |
| BitTiming.FindNtqAndBrp | components/mcp2515/mcp2515_timing.c:31-69 | the search misses nothing and keeps the nearest, the shorter of two as near |
| BitTiming.SplitSegments | components/mcp2515/mcp2515_timing.c:78-110 | three segments in range that make up the bit, the third the longest allowed within a quarter of what follows the sync quantum, or the shortest allowed when none is, and the other two equal or one apart |
| BitTiming.TestedIff | components/mcp2515/mcp2515_timing.c:35-54 | the divisibility tests stand for the product they look for |
| PwmTiming.FrequencyExact | components/pwm/pwm_timing.c:36-68 | the divider is the least that reaches the period and the period is nearest it to within half a divider |
| PwmTiming.RefusalsExact | components/pwm/pwm_timing.c:36-56 | too fast means that every period the registers can hold is longer than the one asked for, and too slow that every one is shorter |
| PwmTiming.PeriodAsked | components/pwm/pwm_timing.c:37-37 | the period asked for is the nearest number of sixteenths of a clock tick |
| PwmTiming.DutyMonotone | components/pwm/pwm_timing.c:96-111 | more duty is never less level, none is none and all is past the wrap |
| PwmTiming.NoOverflow | components/pwm/pwm_timing.c:96-111 | in 32 bits without overflow |
| PwmTiming.DutyNearest | components/pwm/pwm_timing.c:96-111 | to within half a count |
| PwmTiming.PulseNearest | components/pwm/pwm_timing.c:113-137 | a pulse is within half a count below the clamp while the sum fits 64 bits |
| PwmTiming.PulseExactIff | components/pwm/pwm_timing.c:126-136 | and otherwise right exactly when what is left after wrapping reaches the clamp |
| PwmTiming.SlowClocksFit | components/pwm/pwm_timing.c:126-127 | which no clock below 2^28 Hz needs |
| PwmTiming.LongPulseVanishes | components/pwm/pwm_timing.c:126-136 | a pulse that wraps to nothing |
| LightFades.FadeShows | apps/home_led/light.c:125-157 | however ticks arrive, a fade shows exactly what its latest sample calls for, across the clock's wrap, ignoring samples from before it began |
| LightFades.FadeNeverGoesBack | apps/home_led/light.c:125-157 | so it never goes back, never overshoots and ends exactly at its target |
| LightFades.EaseMonotone | apps/home_led/light.c:73-98 | the cubic with one division is monotone from nothing to all |
| LightFades.EaseIsCubic | apps/home_led/light.c:73-98 | and is 3t^2 - 2t^3 over 1024 steps, rounded down |
| LightFades.EasesAtBothEnds | apps/home_led/light.c:73-98 | so it sets off slowly and arrives as it set off |
| LightFades.FadesEased | apps/home_led/light.c:151-156 | a quarter of the way through its time a fade has come 160 parts in 1024 of its way, and halfway through half |
| LightFades.FadeStarts | apps/home_led/light.c:110-123 | a fade to what is showing, or that is to take no time, is over at once; any other is to be worked off |
| LightFades.ValueMonotone | apps/home_led/light.c:151-156 | and so is the value shown, in either direction |
| LightFades.StartsWhereShowing | apps/home_led/light.c:110-123 | a new fade starts from the value then showing |
| LightFades.TickFitsInt32 | apps/home_led/light.c:156-156 | the product of a tick fits 32 bits |
| LightFades.Light.SetPower | apps/home_led/light.c:192-211 | off at once, on always as the fixed fade from black |
| LightFades.Light.SetBrightness | apps/home_led/light.c:213-222 | a fade to the new value from the one showing |
| LightFades.Light.SetMireds | apps/home_led/light.c:244-266 | clamped, with exactly the fade and the generation that go with it |
| LightFades.Light.CurrentBrightness | apps/home_led/light.c:350-359 | the clamp to a byte never acts |
| LightFades.Light.CurrentMireds | apps/home_led/light.c:361-376 | nor the one to the range of temperatures |
| Publication.PublishedMeansCurrent | apps/home_led/net.c:58-208 | over every run, once a cycle has completed and fewer than 2^32 changes since, generations that look published mean all three topics are current |
| Publication.StepKeepsInv | apps/home_led/net.c:58-208 | each event keeps what the topics carry tied to the edit it was taken at |
| Publication.WrappedLooksPublished | apps/home_led/net.c:112-116 | after exactly 2^32 changes a stale topic passes for current |
| Publication.NothingPublishedYet | apps/home_led/main.c:51-54 | before any cycle everything looks published with nothing sent |
| Publication.CycleEndsAmidst | apps/home_led/net.c:58-208 | whatever changes, drops and announcement polls come in between, a cycle ends with the first poll after its third acceptance, having promised what it promised at its start |
| Publication.CycleEnds | apps/home_led/net.c:73-121 | with nothing in between, refusals cost only time |
| Publication.QuietCyclePublishes | apps/home_led/net.c:58-121 | a cycle left alone leaves all three topics current |
| Publication.AnnouncementSends | apps/home_led/net.c:152-213 | over every run from the start of a session, whatever is refused, changed or dropped, once its announcement is over a whole cycle of that session has been completed, so that with nothing edited since all three topics are current |
| Publication.AnnouncementEndsIff | apps/home_led/net.c:73-208 | left to its polls, an announcement is over after exactly ten that get on: four documents, the start of the cycle, three messages, its end and the end of the wait |
| Publication.OneGetsOn | apps/home_led/net.c:73-208 | and until then one of the two polls, if accepted, does |
| Publication.NinePasses | apps/home_led/net.c:305-317 | so with nothing refused it takes nine passes of the main loop and no fewer |
| Publication.Publisher.PollStatePublish | apps/home_led/net.c:73-121 | one poll does what the machine's step does |
| Publication.Publisher.PollAnnouncement | apps/home_led/net.c:166-208 | so does one poll of the announcement |
| Publication.Publisher.PublishState | apps/home_led/net.c:58-71 | what a cycle promises is settled before its first message |
| CliEditor.ArrowKeys | components/cli/cli.c:632-680 | an arrow key is three characters, of which only the last does anything |
| CliEditor.CrLfEndsOneLine | components/cli/cli.c:643-664 | a carriage return and its line feed end one line |
| Cli.Cli.CursorLeft | components/cli/cli.c:459-468 | one character left, the line unchanged |
| Cli.Cli.CursorRight | components/cli/cli.c:472-481 | one right, by echoing the character there |
| Cli.Cli.ReplaceLine | components/cli/cli.c:543-563 | the new text in the buffer and on the row, cut to the buffer |
| Cli.Cli.HandleEscapeLetter | components/cli/cli.c:632-641 | the four arrows, anything else dropped |
| Cli.Cli.ExecuteLine | components/cli/cli.c:337-393 | a line of separators goes nowhere; any other is offered whole before it is cut |
| Cli.Cli.ResetLine | components/cli/cli.c:406-421 | an empty line that is neither raw, overlong nor browsing |
| Cli.Cli.SkipSeparators | components/cli/cli.c:111-116 | the cursor stops at the first character that is none |
| Cli.Cli.constructor | components/cli/cli.c:718-778 | an accepted configuration starts with an empty line and no history |
| HexParser.RefusedChangesNothing | components/hex_parser/hex_parser.c:104-196 | a line that is refused, for whatever reason, changes nothing |
| HexParser.NothingAfterEnd | components/hex_parser/hex_parser.c:104-196 | after the end mark every record that sums is refused as coming after it, and no line is taken |
| HexParser.BaseHolds | components/hex_parser/hex_parser.c:66-88 | a base, linear or segmented, holds for every data record until the next, whatever other lines come between |
| HexParser.Parser.Reset | components/hex_parser/hex_parser.c:15-20 | a fresh parser |
| FirmwareReceive.Receiver.constructor | components/firmware_update/firmware_receive.c:18-37 | a transfer with nothing placed |
| FirmwareReceive.Receiver.ResetPage | components/firmware_update/firmware_receive.c:11-16 | a page of erased bytes at its new place |
| FirmwareReceive.Receiver.WritePage | components/firmware_update/firmware_service.c:110-118 | programmed once and read back, in staging only; the chip is left alone exactly when the write is refused out of hand or the chip cannot be held still, and otherwise it fails exactly when the page reads back otherwise |
| FirmwareService.FirmwareService.ManifestWrite | components/firmware_update/firmware_service.c:33-57 | it succeeds exactly for a size a header may have and a flash not held off, and the manifest then describes what staging holds; every cut is safe |
| FirmwareService.FirmwareService.ManifestInvalidate | components/firmware_update/firmware_service.c:59-65 | it succeeds exactly with the flash not held off, and there is then no manifest; every cut is safe |
| FlashStorage.Flash.Data | components/flash_storage/flash_storage.c:171-178 | a window onto a region, or nothing when it reaches outside |
| FlashStorage.Flash.IsErased | components/flash_storage/flash_storage.c:180-194 | true only in bounds, and there exactly when every byte reads erased |
| ConfigStore.Store.Init | components/persistent_config/config_store.c:47-61 | an empty store over the buffer given |
| ConfigStore.Store.SetU32 | components/persistent_config/config_store.c:241-251 | a set of the four little-endian bytes |
| ConfigStore.Store.GetU32 | components/persistent_config/config_store.c:253-290 | those four bytes as a number, or how they are missing or of another length |
| ConfigStore.Store.SetString | components/persistent_config/config_store.c:292-305 | a set of the text without its terminator |
| ConfigStore.Store.Clear | components/persistent_config/config_store.c:230-235 | no records |
| PersistentConfig.PersistentConfig.ReadSlotAt | components/persistent_config/persistent_config.c:58-87 | what one slot holds, under both checksums |
| JsonReader.WalkString | components/json/json.c:24-45 | past the closing quote, an escape hiding what follows it |
| JsonReader.WalkNumber | components/json/json.c:52-80 | past a number that ends in a digit |
| JsonReader.WalkWord | components/json/json.c:82-93 | past the whole word or nothing |
| JsonReader.WalkContainer | components/json/json.c:98-110 | refused at the depth limit, past the bracket when empty |
| JsonReader.JsonValid | components/json/json.c:429-442 | one complete value and nothing but white space after it |
| JsonReader.JsonGetString | components/json/json.c:522-537 | the text without its quotes, unescaped, if it fits with its terminator |
| JsonWriter.Writer.PutEscaped | components/json/json.c:676-705 | each character as it is, by its letter, or by its code |
| JsonWriter.Writer.PutSeparator | components/json/json.c:708-719 | a comma if one is due, then the key |
| JsonWriter.Writer.Open | components/json/json.c:721-737 | one level deeper with no comma due, or malformed at the limit |
| JsonWriter.Writer.Close | components/json/json.c:739-753 | one level out with a comma due, or malformed at the top |
| JsonWriter.Writer.WriteBool | components/json/json.c:802-809 | true or false after its separator |
| JsonWriter.Writer.WriteString | components/json/json.c:820-834 | the text quoted and escaped, or null for none |
| JsonWriter.Writer.WriteRaw | components/json/json.c:811-843 | the text as given, or null for none |
| JsonWriter.WriteItems | components/json/json.c:708-843 | members one after another, only the first without a comma |
| RingBuffers.RingBuffer.Init | components/ring_buffer/ring_buffer.c:30-41 | empty, over a store of at least two bytes |
| RingBuffers.RingBuffer.Advance | components/ring_buffer/ring_buffer.c:21-28 | one turn of the store at most |
| RingBuffers.RingBuffer.CountOf | components/ring_buffer/ring_buffer.c:43-50 | how many bytes are waiting |
| RingBuffers.RingBuffer.FreeOf | components/ring_buffer/ring_buffer.c:52-55 | how many more would fit |
| RingBuffers.RingBuffer.Peek | components/ring_buffer/ring_buffer.c:112-120 | the oldest byte, left in place |
| RingBuffers.RingBuffer.Clear | components/ring_buffer/ring_buffer.c:191-196 | nothing waiting |
| CanQueues.CanQueue.Init | components/can_frame/can_frame.c:91-107 | a queue exactly when the storage holds one frame |
| CanQueues.CanQueue.Clear | components/can_frame/can_frame.c:188-193 | no frames, the count of losses kept |
| Streams.TcpStream.ReadBytes | components/tcp/tcp_stream.c:164-170 | the oldest input, taken |
| Streams.TcpStream.Read | components/tcp/tcp_stream.c:151-162 | one byte of it |
| Streams.BtStream.Write | components/bluetooth/bt_stream.c:45-68 | what fits is queued, what does not is counted, and all is lost with no peer |
| Streams.BtStream.Read | components/bluetooth/bt_stream.c:140-151 | the oldest byte of input |
| LightFades.Light.SetColor | apps/home_led/light.c:224-242 | the colour and its mode, and a generation only for a change |
| LightFades.Light.Tick | apps/home_led/light.c:335-342 | both fades take the sample, each staying in its range |
| Publication.Publisher.ChangeLight | apps/home_led/light.c:163-166 | every change of what is published is a new generation |
| Publication.Publisher.ChangeRange | apps/home_led/led_range.c:71-75 | a set that moves an endpoint is a new generation |
| Publication.Publisher.NetAnnounce | apps/home_led/net.c:152-164 | an announcement from its first step, any cycle under way dropped |
| Publication.Publisher.OnBrokerSession | apps/home_led/net.c:210-213 | every session begins with one |

## Left out

- NULL arguments, objects used before they are initialised, and commands with no handler.
- The size of a page as it lands: a page program or a page of an erase is atomic. A torn page would need the assumption that its checksum does not collide.
- DurableRuns.RunIsDurable: promises nothing of a run after power lost in an erasure has left the chip other than whole: a page there can keep its header over erased records, and only a checksum tells it from a whole one.
- PersistentConfig.PersistentConfig.Load: returns what was read and not the text that names a result.
- FlashStorage.Flash.Erase: does not model interrupts held off, the other core parked or code run from RAM; whether that can be arranged is an arbitrary answer, counted when it is no, and only its effect on the chip is here.
- Alternative layouts of the chip fixed at build time, and the zeroed layout left by one that cannot be computed, with which every command refuses.
- UpdateRuns.RunIsSafe: an install is whatever stays within the application and ends with the image in place, which is what FirmwareApply.Apply ensures; one cut short leaves a torn application, and the model does not say whether such a chip starts up.
- FirmwareApply.Apply: does not model the watchdog or the reset that follows, nor power lost during the copy, which leaves a torn application and, by FirmwareService.FirmwareService.CmdApply, an untouched manifest and staging region.
- FirmwareService.FirmwareService.LineFilter: does not model what is printed, here or in the commands.
- FirmwareService.FirmwareService.constructor: on a chip whose valid manifest does not match staging, or was written by someone else, start-up is modelled and no command after it.
- The 16-bit checksum, which nothing modelled here uses.
- Other writers of the data region while an update is under way.
- HexParser.Parser.Feed: takes its line as a value and not as terminated memory.
- SerialUpdate.ParseHex: does not model characters outside ASCII, the text of its errors, or the serial port.
- SerialUpdate.SenderAgreesIff: the lines reach the device as the sender strips them; how long a line its console takes is not bounded.
- Cli.Cli.FeedChar: what a filter or a command does is an arbitrary answer. Help, duplicate names at start-up and the poll's budget of characters are absent.
- Cli.Cli.ExecuteLine: does not model the lookup of the name that is cut out, nor what is printed when it is unknown; both are part of that answer.
- CliEditor.ScreenAgrees: the terminal is one row of any width and each byte is one cell.
- Numbers in command arguments: integers modulo 2^32 and binary floating point.
- JsonDocs.ValidIff: the grammar is the reader's, which is wider than the standard's: a plus sign, a point without digits around it, and control characters in strings.
- Arrays of integers read in one call, and raw text written by the caller.
- JsonReader.JsonGetBool: answers by the first letter alone, as the source does; JsonFind.FoundBoolIsWord is why that is enough for a value that was found.
- RingProtocol.ConsumedIsPrefix: a write may take less than would fit by the time it publishes, because it looks at the other index once; that it takes no more than fits is what is proved.
- Streams.TcpStream.Flush: the link's answers are arbitrary sixteen-bit counts, and what it took it keeps; connections, segments lost and lwIP itself are absent.
- CanFilters.PlanExact: a list in which some mask compares a bit its register drops is answered by CanFilters.PlanCleans and CanFilters.PlanMissesNothing; whether another filter of the list makes up for the difference depends on all of them.
- The receive buffers' rollover, the controller's SPI protocol, and its reset delay.
- PwmTiming.FrequencyExact: the frequency and period reported back from a timing are not modelled.
- Colour tables, gamma, effects, and colour temperature turned into colour.
- LightFades.FadeShows: the samples after a fade's start come in the order they were taken and within 2^31 milliseconds of it.
- Publication.PublishedMeansCurrent: a payload stands for the state it describes; whether a document fits is part of the broker's answer.
- Publication.Publisher.ChangeRange: does not model the clamping of endpoints, nor a set that moves neither, which changes nothing.
- Wi-Fi, MQTT, Bluetooth and UART drivers, servo and sensor protocols, and their retry policies.
