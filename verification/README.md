# Verified models of the Morse Micro IoT SDK

Five stateful parts of the SDK, modelled and proved in Dafny.

**Bootloader** (`Words`, `Mbin`, `MbinAcceptance`, `MbinBytes`, `SegmentBuffer`, `Flash`, `Loader`, `BootProtocol`,
`BootSafety`, `BootWear`, `BootLoss`,
`Bootloader`, `Clock`). Two levels. At the lower level the image loader and the flash commands
run in place on a file descriptor, two static buffers and a flash device whose every command may
fail and then leaves anything in its range. The loader is proved to accept exactly the encodings
of a container grammar, and its real run to do what its dry run said. At the upper level the
update protocol is a step relation over config keys, flash and program point, in which the power
may go between any two steps or inside a flash command. Invariants over all runs give crash
safety and bounded flash wear, and `main` as written is proved to be a run of that relation and to
make progress.

**SDIO driver** (`Sdio`, `SdioRead`, `SdioDriver`). Arbitrary reads and writes of 32-bit chip memory are split by 64 KiB
page, then into 512-byte blocks and a byte-mode tail, through window registers, with a second read
where the first two words look alike. The driver is proved to refine the copy of one range.

**Makefile fragments** (`MakeText`, `MakeExpand`, `MakeMacros`, `MakeUses`, `MakeBlocks`, `MakeFiles`, `MakeLines`,
`MakeParser`). The one-pass stack machine for nested `$(...)` is proved equal to recursive
evaluation of trees, and the line interpreter with its stack of conditions equal to a semantics of
nested blocks, for every input including ill-nested ones.

**Shadow demo** (`Shadow`). The MQTT callback and the shadow loop share an unlocked variable and a
semaphore that counts to one. The model is the interleaving of their single reads and writes.

**REST responses** (`Rest`). The life of a response buffer, from the opening of a file to its
close, as methods over a file object and a heap.

## Results that correct an expectation

- The loader's area test adds 32-bit numbers. Segments lie in the application area if and only if
  no end address leaves 32 bits (`MbinAcceptance.InAreaExactlyWhenNoWrap`); `MbinAcceptance.WrappedSegmentIsAccepted`
  is an accepted file that does not.
- The loader ignores the return value of `puff`, and `puff` leaves the length alone on a positive
  code, so a deflated record can flash bytes that the static segment buffer held before. What a file
  makes the loader flash is independent of the buffer if and only if no deflated record takes a byte
  behind the longest prefix that the file itself has written
  (`SegmentBuffer.ContentIsSettledExactlyWhenCovered`), and a single flash byte if and only if the last
  record over it took it from that prefix (`SegmentBuffer.ByteIsSettledExactly`). The buffer is zero at
  boot; `SegmentBuffer.RoundsFlashDifferently` is an accepted file for which the two rounds of one
  update flash different bytes.
- The block address of the erasing is a 32-bit number. Erasing ends inside its own blocks if and
  only if the last of them ends below 2^32 (`Flash.ErasingEndsExactlyBelowWrap`); otherwise it goes
  on at address 0 (`Flash.ErasingWraps`).
- Wear is bounded over all runs if and only if the key store never loses the store of the attempt
  counter, and never the deletion of UPDATE_IMAGE where the file can be flashed completely
  (`BootLoss.WearBoundedExactly`). Any other key operation may be lost, and for crash safety all may.
- The split of an SDIO transfer stays in the caller's buffer if and only if the range does not end
  strictly inside the last 64 KiB page (`Sdio.StaysExactlyWhenEndsWell`).
- A multi-byte read drops the results of its reads and can report success for data that did not
  arrive. `SdioRead.ReadRightExactly` says when a whole read is right for every earlier content of
  the buffer: if and only if every chunk has a good outcome.
- `$(X)` gives back a stored list if and only if X is not spelled like a macro
  (`MakeMacros.StoredListComesBack`), and `patsubst` undoes `addprefix` if and only if the list is
  empty or its first word has no comma (`MakeMacros.PatsubstUndoesAddprefix`).
- A fragment whose `endif` is missing is accepted, as if the `endif`s stood at its end
  (`MakeFiles.EveryFileIsABlock`).
- A desired state other than 0 or 1 is refused by the shadow loop, yet it can become the current
  state and be reported, if it arrives while the lamp is being set. For a given sequence of messages
  some interleaving does so if and only if a record-setting delta carries such a value
  (`Shadow.RefusedStaysOutExactly`).
- A formatted print that fills a REST buffer to the last byte loses its last character
  (`Rest.File.Print`).

## Assumptions

- Flash: a command that reports success has its effect; one that fails, or is cut short by a power
  loss, may leave anything in its range. Erase blocks have any positive sizes and tile the
  application area, as the comment at examples/bootloader/src/bootloader.c:202-205 demands of the
  linker script; the last of them ends below 2^32, which `Flash.ErasingEndsExactlyBelowWrap` shows
  to be exactly what the 32-bit address needs.
- Flash: a write that reports success replaces what the range held, also where it was not erased. The
  flash interface leaves erasing to its caller, so this matters to files whose segments overlap.
- Config keys: UPDATE_IMAGE and the counters are stored as strings and numbers. Each write or delete is
  atomic, and a read sees the last one: after a power cut inside the two-image update of
  framework/src/mmconfig/mmconfig.c:769-845 the next boot reads the old or the new list. Crash safety
  holds even if operations are silently lost; progress needs them to take effect, and
  `BootLoss.WearBoundedExactly` says which of them wear needs.
- Files do not change during an update and reads are deterministic. SHA-256 and `puff` are
  arbitrary functions of their input; `puff` never writes more than it has room for.
- SDIO: a command that fails changes nothing on the chip or in the buffer, and only the first read
  after a window write can repeat its first word.
- Shadow: reads and writes of the shared 32-bit variables are atomic, and the callback is not
  entered twice at the same time.

## Model

| member | source | states |
|---|---|---|
| Mbin.Load | examples/bootloader/src/bootloader.c:263-493 | The verdict on a whole file is never a programming failure, and OK needs at least one segment. |
| Mbin.ReadRecord | examples/bootloader/src/bootloader.c:306-472 | Every record consumes at least one byte of the file and no more than are left, so the loop ends; a rejection is never OK. |
| Mbin.ReadPlain | examples/bootloader/src/bootloader.c:316-362 | A plain segment that is taken has a length of at least 4 and consumes exactly its header and that length: lengths for which the unsigned subtraction wraps are rejected. |
| Mbin.ReadPacked | examples/bootloader/src/bootloader.c:364-434 | The same for a deflated segment, with a length of at least 8. |
| Mbin.ReadEncoded | examples/bootloader/src/bootloader.c:308-464 | An encoded record of any kind is read back with its length, its segment and its trace in the buffer, whatever bytes follow. |
| Mbin.ScanEncoded | examples/bootloader/src/bootloader.c:306-479 | The record loop on any encoded record list ends OK with exactly the segments of the list, in order. |
| Mbin.EncodingIsAccepted | examples/bootloader/src/bootloader.c:263-493 | Every well-formed image is accepted, and the segments met are those of its records. |
| Mbin.AcceptedIsEncoding | examples/bootloader/src/bootloader.c:263-493 | Every accepted file is the encoding of the image that decoding gives, and the segments met are that image's. |
| MbinAcceptance.AcceptsExactlyTheGrammar | examples/bootloader/src/bootloader.c:263-493 | For every byte string and buffer content: accepted if and only if it encodes some well-formed image. |
| MbinBytes.AreaTestExactly | examples/bootloader/src/bootloader.c:340-361 | Where the end address fits 32 bits, the area test refuses exactly what begins below or ends above the area; where it does not, the end counts modulo 2^32. |
| MbinBytes.TakenExactly | examples/bootloader/src/bootloader.c:402-433 | A record without wrap-around is taken if and only if it lies in the area and its data inflates far enough, or `puff` gives a positive code. |
| MbinBytes.InAreaImageLoads | examples/bootloader/src/bootloader.c:263-493 | Every image of records within the size limits, in the area and decompressing, one of them a segment, loads. |
| MbinBytes.AcceptsExactlyInArea | examples/bootloader/src/bootloader.c:263-493 | A file none of whose segments wraps is accepted if and only if it encodes such an image. |
| MbinBytes.MagicInBytes | examples/bootloader/src/bootloader.c:281-303 | The verdict on the first eight bytes, and its code, byte by byte. |
| MbinBytes.PlainFileInBytes | examples/bootloader/src/bootloader.c:316-362 | A file with one plain segment in the area, spelled out in bytes: up to 32768 bytes of data it flashes just these, and beyond it is corrupt. |
| MbinBytes.PackedFileInBytes | examples/bootloader/src/bootloader.c:364-434 | A file with one deflated segment, spelled out in bytes, flashes what inflating gives. |
| MbinBytes.SkippedInBytes | examples/bootloader/src/bootloader.c:444-464 | Fields of the five skipped types, spelled out in bytes, leave no trace but in the buffer. |
| MbinBytes.OtherTypesInBytes | examples/bootloader/src/bootloader.c:436-470 | Both end-of-file types end the scan, and every type not named is corrupt. |
| MbinBytes.CodesExactly | examples/bootloader/src/bootloader.c:306-487 | A decompression error means that the first complete record refused does not decompress; an invalid file, that it does and lies outside the area, or that there is no segment; anything else is corrupt. |
| Mbin.ImageRoundTrip | framework/morselib/include/mbin.h:22-76 | Decoding inverts encoding on every well-formed image, so no file reads as two images. |
| Mbin.LoadHasNoBuffer | examples/bootloader/src/bootloader.c:101-105 | The verdict and the address ranges do not depend on what the static buffer held before. |
| Mbin.LoadBufferEncoded | examples/bootloader/src/bootloader.c:305-479 | What a run over an encoding leaves in the segment buffer follows from its records, also for a run that a failed write cuts short. |
| SegmentBuffer.ContentIsSettledExactlyWhenCovered | examples/bootloader/src/bootloader.c:402-427 | What a file makes the loader flash does not depend on the buffer's history if and only if no deflated record takes a byte that the file has not written there. |
| SegmentBuffer.ByteIsSettledExactly | examples/bootloader/src/bootloader.c:402-427 | One flash byte comes out the same for every buffer if and only if the last record over it took it from what the file has written there. |
| SegmentBuffer.InflatedIsCovered | examples/bootloader/src/bootloader.c:402-410 | Full inflation of every record is enough for the first of these conditions. |
| SegmentBuffer.RoundsFlashDifferently | framework/src/puff/puff.c:793-841 | An accepted file whose dry run, from the zero buffer of the boot, and whose first round, cut short by a failed write, leave buffers from which the same deflated record is flashed as 2 and as 1. |
| MbinAcceptance.InAreaExactlyWhenNoWrap | examples/bootloader/src/bootloader.c:340-361 | All segments of a file lie in the application area if and only if no end address leaves 32 bits. |
| MbinAcceptance.WrappedSegmentIsAccepted | examples/bootloader/src/bootloader.c:412-433 | For every platform, an accepted file whose segment ends above the application area. |
| Flash.EraseCovers | examples/bootloader/src/bootloader.c:184-208 | Erasing covers every byte of the area for any mixture of block sizes, changes nothing else, and erases no block more than twice. |
| Flash.ErasingEndsExactlyBelowWrap | examples/bootloader/src/bootloader.c:184-208 | For blocks without a gap: in 32-bit arithmetic the erase loop ends without leaving its blocks if and only if the last one ends below 2^32. |
| Flash.ErasingWraps | examples/bootloader/src/bootloader.c:186-207 | If the last block ends at 2^32 the loop comes to address 0, below the end address, after passes inside its blocks only. |
| Flash.EraseTwice | examples/bootloader/src/bootloader.c:191-200 | A block is erased if and only if one of two tries works, and nothing outside it changes. |
| Flash.ProgramStores | examples/bootloader/src/bootloader.c:344-354 | A programming run that succeeds has stored every segment, in file order, inside the device. |
| Flash.ProgramWorks | examples/bootloader/src/bootloader.c:344-354 | Programming succeeds if and only if every single write does. |
| Flash.ProgramStaysInside | examples/bootloader/src/bootloader.c:340-361 | Segments inside a range leave the rest of the flash alone, also when a write fails. |
| Flash.FoldIsLastWritten | examples/bootloader/src/bootloader.c:306-472 | Every flash byte is that of the last segment over it, or what it was. |
| Flash.Device.Erase | framework/morselib/include/mmhal_flash.h:79-122 | One erase command: on success every byte of the block reads as erased, and in any case nothing outside it changes. |
| Flash.Device.Write | framework/morselib/include/mmhal_flash.h:79-122 | One write command: on success the range holds the data, and in any case nothing outside it changes; a range outside the device is refused. |
| Loader.Descriptor.Read | examples/bootloader/src/bootloader.c:222-226 | A read delivers the next bytes of the file, short only at its end, and advances by what it delivered. |
| Loader.Loader.ReadSegmentHeader | examples/bootloader/src/bootloader.c:218-232 | The two halves of the next four bytes, the lower byte of each first, or a corrupt file if there are fewer. |
| Loader.Loader.ReadUint32 | examples/bootloader/src/bootloader.c:241-254 | The word of the next four bytes, from the lowest byte to the highest, or a corrupt file if there are fewer. |
| Loader.Loader.PlaceSegment | examples/bootloader/src/bootloader.c:340-361 | A segment whose end fits 32 bits is refused if and only if it begins below or ends above the area; a taken one is written in the real run only. |
| Loader.Loader.LoadPlain | examples/bootloader/src/bootloader.c:316-362 | The plain-segment case has the verdict, buffer and flash effect of reading that record. |
| Loader.Loader.LoadPacked | examples/bootloader/src/bootloader.c:364-434 | The deflated-segment case has the verdict, buffer and flash effect of reading that record. |
| Loader.Loader.SkipField | examples/bootloader/src/bootloader.c:444-464 | The skipped-field case has the verdict and buffer of reading that record and no flash effect. |
| Loader.Loader.LoadRecords | examples/bootloader/src/bootloader.c:305-479 | The loop programs exactly the segments that the scan of the file meets, stops at the first failed write, ends, and leaves the buffer that this makes. |
| Loader.Loader.LoadAndFlash | examples/bootloader/src/bootloader.c:263-493 | The dry run reports the verdict and touches no flash; the real run programs the file's segments in order and differs in its code only by a failed write. |
| Loader.DryRunPredictsRealRun | examples/bootloader/src/bootloader.c:571-600 | The real run is OK if and only if the dry run is and no write fails; any other code but a programming failure is the dry run's. |
| BootSafety.StepKeeps | examples/bootloader/src/bootloader.c:550-642 | Every step and every power cut keeps the invariant: a torn area is still armed and still passes both checks. |
| BootSafety.CrashSafety | examples/bootloader/src/bootloader.c:550-642 | In every run the application is entered only on the area as it was, or on a complete new image of the armed file. |
| BootSafety.TornMeansStillArmed | examples/bootloader/src/bootloader.c:562-579 | At every moment a torn area means the update is armed, unchanged, and its signature and dry run still succeed. |
| BootSafety.CheckExactly | examples/bootloader/src/bootloader.c:562-579 | Both checks pass if and only if a signature of at least 32 bytes is stored, the file exists, hashes to its first 32 bytes, and encodes an image. |
| BootSafety.FlashedOnlyIfSigned | examples/bootloader/src/bootloader.c:501-606 | In every run, erasing, programming and any change of the flash happen only if the armed file hashes to the stored signature. |
| BootProtocol.PowerGoesAnywhere | examples/bootloader/src/bootloader.c:550-642 | The power can go in every state, and inside a flash command it can leave anything in the range of that command. |
| BootSafety.CoveredImageIsOne | examples/bootloader/src/bootloader.c:594-606 | If no deflated record takes a byte that the file has not written, a complete new image is the content of the file's record list over erased flash. |
| BootSafety.ImageIsOneExactly | examples/bootloader/src/bootloader.c:594-606 | A file has one complete image, whatever the segment buffer held, if and only if every byte of the area is settled by its records. |
| BootSafety.ImageByte | examples/bootloader/src/bootloader.c:176-183 | Every byte of a new image is that of the last segment over it, or erased. |
| BootSafety.OutsideUntouched | examples/bootloader/src/bootloader.c:340-361 | In every run nothing outside the area's erase blocks changes, if no segment of the armed file wraps around. |
| BootWear.BoundedWear | examples/bootloader/src/bootloader.c:581-613 | In every run that may lose any key operation but the two that matter, the boots that erase are at most the attempts left, and each block sees at most four erases for each. |
| BootWear.TenBootsFortyErases | examples/bootloader/src/bootloader.c:184-208 | In the same runs, from a counter that is not negative: at most ten erasing boots and forty erases of any block. |
| BootWear.AttemptsNeverDecrease | examples/bootloader/src/bootloader.c:581-589 | While the update stays armed no step lowers the attempt counter. |
| BootLoss.WearBoundedExactly | examples/bootloader/src/bootloader.c:581-613 | From any state in which an update is taken up, wear is bounded over all runs if and only if the store of the counter is never lost and the deletion of UPDATE_IMAGE never lost or never reached. |
| BootLoss.LostCounterWritesWearWithoutBound | examples/bootloader/src/bootloader.c:589-592 | If the store of the counter can be lost, runs erase the first block as often as one likes. |
| BootLoss.LostDeletionWearsWithoutBound | examples/bootloader/src/bootloader.c:608-613 | If the deletion of UPDATE_IMAGE can be lost and the file fits, runs complete the update, lose it and erase again as often as one likes. |
| Bootloader.ErasePath | examples/bootloader/src/bootloader.c:184-208 | Erasing, with any pattern of failures, is a run of the protocol. |
| Bootloader.ProgramPath | examples/bootloader/src/bootloader.c:344-354 | Programming, with any pattern of failures, is a run of the protocol. |
| Bootloader.RoundPath | examples/bootloader/src/bootloader.c:591-606 | One round of erasing and flashing is a run of the protocol, to the point where the next round, the clean-up or the failure begins. |
| Bootloader.RoundHasNoContent | examples/bootloader/src/bootloader.c:591-606 | Whether a round succeeds depends on the file and the hardware only, not on what flash or buffers hold. |
| Bootloader.GoodRoundLeavesImage | examples/bootloader/src/bootloader.c:591-606 | A round that reports success, on any hardware, leaves a complete new image. |
| Bootloader.GoodExactly | examples/bootloader/src/bootloader.c:591-606 | A round succeeds if and only if the area is erased, the file is in order and every write of its segments works. |
| Bootloader.SecondChance | examples/bootloader/src/bootloader.c:596-606 | A flashing that fails is made good by a second round on hardware that works from then on. |
| Bootloader.EraseWorks | examples/bootloader/src/bootloader.c:191-200 | Hardware that never refuses two commands in a row erases the whole area. |
| Bootloader.FailureIsEraseOrProgram | examples/bootloader/src/bootloader.c:591-606 | An update that is taken up and fails does so in erasing or in programming. |
| Bootloader.RoundWorks | examples/bootloader/src/bootloader.c:591-606 | On hardware that takes every command a round leaves the complete new image. |
| Bootloader.FlashContent | examples/bootloader/src/bootloader.c:263-493 | A real run that reports OK on an erased area leaves the fold of the file's segments over erased bytes there, and nothing outside the area changes, whether it succeeds or not. |
| Bootloader.CleanUpPath | examples/bootloader/src/bootloader.c:608-613 | The clean-up deletes the four keys one by one and resets, as the protocol allows. |
| Bootloader.HistoryIsRun | examples/bootloader/src/bootloader.c:620-642 | Boots, each cut short by the power where the next begins, are one run of the protocol. |
| Bootloader.PowerOnIsSafe | examples/bootloader/src/bootloader.c:620-642 | However many boots were cut short before: where a boot of the program jumps, the area is as it was at first or a complete new image of the file that was armed. |
| Bootloader.Bootloader.EraseApplicationArea | examples/bootloader/src/bootloader.c:184-208 | The loop, its address in 32-bit arithmetic, performs exactly the erase run that the lemmas describe, and ends inside its blocks. |
| Bootloader.Bootloader.VerifySignature | examples/bootloader/src/bootloader.c:501-545 | OK if and only if a signature of at least 32 bytes is stored, the file exists, and the hash of the whole file, taken in pieces of 64 bytes, equals the first 32; which code else. |
| Bootloader.Bootloader.CheckUpdate | examples/bootloader/src/bootloader.c:550-614 | Each call is a run of the protocol. It ends at the reset if and only if the update is armed and checked, has an attempt left, and its first or second round succeeds; the reset always leaves the new image and no keys. Otherwise it leaves exactly the error code and the attempt that are due; without an armed update nothing changes. |
| Bootloader.Bootloader.UpdateFailed | examples/bootloader/src/bootloader.c:164-173 | A failed update stores its code and halts, as the protocol allows. |
| Bootloader.Bootloader.PowerOn | examples/bootloader/src/bootloader.c:620-642 | From power-on `main` always ends in the jump or the halt, along a run of the protocol. An armed update loses all four keys if and only if it is carried through, and then the jump enters the complete new image. |
| Bootloader.Bootloader.TakesExactly | examples/bootloader/src/bootloader.c:554-613 | When an update is carried through, in terms of the stored keys, the file, its hash and its format. |
| Bootloader.Bootloader.ReadyIsTaken | examples/bootloader/src/bootloader.c:550-614 | An armed and checked update with an attempt left, on hardware that takes every command to come and without wrapped segments, is carried through. |
| Clock.TickIsCallsOver1001 | examples/bootloader/src/mmosal_shim_bootloader.c:126-137 | After n calls the tick is n/1001 rounded down, modulo 2^32. |
| Clock.System.GetTimeTicks | examples/bootloader/src/mmosal_shim_bootloader.c:126-137 | One call is one step of that count. |
| Clock.System.DelayMs | examples/bootloader/src/bootloader.c:113-123 | A delay of k ends and advances the clock by k ticks, by k + 1 if and only if its first sample rolled over. |
| Sdio.CopiedTwice | examples/porting_assistant/src/sdio_spi.c:541-543 | Two adjacent copies in a 32-bit address space are one copy. |
| Sdio.CopiedInBytes | examples/porting_assistant/src/sdio_spi.c:500-548 | Byte by byte: what a copy stores, modulo 2^32, and that it changes nothing else. |
| Sdio.RangeInBytes | examples/porting_assistant/src/sdio_spi.c:442-498 | Byte by byte: what a range holds, modulo 2^32. |
| Sdio.EndsWellExactly | examples/porting_assistant/src/sdio_spi.c:471-475 | The condition on the end of a range, in numbers. |
| Sdio.RangeOfCopied | examples/porting_assistant/src/sdio_spi.c:500-548 | What was copied to a range is what is read from it. |
| Sdio.ChunkIs | examples/porting_assistant/src/sdio_spi.c:466-475 | The chunk arithmetic gives the lesser of the data left and the rest of the page, except in the last page. |
| Sdio.StaysExactlyWhenEndsWell | examples/porting_assistant/src/sdio_spi.c:458-494 | The split never leaves the caller's buffer if and only if the range does not end strictly inside the last page. |
| Sdio.PagesStep | examples/porting_assistant/src/sdio_spi.c:516-544 | Every pass of the loop accounts for exactly one of the 64 KiB pages that the range touches. |
| Sdio.WindowBytes | examples/porting_assistant/src/sdio_spi.c:379-410 | The two window bytes supply the page base they were taken from. |
| Sdio.BlockSplit | examples/porting_assistant/src/sdio_spi.c:327-353 | Within a page the block count fits 128, blocks are used on function 2 only, and at most 511 bytes are left over. |
| SdioDriver.Driver.MorseAddressBaseSet | examples/porting_assistant/src/sdio_spi.c:379-410 | On success the two window registers hold bits 16 to 31 of the address and the config register the access mode. |
| SdioDriver.Driver.MorseCmd53Write | examples/porting_assistant/src/sdio_spi.c:313-367 | A write within a page stores a prefix, all of it if and only if the result is 0, by proper commands only. |
| SdioDriver.Driver.WriteMultiByte | examples/porting_assistant/src/sdio_spi.c:500-548 | Result 0 means exactly the range has changed, to the data, and comes if and only if every command of the call succeeds; an error means exactly a prefix was written. Every command is proper, lies in the range with the base its window held, and the window is set once per page touched. The function would leave its buffer if and only if the range ends strictly inside the last page and no command fails. |
| SdioDriver.Driver.MorseCmd53Read | examples/porting_assistant/src/sdio_spi.c:243-297 | A read within a page delivers a prefix of what the bus shows, all of it if and only if the result is 0. |
| SdioDriver.Driver.ReadMultiByte | examples/porting_assistant/src/sdio_spi.c:442-498 | The buffer holds exactly what the chunks left there; for every chunk the bytes that arrived, the repeated word and the second read are those that its own commands on the bus give; and everything arrived if and only if every read of the call succeeded: then it is the device range, even if the first read of each page repeats its first word. The result is 0 if and only if the window writes succeed. Commands and range as for writing. |
| SdioRead.ReadRightExactly | examples/porting_assistant/src/sdio_spi.c:456-494 | A whole read is right for every earlier content of the buffer if and only if every chunk has a good outcome. |
| SdioRead.PartOfChunk | examples/porting_assistant/src/sdio_spi.c:477-493 | A chunk alone decides its part of the buffer; the chunks before and behind it have no say. |
| Sdio.ChunkRepaired | examples/porting_assistant/src/sdio_spi.c:479-489 | The second read repairs a repeated word and is harmless where the words really are equal. |
| Sdio.ChunkRightExactly | examples/porting_assistant/src/sdio_spi.c:477-489 | At any offset a chunk is right for every earlier buffer content if and only if all of the first read arrived and a needed second read did. |
| SdioDriver.Driver.ReadLe32 | examples/porting_assistant/src/sdio_spi.c:412-440 | Success if and only if every command succeeds, and then the word whose bytes, the lowest first, are at the address and behind it, unless it crosses a page; function 1 is used. |
| SdioDriver.Driver.WriteLe32 | examples/porting_assistant/src/sdio_spi.c:550-565 | Success if and only if every command succeeds, and then the bytes of the word, the lowest first, are at the address and behind it and nothing else has changed; on an error nothing has; function 2 is used. |
| Sdio.MaskedMerge | examples/porting_assistant/src/sdio_spi.c:572-589 | Setting and then clearing takes the bits of the mask from the value and keeps the others. |
| SdioDriver.Driver.UpdateLe32 | examples/porting_assistant/src/sdio_spi.c:572-589 | On success the word at the address has, bit by bit, the value under the mask and what it had elsewhere. |
| MakeText.SplitJoin | builder/frameworks/utils.py:184-235 | Splitting a joined list of words free of the separator gives the list back. |
| MakeText.WordsOfJoin | builder/frameworks/utils.py:227-244 | A list of clean words survives being joined and split into words. |
| MakeExpand.ExpansionIsEvaluation | builder/frameworks/utils.py:161-244 | On every printed tree, a lone `$` behind it or not, the stack machine gives the words of the recursive evaluation, or its first error. |
| MakeExpand.RunPrinted | builder/frameworks/utils.py:164-240 | Inside any open references a printed tree adds its meaning to the innermost text and changes nothing else. |
| MakeExpand.ExpandsExactlyTheTrees | builder/frameworks/utils.py:161-244 | A text is expanded if and only if it prints a tree whose evaluation succeeds; every other text raises. |
| MakeExpand.EvalIsClean | builder/frameworks/utils.py:244 | Every word that expansion returns is non-empty and free of white space. |
| MakeMacros.StoredListComesBack | builder/frameworks/utils.py:227-235 | `$(X)` gives the stored list exactly, if and only if X is not spelled like a macro that misbehaves without arguments. |
| MakeMacros.PatsubstUndoesAddprefix | builder/frameworks/utils.py:185-226 | Removing a prefix after adding it gives the stored list, if and only if the list is empty or its first word has no comma. |
| MakeMacros.RemoveConserves | builder/frameworks/utils.py:194-202 | `filter-out` splits the words, with multiplicity, into removed and kept, and raises if and only if a pattern is missing. |
| MakeMacros.RemoveKeeps | builder/frameworks/utils.py:197-200 | Removing pattern after pattern takes out the first occurrences of each and keeps the rest in order. |
| MakeUses.FilterOutTakesFirst | builder/frameworks/utils.py:194-202 | `$(filter-out ps,$(X))` succeeds if and only if X holds every pattern as often as asked for, and then gives X without the first occurrences of each, in order. |
| MakeUses.AddPrefixAddsToEach | builder/frameworks/utils.py:185-189 | `$(addprefix p,$(X))` puts p in front of every word of X, if and only if the first word has no comma. |
| MakeUses.PatsubstTakesFromEach | builder/frameworks/utils.py:203-226 | `$(patsubst p%,%,$(X))` takes p off the front of every word that has it, and drops words left empty. |
| MakeUses.PatsubstRefuses | builder/frameworks/utils.py:208-218 | A pattern without % at its end, and else a replacement other than %, is refused with its own error. |
| MakeUses.WildcardFinds | builder/frameworks/utils.py:190-193 | `$(wildcard p)` gives what the file system finds for p. |
| MakeUses.WildcardsRunTogether | builder/frameworks/utils.py:191-193 | Of two patterns the last name for the first and the first name for the second become one word. |
| MakeUses.OtherVariables | builder/frameworks/utils.py:228-235 | A string from the environment reads as its words, an undefined variable as nothing. |
| MakeUses.OtherMacrosRaise | builder/frameworks/utils.py:236-238 | Any other name with arguments is an unsupported macro. |
| MakeUses.SyntaxErrors | builder/frameworks/utils.py:165-180 | Behind any tree, at any depth: a `$` without parenthesis, a `)` too many and an open reference at the end raise their own errors. |
| MakeText.SpaceSeparates | builder/frameworks/utils.py:244 | Each ASCII white-space character separates words. |
| MakeLines.ConditionExactly | builder/frameworks/utils.py:83-97 | `ifeq` holds if and only if both sides expand to the same words, `ifneq` otherwise; the left side is expanded first and the first error wins. |
| MakeLines.FirstBranchRuns | builder/frameworks/utils.py:83-116 | A conditional that holds does what its first branch does, if the conditions in the other expand. |
| MakeLines.SecondBranchRuns | builder/frameworks/utils.py:83-116 | A conditional that does not hold does what its second branch does, if the conditions in the first expand. |
| MakeLines.ErrorRaises | builder/frameworks/utils.py:125-128 | A live `$(error ...)` raises its message. |
| MakeLines.IncludeRuns | builder/frameworks/utils.py:118-123 | A live include runs the lines of the file its first word names, with conditions of their own, and goes on behind; which error else. |
| MakeBlocks.FlatIsBlock | builder/frameworks/utils.py:64-157 | The lines of any block, within any open conditions and before any lines, are run as the block: a line takes effect exactly when all branches around it are live. |
| MakeFiles.BlocksAreTheNested | builder/frameworks/utils.py:83-112 | The lines of blocks are exactly those in which every conditional is closed and no `else` or `endif` is stray. |
| MakeFiles.EveryFileIsABlock | builder/frameworks/utils.py:59-157 | Every file does what a block does: up to the first stray `else` or `endif`, which raises, or with missing `endif`s added. |
| MakeFiles.LastEndifIsSilent | builder/frameworks/utils.py:107-112 | An `endif` at the end of an unclosed file changes nothing. |
| MakeFiles.DeadBlock | builder/frameworks/utils.py:83-116 | A dead block changes no variable and raises if and only if some condition in it does, however deep. |
| MakeFiles.ParsingKeeps | builder/frameworks/utils.py:130-153 | After any lines, also when they raise, every stored list holds only clean words, no variable is gone and no environment string is changed in place. |
| MakeParser.MakeFragmentParser.EvalMkVars | builder/frameworks/utils.py:161-244 | The character loop returns what the stack machine does, words or error, and leaves the variables alone. |
| MakeParser.MakeFragmentParser.AddPrefixes | builder/frameworks/utils.py:185-189 | The loop gives every word the prefix, in order. |
| MakeParser.MakeFragmentParser.FilterWords | builder/frameworks/utils.py:194-202 | The loop removes the first occurrence of each pattern in turn, or raises. |
| MakeParser.MakeFragmentParser.Substitute | builder/frameworks/utils.py:203-226 | The loop strips the pattern from every word that has it in front, and refuses other patterns and replacements. |
| MakeParser.MakeFragmentParser.ParseMkFile | builder/frameworks/utils.py:59-157 | The line loop with its stack ends with the variables and the error of the interpreter, includes among them. |
| MakeParser.MakeFragmentParser.Assign | builder/frameworks/utils.py:130-154 | `+=` puts the expanded value behind the list that the variable has, or starts one; `?=` stores it only where there is none; `:=` and `=` store it. No other variable changes, and what is left behind when key or value raises is stated. |
| Shadow.NoLostUpdate | examples/aws_iot/src/aws_iot.c:780-822 | In every interleaving, whenever the callback is idle and the loop blocked, lamp and current state agree with a desired 0 or 1, the report with the current state, and the desired state with the last record-setting delta that has one. |
| Shadow.RunFilters | examples/aws_iot/src/aws_iot.c:671-706 | At every moment the version is the maximum delivered and the desired state, pending store included, that of the last record-setting delta with a value. |
| Shadow.VersionGrows | examples/aws_iot/src/aws_iot.c:673-686 | The current version never decreases. |
| Shadow.StaleDeltaDoesNothing | examples/aws_iot/src/aws_iot.c:673-684 | A delta no newer than some delta delivered before, at any point of any run, has no effect. |
| Shadow.WantedIsUnique | examples/aws_iot/src/aws_iot.c:700-706 | The messages determine the desired state. |
| Shadow.ComesToRest | examples/aws_iot/src/aws_iot.c:780-822 | Without messages every step of either thread comes closer to rest, and some step is possible until then. |
| Shadow.QuietRunsAreShort | examples/aws_iot/src/aws_iot.c:780-822 | From any reachable state at most 23 steps are left when messages stop. |
| Shadow.RefusedStaysOutExactly | examples/aws_iot/src/aws_iot.c:786-822 | For every sequence of messages: in all interleavings the current state stays 0 or 1, and only 0 or 1 is reported, if and only if no record-setting delta carries another value. |
| Shadow.ValidStaysValid | examples/aws_iot/src/aws_iot.c:786-804 | If every record-setting delta with a value asks for 0 or 1, desired, current and reported state are 0 or 1 throughout. |
| Shadow.InvalidCarrierIsReported | examples/aws_iot/src/aws_iot.c:786-804 | Any other value of a record-setting delta becomes the current state and is reported in some interleaving of the same messages. |
| Shadow.InvalidStateIsReported | examples/aws_iot/src/aws_iot.c:786-804 | A run that ends at rest with a refused value as desired, current and reported state and the lamp on. |
| Shadow.Demo.SemGive | framework/morselib/include/mmosal.h:443-470 | A give on a full semaphore is refused and dropped. |
| Shadow.Demo.ShadowUpdateCallback | examples/aws_iot/src/aws_iot.c:614-706 | The callback is steps of the callback thread, wherever the loop is; a newer delta with a value leaves it desired and signalled, any other message leaves both alone. |
| Shadow.Demo.ShadowLoopPass | examples/aws_iot/src/aws_iot.c:780-822 | A pass is steps of the loop thread; alone it makes lamp and current state agree with a desired 0 or 1, changes neither otherwise, and reports. |
| Rest.OutputIsCutConcatenation | examples/http/src/restfs.c:34-149 | A legal handler serves the concatenation of all it wrote, cut once at the size of the buffer. |
| Rest.File.AllocBuffer | examples/http/src/restfs.c:66-82 | A fresh buffer of the size asked for, nothing written, or the file as it was. |
| Rest.File.Write | examples/http/src/restfs.c:51-64 | The bytes, cut to the space left, are appended, and their number returned. |
| Rest.File.Print | examples/http/src/restfs.c:34-49 | The file stays usable if and only if the text is no longer than the space, and then the text is appended intact if and only if there is room for its terminator. |
| Rest.File.ClaimRawBuffer | examples/http/src/restfs.c:94-103 | The caller gets the buffer from the index on, and no other operation can touch it. |
| Rest.File.ReleaseRawBuffer | examples/http/src/restfs.c:105-113 | The buffer is back, with the index moved by what was filled in. |
| Rest.File.RunHandler | examples/http/src/restfs.c:34-113 | Any legal handler leaves exactly its output in one fresh buffer, or nothing if there is no memory. |
| Rest.File.Open | examples/http/src/restfs.c:118-140 | The first endpoint of the name answers, its output being what is served; otherwise nothing changes. |
| Rest.File.Close | examples/http/src/restfs.c:142-149 | The buffer that the file holds is freed, and a second close frees nothing. |
| Rest.Request | examples/http/src/restfs.c:118-149 | A whole request serves the constant string or the cut concatenation, and leaves the heap as it was if and only if the handler did not keep its claim. |

## Left out

- Bootloader output: `printf`, the LED and the blinking, the write of BOOTLOADER_VERSION, and the jump itself, which is a final state.
- Read errors in the middle of a file, and config entries that are not strings where a string is expected.
- Re-arming: a run covers one armed update; the application that arms the next one starts a new run.
- `_sbrk`: one comparison with a limit and no check on shrinking; it would add an easy member only.
- Flash.EraseCovers: a last erase block that ends at 2^32 is excluded; `Flash.ErasingEndsExactlyBelowWrap` shows that erasing then does not end inside its blocks.
- BootSafety.OutsideUntouched: a last erase block that ends at 2^32 is excluded; `Flash.ErasingEndsExactlyBelowWrap` shows that erasing then does not end inside its blocks.
- BootWear.BoundedWear: a last erase block that ends at 2^32 is excluded; `Flash.ErasingEndsExactlyBelowWrap` shows that erasing then does not end inside its blocks.
- BootWear.TenBootsFortyErases: a last erase block that ends at 2^32 is excluded; `Flash.ErasingEndsExactlyBelowWrap` shows that erasing then does not end inside its blocks.
- Bootloader.Bootloader.EraseApplicationArea: a last erase block that ends at 2^32 is excluded; `Flash.ErasingEndsExactlyBelowWrap` shows that erasing then does not end inside its blocks.
- Bootloader.Bootloader.PowerOn: a last erase block that ends at 2^32 is excluded; `Flash.ErasingEndsExactlyBelowWrap` shows that erasing then does not end inside its blocks.
- Flash.Device.Write: that bytes which were not erased may refuse new data is not modelled; see Assumptions.
- SHA-256, DEFLATE, the flash and SDIO hardware layers, the key store, and the alignment of flash writes.
- SdioDriver.Driver.WriteMultiByte: what happens once the function leaves the caller's buffer is not modelled; `defined` tells where it does.
- SdioDriver.Driver.ReadMultiByte: the same.
- SdioDriver.Driver.WriteLe32: what the chip does with a word that crosses a page is not modelled; `defined` tells. A little-endian host is assumed.
- SdioDriver.Driver.ReadLe32: the same, and the check for a null pointer is not modelled.
- SdioDriver.Driver.UpdateLe32: the same, and nothing is said about a read with a positive result, after which the function uses a word that was never set; `defined` tells.
- SDIO start-up, interrupts, CRC and the command encoding.
- MakeParser.MakeFragmentParser.ParseMkFile: lines arrive classified; comment stripping, backslash continuation and the regular expressions that pick out `ifeq`, `include`, `$(error ...)` and the assignment operators are not modelled; files are a map from names to lines, and a depth given by the caller stands for Python's recursion limit.
- MakeMacros.PatsubstUndoesAddprefix: prefixes are free of `$`, `)`, commas and white space, which the macro syntax needs.
- White space is that of ASCII; the globbing behind `wildcard` is a function from patterns to base names; log messages, file names and line numbers in errors are dropped.
- Environment variables that are None, and lists shared between the parser and its caller.
- The OpenOCD, SCons and firmware-import helpers of builder/frameworks/utils.py.
- JSON parsing, MQTT, client tokens and the conversion of numbers in aws_iot.c: a delta is a version and an optional value.
- REST URI dispatch in lwIP, reads of custom files, format strings (a print is given its text) and encoding errors of `vsnprintf`.
- Handlers that break the rules of restfs.h other than by keeping a claim: their memory accesses have no defined result.
