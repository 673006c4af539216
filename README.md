# PIC24 USB CDC bootloader: a verified Dafny model

This project models the core of a USB CDC bootloader for the PIC24FJ64GB002 and of its
host-side upload tool, and proves properties of that model.

- **Firmware (`src/bootloader.c`).** The host sends text lines such as `V`, `E`, `:`-records,
  `C`, `J` and `X`. The firmware frames the received bytes into lines and dispatches each line
  on its first character. It decodes Intel HEX records (Intel Hexadecimal Object File Format
  Specification, Rev. A). It packs each four-byte group into a 24-bit program word and collects
  the words in a one-row buffer. It hands rows to the flash driver only inside the application
  area `[0x4000, 0xABFE]`. It erases that area page by page. `V` is answered with the bare
  version line. An empty line, and a `:` line while the state is neither Idle nor
  ReceivingHex, get no reply. Every other command gets one `+`, `-` or `?` line. Diagnostic
  counters are kept in RAM that survives a reset.
- **Start-up (`src/main.c`).** `main` clears `blVectorToApp`, initialises the bootloader and
  runs the main loop, which polls the USB endpoint and resets to the application when
  `jumpToApp` is set. `IsValidApplication` (the reset-vector check) and
  `Bootloader_EntryWindow` (a timed polling window) are defined in the file but `main` calls
  neither; the model covers them on their own.
- **Upload tool (`tools/upload_firmware.py`).** It filters the record lines of a HEX file,
  classifies the replies, extracts the numeric fields of the version line, counts errors and
  bytes while sending records, and checks the arguments of its repeat loop.

Layout, by module:

- `FlashRow` (`flash_row.dfy`): the row buffer as a value, with `FlushRow` and `StoreRow`, the
  application-area predicate and the row alignment.
- `HexRecord` (`hex_record.dfy`): `HexToByte`, the record decoder `Decode`, its inverse
  `Encode` (what a HEX-file writer emits) and the checksum.
- `Ascii` (`ascii.dfy`): what `sprintf` prints (`%u`, `%04X`) and what Python's `int()` reads
  back.
- `Persistent` (`persistent.dfy`): the `.bl_persist` / `.app_persist` words, as a value and as
  an object.
- `Engine` (`engine.dfy`): every operation of `bootloader.c` as a pure function over one value
  holding all the file's statics, the replies sent and the calls handed to the flash driver.
- `Bootloader` (`bootloader.dfy`): the same file as a class whose fields are the statics.
  `rxBuffer` and `flashBuffer` are arrays updated in place. Every method is proved to move the
  state exactly as the `Engine` function of the same name says.
- `EngineProps`, `DispatchProps`, `CountingProps`, `WriteProps`, `PlacementProps`: what the
  engine guarantees.
  - Safety: whatever bytes the host sends, the commands hand the driver only application-area
    pages and rows, and every input preserves the state invariant. `WriteFlash`, which no command
    calls, checks only its start address (see below).
  - Framing is independent of how the byte stream is split into polls.
  - One reply line per command, and the effect of each command.
  - The counters, and write-then-verify.
  - Where each word of a Data record lands: at program address `pc + 2k`, in its row slot.
- `Handoff` (`handoff.dfy`) and `MainLoop` (`main_loop.dfy`): `main.c`, as functions and as
  methods over the bootloader object.
- `UploadTool` (`upload_tool.dfy`): the helpers of the upload tool, and cross-file lemmas about
  how the tool reads the replies and version line the firmware actually sends.

The flash driver is not part of the model:

- Every call the code makes to it is appended to a log (`FlashCall`).
- The driver's success or failure for the call at log position `i` is a parameter
  (`eraseOk(i)`, `writeOk(i)`).
- A read-back is a function of the log (`LastWordWritten`).

The USB endpoint is modelled by the bytes each poll delivers and the list of reply strings sent.

## Behaviour worth knowing

- **`E` and the byte counter.** `E` resets only `pagesErased`; `bytesWritten` keeps counting
  across erases (`src/bootloader.c:266`).
- **When `E` and `C` may run.** `E` runs from any state. `C` moves any state, Error included,
  to Complete (`src/bootloader.c:177-186`).
- **Non-hex digits.** `HexToByte` reads any character other than `0-9`, `A-F` and `a-f` as the
  value 0, so only the checksum can reject such a line (`src/bootloader.c:327-340`).
- **`WriteFlash` checks only its start address.** `Bootloader_WriteFlash` refuses a start
  address outside the application area, then writes every group at `address + i` without
  checking again (`src/bootloader.c:486-505`). So eight bytes written at `0xABFE` put their
  second word at `0xAC02`, past `APP_END_ADDRESS` (`WriteProps.WriteFlashChecksOnlyStart`,
  `WriteProps.WriteFlashPastAppEnd`). No command calls it.
- **A rejected record.** A `:` line moves Idle to ReceivingHex before the line is parsed, so
  the state changes even when the record is then rejected (`src/bootloader.c:165`).

The main loop also checks a `jumpToApp` flag that no code ever sets: `J` writes the two hand-off
words and resets directly. So `main`'s `ResetToApplication` branch is dead code, which
`Handoff.MainLoopNeverHandsOffByFlag` proves.

## Model

| member | source | states |
|---|---|---|
| HexRecord.Nibble | src/bootloader.c:327-340 | A hex digit of either case contributes its value, and any other character contributes 0 (no error). |
| HexRecord.HexToByte | src/bootloader.c:320-344 | The result is below 256 and equals `16 * hi + lo`: the 8-bit shift-and-or loses nothing. |
| HexRecord.HexToByteOfHexPair | src/bootloader.c:320-344 | Round trip: `HexToByte` decodes the two-digit encoding of every byte, in upper or lower case. |
| HexRecord.Address16 | src/bootloader.c:361 | `(hi << 8) \| lo` is below 2^16, with `hi` as its high byte and `lo` as its low byte. |
| HexRecord.InstructionWord | src/bootloader.c:411-413 | The packed word is below 2^24 and carries bytes 0, 1 and 2 little-endian. |
| HexRecord.LinearBase | src/bootloader.c:462 | `d0 << 24 \| d1 << 16` is a 32-bit address whose upper 16 bits are `d0 d1` and whose lower 16 bits are zero. |
| HexRecord.SegmentBase | src/bootloader.c:470 | `d0 << 12 \| d1 << 4` is the paragraph number `d0 d1` times 16. |
| HexRecord.TwosComplement | src/bootloader.c:377 | `(~c) + 1` on 8 bits is below 256 and cancels the sum modulo 256. |
| HexRecord.Decode | src/bootloader.c:355-382 | An accepted line starts with `:`, is long enough for its count, and yields a well-formed record with a matching checksum. |
| HexRecord.Encode | src/bootloader.c:346-382 | The line a HEX writer emits for a record, the input format the parser reads: `11 + 2 * len` characters. That the parser inverts it is `DecodeEncode`. |
| HexRecord.EncodeDataField | src/bootloader.c:369-373 | The payload loop reads back exactly the bytes a HEX writer encoded, in order. |
| HexRecord.DecodeEncode | src/bootloader.c:346-382 | Round trip: every well-formed record survives encoding and decoding unchanged. |
| HexRecord.DecodeChecksOnlyChecksum | src/bootloader.c:364-382 | An encoded record is accepted iff its checksum field is the two's complement of its sum; otherwise the rejection is a checksum mismatch. |
| HexRecord.ChecksumDetectsChangedDataByte | src/bootloader.c:369-382 | Changing any one payload byte changes the required checksum. |
| HexRecord.ChecksumDetectsChangedKind | src/bootloader.c:362-382 | Changing the type byte changes the required checksum. |
| FlashRow.InAppArea | src/bootloader.c:292-297 | No contract of its own: the inclusive range `[0x4000, 0xABFE]`. That the driver only sees such addresses is `RowCallsInAppArea` and `ProcessLineKeepsInv`. |
| FlashRow.FlushRow | src/bootloader.c:299-318 | No contract of its own: pad and write the pending row, then reset it. What it does is `FlushEffect`, `FlushIdempotent` and `FlushKeepsInvariant`. |
| FlashRow.StoreRow | src/bootloader.c:420-446 | No contract of its own: switch rows if needed, then store. What it does is `StorePlacesWord`, `StoreSameRowKeepsNeighbours`, `StoreNewRowFlushesOnce`, `StoreAlwaysStores` and `StoreKeepsInvariant`. |
| FlashRow.RowBase | src/bootloader.c:420 | `wordAddr & ~(ROW_PC - 1)` is the aligned row base at or below `wordAddr`, within one row of it. |
| FlashRow.EvenRowBase | src/bootloader.c:423 | Row bases are even, so a row base never equals the sentinel `0xFFFFFFFF`. |
| FlashRow.FlushEffect | src/bootloader.c:299-318 | A flush issues one row write iff a row is pending and its base is in the application area. The row written is padded. Afterwards nothing is pending, and a flush with nothing pending changes nothing. |
| FlashRow.FlushIdempotent | src/bootloader.c:299-318 | A second flush does nothing and issues no call. |
| FlashRow.PaddedIsSlots | src/bootloader.c:303-307 | Under the buffer invariant, padding leaves the open row unchanged. |
| FlashRow.StoreAlwaysStores | src/bootloader.c:436-446 | The computed slot is always inside the row, so the bound check never drops a word. |
| FlashRow.StorePlacesWord | src/bootloader.c:420-446 | The word lands in the row containing its address, at its offset, below the new high-water index. Other slots keep their values, or the fill value for a new row. |
| FlashRow.StoreSameRowKeepsNeighbours | src/bootloader.c:436-444 | Within one row there is no flush, the high-water index only grows, and every other slot is kept. |
| FlashRow.StoreNewRowFlushesOnce | src/bootloader.c:423-434 | A word for another row first writes the pending row as it stood: once if it is in the application area, never otherwise. |
| FlashRow.StoreKeepsInvariant | src/bootloader.c:420-446 | Storing keeps the buffer invariant: the size, an aligned base or the sentinel, and fill above the high-water index. |
| FlashRow.FlushKeepsInvariant | src/bootloader.c:299-318 | Flushing keeps the buffer invariant. |
| FlashRow.RowCallsInAppArea | src/bootloader.c:310-313 | Every row write a flush or a store issues has its base in `[0x4000, 0xABFE]` and carries one full row. |
| Ascii.HexDigitValue | src/bootloader.c:329-340 | A hex digit's value is below 16, and below 10 for a decimal digit. |
| Ascii.Decimal | src/bootloader.c:241-252 | `%u` prints a non-empty string of decimal digits with no leading zero. |
| Ascii.Hex4 | src/bootloader.c:243-249 | `%04X` prints exactly four upper-case hex digits. |
| Ascii.ParseDecimalOfDecimal | tools/upload_firmware.py:298 | `int()` of what `%u` printed is the number printed. |
| Ascii.ParseHexOfHex4 | tools/upload_firmware.py:294 | `int(s, 16)` of what `%04X` printed is the number printed. |
| Persistent.PersistentRegion.constructor | src/main.c:19-50 | The persistent words start with whatever contents they had before the reset. |
| Engine.Initialize | src/bootloader.c:61-74 | No contract of its own: the start values of the statics. What it establishes is `InitializeEstablishesInv`. |
| Engine.Flush | src/bootloader.c:299-318 | No contract of its own: `FlushRow` on the whole state, appending its calls to the log. What it does is `FlushEffect`, `FlushIdempotent` and `FlushKeepsInv`. |
| Engine.StoreInstruction | src/bootloader.c:416-446 | No contract of its own: `StoreRow` on the whole state, counting three bytes for a stored word. What it does is `StoreCounts`, `StorePlacesWord` and `StoreInstructionKeepsInv`. |
| Engine.ApplyRecord | src/bootloader.c:385-481 | No contract of its own: the record-type switch. What each type does is `ApplyRecordFrame`, `ApplyAddressRecord`, `ApplyStartRecord`, `ApplyUnknownRecord`, `DataRecordCountsBytes` and `DataRecordPlacesWords`. |
| Engine.ParseHexLine | src/bootloader.c:346-484 | No contract of its own: decode, then apply. What it accepts and changes is `ParseHexLineAcceptance`, `ParseHexLineFrame` and `ParseHexLineKeepsInv`. |
| Engine.EraseAppArea | src/bootloader.c:262-290 | No contract of its own: the page loop from `APP_START` with the page counter reset. What it does is `ErasePagesEffect` and `ErasePagesCount`. |
| Engine.SendResponse | src/bootloader.c:214-235 | No contract of its own: appends `Response(code, message)` to the replies. How the tool reads that line is `FirmwareReplyClassified`. |
| Engine.Dispatch | src/bootloader.c:141-206 | No contract of its own: the command switch. What each case does is `VersionCommandEffect`, `EraseCommandEffect`, `HexLineAnswered`, `VerifyCommandEffect`, `JumpCommandEffect`, `ResetCommandEffect` and `UnknownCommandAnswered`. |
| Engine.ProcessLine | src/bootloader.c:129-207 | No contract of its own: empty lines are ignored, others counted and dispatched. What it guarantees is `CommandCountedFirst`, `OneReplyLinePerCommand`, `ResetOnlyOnJumpOrReset` and `ProcessLineKeepsInv`. |
| Engine.WriteFlash | src/bootloader.c:486-510 | No contract of its own: refused outside the application area, else the word loop. What it does is `WriteFlashEffect` and `WriteThenVerify`. |
| Engine.FlashMatches | src/bootloader.c:512-529 | No contract of its own: what `Bootloader_VerifyFlash` checks. That a successful write satisfies it is `WriteThenVerify`. |
| Engine.GroupsFrom | src/bootloader.c:406-448 | The group loop adds 3 to `bytesWritten` for every complete four-byte group, modulo 2^32. |
| Engine.StoreCounts | src/bootloader.c:438-446 | Every word is stored, so storing one adds exactly 3 to the byte counter. |
| Engine.CString | src/bootloader.c:111-112 | A C string is the buffer's prefix up to the first NUL and contains no NUL. |
| Engine.ConsumeByte | src/bootloader.c:104-122 | The row buffer keeps its size. What one byte does is stated by `ConsumeCrLf`, `ConsumePlainBytes` and `ConsumeByteKeepsInv`. |
| Engine.Consume | src/bootloader.c:102-123 | The row buffer keeps its size. What the loop does is stated by `ProcessCommandChunking`, `SendLine` and `ConsumeKeepsInv`. |
| Engine.ProcessCommand | src/bootloader.c:86-127 | The row buffer keeps its size. What one poll does is stated by `ProcessCommandChunking`, `ProcessCommandSetsHostActivity` and `ProcessCommandKeepsInv`. |
| Engine.GroupsChangeOnlyRow | src/bootloader.c:406-448 | A Data record changes only the row buffer, the driver log and the byte counter. |
| Engine.ErasePagesChangeOnlyLog | src/bootloader.c:276-287 | The erase loop changes only the driver log and the page counter. |
| Engine.EraseCommandKeepsBuffers | src/bootloader.c:147-159 | `E` leaves the row buffer, the line buffer and the activity flag alone. |
| Engine.ProcessLineKeepsRowLength | src/bootloader.c:129-207 | No command touches the line buffer or the activity flag, and the row keeps its size. |
| EngineProps.InitializeEstablishesInv | src/bootloader.c:61-74 | Initialization yields the invariant, Idle, an empty line buffer and no pending row. The persistent words and the logs are kept. |
| EngineProps.FlushKeepsInv | src/bootloader.c:299-318 | Flushing keeps the engine invariant and leaves no pending row. |
| EngineProps.StoreInstructionKeepsInv | src/bootloader.c:420-446 | Storing a word keeps the engine invariant. |
| EngineProps.GroupsKeepInv | src/bootloader.c:406-448 | The group loop keeps the engine invariant. |
| EngineProps.ApplyRecordKeepsInv | src/bootloader.c:385-481 | Every record type keeps the engine invariant. |
| EngineProps.ParseHexLineKeepsInv | src/bootloader.c:346-484 | Any line, accepted or not, keeps the engine invariant. |
| EngineProps.ErasePagesKeepInv | src/bootloader.c:276-287 | The erase loop hands the driver only application-area pages and keeps the invariant. |
| EngineProps.ProcessLineKeepsInv | src/bootloader.c:129-207 | Every command keeps the invariant. The commands hand the driver only application-area pages and rows (no command issues a word write), and `jumpToApp` stays false. |
| EngineProps.ConsumeByteKeepsInv | src/bootloader.c:102-123 | One received byte keeps the invariant. |
| EngineProps.ConsumeKeepsInv | src/bootloader.c:102-123 | The byte loop keeps the invariant. |
| EngineProps.ProcessCommandKeepsInv | src/bootloader.c:86-127 | Whatever bytes arrive, the invariant holds: no flash call outside the application area, no buffer overflow, and the jump flag stays false. |
| EngineProps.ConsumeKeepsHostActivity | src/bootloader.c:102-123 | The byte loop itself never changes the activity flag. |
| EngineProps.ProcessCommandChunking | src/bootloader.c:86-127 | Two polls do what one poll of the concatenated bytes does, so framing is independent of chunking. |
| EngineProps.ConsumePlainBytes | src/bootloader.c:118-122 | Bytes without a line ending are only buffered: the first 127 of a line are kept, later ones dropped, and nothing else changes. |
| EngineProps.ProcessCommandSetsHostActivity | src/bootloader.c:94-99 | Afterwards the activity flag is set iff the poll delivered bytes or it was already set. |
| EngineProps.ConsumeCrLf | src/bootloader.c:107-115 | CR dispatches the buffered line and empties the buffer; the LF that follows finds it empty and does nothing. |
| EngineProps.PlainLineBuffered | src/bootloader.c:118-122 | A line without line endings, sent to an empty buffer, is buffered whole. |
| EngineProps.SendLine | src/bootloader.c:102-123 | `cmd + "\r\n"` sent to an empty buffer runs `ProcessLine(cmd)` exactly once and leaves the buffer empty. |
| DispatchProps.VersionIsReplyLine | src/bootloader.c:241-252 | The version reply is one line: text without line endings, terminated by CR LF. |
| DispatchProps.CompleteReplyIsReplyLine | src/bootloader.c:181-185 | The `C` reply `+OK: N bytes, M pages` is one line. |
| DispatchProps.ApplyRecordFrame | src/bootloader.c:385-481 | A record changes only the row, the log, the byte counter, the extended address and (End of File only) the state. |
| DispatchProps.ParseHexLineFrame | src/bootloader.c:346-484 | The same frame for `ParseHexLine`: the state becomes Complete only for an accepted End of File record. |
| DispatchProps.ParseHexLineAcceptance | src/bootloader.c:346-484 | `ParseHexLine` accepts iff the line decodes with a matching checksum and has a type from 00 to 05. A rejected line leaves the whole state unchanged. |
| DispatchProps.CorruptLinesRejected | src/bootloader.c:364-382 | A record with one payload byte changed is rejected, and nothing changes. |
| DispatchProps.ApplyAddressRecord | src/bootloader.c:458-472 | Type 04 with two bytes sets `d0<<24 \| d1<<16`, and type 02 with two bytes sets `d0<<12 \| d1<<4`. Other lengths change nothing. All are accepted. |
| DispatchProps.ExtendedAddressRecords | src/bootloader.c:458-472 | The same, for the encoded lines of such records. |
| DispatchProps.ApplyStartRecord | src/bootloader.c:474-477 | Types 03 and 05 are accepted and change nothing. |
| DispatchProps.StartAddressRecordsIgnored | src/bootloader.c:474-477 | The same, for their encoded lines. |
| DispatchProps.ApplyUnknownRecord | src/bootloader.c:479-480 | Types above 05 are rejected and change nothing. |
| DispatchProps.UnknownRecordTypesRejected | src/bootloader.c:479-480 | The same, for their encoded lines, even with a correct checksum. |
| DispatchProps.CommandCountedFirst | src/bootloader.c:136-139 | `blLastCmd` and `blCmdCount` (mod 2^16) are set for every command. The only other persistent words written are `J`'s two hand-off words. |
| DispatchProps.HexLineIgnoredWhileBusy | src/bootloader.c:161-175 | Outside Idle and ReceivingHex, a `:` line is counted and otherwise ignored: no reply and no change. |
| DispatchProps.HexLineAnswered | src/bootloader.c:161-175 | In Idle or ReceivingHex, a `:` line gets exactly one reply: `+` if accepted, `-HEX error` otherwise. It leaves ReceivingHex, or Complete after an accepted End of File record. |
| DispatchProps.EraseCommandEffect | src/bootloader.c:147-159 | `E` either succeeds (`+Erased`, ReceivingHex) or fails (`-Erase failed`, Error). The page counter is the erase loop's, and the row is untouched. |
| DispatchProps.VerifyCommandEffect | src/bootloader.c:177-186 | `C` flushes first, then sets Complete from any state and reports both counters. |
| DispatchProps.JumpCommandEffect | src/bootloader.c:188-194 | `J` flushes, replies `+Jumping...`, writes `0xB00B` and `0xB007` to the two hand-off words and resets. |
| DispatchProps.VersionCommandEffect | src/bootloader.c:143-145 | `V` replies with the version line built from the persistent words, and nothing else changes. |
| DispatchProps.ResetCommandEffect | src/bootloader.c:196-201 | `X` replies `+Resetting...` and resets, and nothing else changes. |
| DispatchProps.ResetOnlyOnJumpOrReset | src/bootloader.c:141-206 | A line ends in a reset iff it starts with `J` or `X`. |
| DispatchProps.UnknownCommandAnswered | src/bootloader.c:203-205 | Any other first character, the unhandled `R` and `W` included, is counted and answered `?Unknown command`. |
| DispatchProps.VersionRepliesOneLine | src/bootloader.c:143-145 | `V` appends exactly one reply line. |
| DispatchProps.EraseRepliesOneLine | src/bootloader.c:147-159 | `E` appends exactly one reply line. |
| DispatchProps.HexRepliesOneLine | src/bootloader.c:161-175 | An accepted-state `:` line appends exactly one reply line. |
| DispatchProps.VerifyRepliesOneLine | src/bootloader.c:177-186 | `C` appends exactly one reply line. |
| DispatchProps.JumpRepliesOneLine | src/bootloader.c:188-194 | `J` appends exactly one reply line. |
| DispatchProps.ResetRepliesOneLine | src/bootloader.c:196-201 | `X` appends exactly one reply line. |
| DispatchProps.UnknownRepliesOneLine | src/bootloader.c:203-205 | The default case appends exactly one reply line. |
| DispatchProps.OneReplyLinePerCommand | src/bootloader.c:129-207 | An empty line, or a `:` line while busy, sends no reply. Every other line sends exactly one reply, and it is a single line. |
| CountingProps.GroupCountIsQuotient | src/bootloader.c:406-408 | The number of complete four-byte groups in `n` bytes is `n / 4`. |
| CountingProps.DataRecordCountsBytes | src/bootloader.c:392-448 | A Data record in the application area adds `3 * (len / 4)` to `bytesWritten` (mod 2^32). Outside the area it changes nothing. |
| CountingProps.ErasePagesStep | src/bootloader.c:279-283 | A page the driver erases is logged and counted, and the loop moves to the next page. |
| CountingProps.ErasePagesFails | src/bootloader.c:279-282 | A page the driver fails is logged, and the loop stops with false. |
| CountingProps.ErasePagesExtendLog | src/bootloader.c:276-287 | The erase loop only appends to the driver log. |
| CountingProps.ErasePagesCalls | src/bootloader.c:276-287 | The appended calls erase the pages `address + k * page` in order, each below `APP_END`, and every call but the last succeeded. |
| CountingProps.ErasePagesOutcome | src/bootloader.c:276-289 | The loop fails iff its last call failed; on success it has reached `APP_END`. |
| CountingProps.ErasePagesCount | src/bootloader.c:266-287 | `pagesErased` counts exactly the pages erased successfully. |
| CountingProps.ErasePagesEffect | src/bootloader.c:262-290 | `EraseAppArea` in full: the pages in order, stop at the first failure, reach `APP_END` on success, and count the successful pages. |
| PlacementProps.DataRecordPlacesWords | src/bootloader.c:387-450 | For a Data record in the application area, complete group `k` yields `d[4k] \| d[4k+1] << 8 \| d[4k+2] << 16`. When that address's row is in the application area, the word sits at slot `(pc + 2k - base) / 2` of row `base`: either in the buffered row, or in a row write the record handed to the driver. |
| PlacementProps.GroupPlaced | src/bootloader.c:406-448 | The group loop from offset `i` leaves every later complete group `k`'s word accounted for at address `pc + 2k`: buffered, written in a row write it issued, or outside the application area. |
| PlacementProps.GroupsKeepPlaced | src/bootloader.c:406-448 | The group loop never loses a word already accounted for at a lower address of the same parity. |
| PlacementProps.StoreKeepsPlaced | src/bootloader.c:416-446 | Storing a word at another address keeps every accounted-for word: a row write already issued stays in the log, and a row switch writes the old row with its slots intact. |
| WriteProps.WriteWordsStep | src/bootloader.c:497-507 | A group the driver writes is logged, and the loop goes on with the next group. |
| WriteProps.WriteWordsExtendLog | src/bootloader.c:497-507 | The write loop changes nothing but the log, and only appends to it. |
| WriteProps.WriteWordsCalls | src/bootloader.c:497-507 | The appended calls write group `k`'s word at `address + 4k` in order, and every call but the last succeeded. |
| WriteProps.WriteWordsOutcome | src/bootloader.c:497-509 | The loop fails iff its last call failed; on success every group was written. |
| WriteProps.WriteFlashEffect | src/bootloader.c:486-510 | Outside the application area the write is refused with no call. Inside, there is one word write per group in order, stopping at the first failure, and success iff every group was written. |
| WriteProps.WriteFlashChecksOnlyStart | src/bootloader.c:486-505 | Only the start address is checked: when every call succeeds, a write from an application-area address whose last group lies past `APP_END` ends with a word write at `address + len - 4`, outside the area. |
| WriteProps.WriteFlashPastAppEnd | src/bootloader.c:486-505 | Eight bytes at `0xABFE` make two word writes, the second at `0xAC02`, which is outside the application area. |
| WriteProps.GroupAddressesDistinct | src/bootloader.c:503 | Distinct groups of a buffer shorter than 64 KiB land at distinct 32-bit addresses. |
| WriteProps.WriteThenVerify | src/bootloader.c:512-529 | After a successful `WriteFlash`, `VerifyFlash` over the words the driver holds finds every group in place. |
| Bootloader.Bootloader.constructor | src/bootloader.c:15-32 | The statics start with the file's initialisers. |
| Bootloader.Bootloader.Initialize | src/bootloader.c:61-74 | The fields become `Engine.Initialize` of the old state. |
| Bootloader.Bootloader.ClearHostActivity | src/bootloader.c:76-79 | Only the activity flag is cleared. |
| Bootloader.Bootloader.HadHostActivity | src/bootloader.c:81-84 | Returns the activity flag. |
| Bootloader.Bootloader.ShouldJumpToApp | src/bootloader.c:209-212 | Returns the jump flag. |
| Bootloader.Bootloader.FlushFlashBuffer | src/bootloader.c:299-318 | The in-place pad-and-write loop does exactly `Flush` (see `FlushEffect`). |
| Bootloader.Bootloader.StoreInstruction | src/bootloader.c:416-446 | The in-place refill and store does exactly `StoreInstruction` (see `StorePlacesWord`). |
| Bootloader.Bootloader.SendResponse | src/bootloader.c:214-235 | Appends `code + message`, or `code + "\r\n"` for an empty message. |
| Bootloader.Bootloader.SendVersion | src/bootloader.c:237-260 | Appends the version line of the persistent words. |
| Bootloader.Bootloader.EraseAppArea | src/bootloader.c:262-290 | The loop with its early return does exactly `EraseAppArea` (see `ErasePagesEffect`). |
| Bootloader.Bootloader.ErasePagesFrom | src/bootloader.c:276-289 | The page loop changes only the log and the page counter, as `ErasePages` says. |
| Bootloader.Bootloader.ParseHexLine | src/bootloader.c:346-484 | The byte-level parse with its running 8-bit checksum does exactly `ParseHexLine` (see `ParseHexLineAcceptance`). |
| Bootloader.Bootloader.ApplyRecord | src/bootloader.c:385-481 | The record-type switch does exactly `ApplyRecord`. |
| Bootloader.Bootloader.StoreGroups | src/bootloader.c:406-448 | The group loop does exactly `GroupsFrom` from offset 0. |
| Bootloader.Bootloader.EraseCommand | src/bootloader.c:147-159 | The `E` case does exactly `EraseCommand` (see `EraseCommandEffect`). |
| Bootloader.Bootloader.HexCommand | src/bootloader.c:161-175 | The `:` case does exactly `HexCommand` (see `HexLineAnswered`). |
| Bootloader.Bootloader.VerifyCommand | src/bootloader.c:177-186 | The `C` case does exactly `VerifyCommand` (see `VerifyCommandEffect`). |
| Bootloader.Bootloader.JumpCommand | src/bootloader.c:188-194 | The `J` case does exactly `JumpCommand` (see `JumpCommandEffect`). |
| Bootloader.Bootloader.ProcessLine | src/bootloader.c:129-207 | Counting and dispatch do exactly `ProcessLine` (see `OneReplyLinePerCommand`, `ProcessLineKeepsInv`). |
| Bootloader.Bootloader.BufferedLine | src/bootloader.c:111-112 | The NUL-terminated buffer is read as the C string of `rxBuffer[..rxIndex]`. |
| Bootloader.Bootloader.ConsumeByte | src/bootloader.c:104-122 | One pass of the byte loop does exactly `ConsumeByte`. |
| Bootloader.Bootloader.ProcessCommand | src/bootloader.c:86-127 | The byte loop over one poll does exactly `ProcessCommand` (see `ProcessCommandChunking`, `ProcessCommandKeepsInv`). |
| Bootloader.Bootloader.WriteFlash | src/bootloader.c:486-510 | The early refusal plus the word loop do exactly `WriteFlash` (see `WriteFlashEffect`). |
| Bootloader.Bootloader.WriteGroups | src/bootloader.c:497-509 | The word loop changes only the log, as `WriteWordsFrom` says. |
| Bootloader.Bootloader.RequestResetToApplicationNow | src/bootloader.c:45-59 | Writes `blJumpAttempted = 0xB00B` and `blJumpMagic = 0xB007`, then resets. |
| Bootloader.VerifyFlash | src/bootloader.c:512-529 | Returns true iff every group's word equals the word read back at `address + 4k`. |
| Bootloader.ReadPayload | src/bootloader.c:364-373 | The payload bytes, and the running checksum equal to the 8-bit sum of the header bytes and all payload bytes. |
| Bootloader.ReadBytes | src/bootloader.c:369-373 | The loop stores every payload byte and keeps the truncated sum. |
| Bootloader.DecodeRejectsHeader | src/bootloader.c:355-358 | A line with no start code, or too short for its count, is rejected. |
| Bootloader.DecodeChecksum | src/bootloader.c:364-382 | The `(~checksum) + 1` test of the running sum accepts exactly the lines `Decode` accepts. |
| Bootloader.CStringStopsAtNul | src/bootloader.c:111-112 | A C string ends at the first NUL of its buffer. |
| Handoff.IsValidApplication | src/main.c:61-65 | No contract of its own: the reset-vector word is neither `0xFFFFFF` nor `0`. What a raw write does to it is `ValidAfterWritingResetVector`. |
| Handoff.EntryWindowPeriods | src/main.c:104 | No contract of its own: the 16-bit rounded-up division. Its values are `EntryWindowRoundsUp` and `EntryWindowWraps`. |
| Handoff.EntryWindow | src/main.c:102-132 | No contract of its own: the periods over a poll schedule. What it does is `QuietWindowTimesOut` and `FirstTrafficEndsPeriod`. |
| Handoff.ResetToApplication | src/main.c:89-93 | No contract of its own: store `0xB007` in `blJumpMagic`, then reset. `MainLoop.ResetToApplication` is proved to do it, and `MainLoopNeverHandsOffByFlag` shows `main` never reaches it. |
| Handoff.Boot | src/main.c:134-158 | No contract of its own: `blVectorToApp = 0`, `Bootloader_Initialize`, `Bootloader_ClearHostActivity`. What it establishes is `BootEstablishesInv`. |
| Handoff.ValidAfterWritingResetVector | src/main.c:61-65 | After a successful raw write at `0x4000`, the reset-vector check passes iff the first word is neither `0xFFFFFF` nor `0`. |
| Handoff.ServicePoll | src/main.c:118-124 | The row buffer keeps its size. Its guard is stated by `MainPassGuard` and `QuietPollsChangeNothing`. |
| Handoff.PollsFrom | src/main.c:114-130 | The row buffer keeps its size. Its early exit is stated by `QuietPollsChangeNothing` and `FirstTrafficEndsPeriod`. |
| Handoff.PeriodsFrom | src/main.c:109-131 | The row buffer keeps its size. Its time-out is stated by `QuietWindowTimesOut`. |
| Handoff.MainPass | src/main.c:167-193 | The row buffer keeps its size. Its guard is stated by `MainPassGuard`. |
| Handoff.MainLoopFrom | src/main.c:165-194 | The row buffer keeps its size. That it never hands off by the flag is `MainLoopNeverHandsOffByFlag`. |
| Handoff.EntryWindowRoundsUp | src/main.c:104 | Up to 65506 ms the window is `ceil(windowMs / 30)` periods, and 15000 ms gives 500. |
| Handoff.EntryWindowWraps | src/main.c:104 | Above 65506 ms the 16-bit sum wraps and the window has no period. |
| Handoff.QuietPollsChangeNothing | src/main.c:114-130 | Polls that deliver nothing change nothing and do not end the period. |
| Handoff.QuietWindowTimesOut | src/main.c:109-131 | A window without host traffic runs all its periods and returns with the engine unchanged. |
| Handoff.FirstTrafficEndsPeriod | src/main.c:114-130 | The window returns right after the first poll that brings bytes; its effect is that poll's `ProcessCommand`. |
| Handoff.BootEstablishesInv | src/main.c:134-158 | `main` reaches its loop in the invariant: Idle, no activity, an empty line buffer and `blVectorToApp = 0`. |
| Handoff.MainLoopNeverHandsOffByFlag | src/main.c:165-194 | The main loop only serves polls, and its `ResetToApplication` branch is never taken. |
| Handoff.MainPassGuard | src/main.c:167-179 | A pass on an unconfigured or suspended device changes nothing; otherwise it is one `ProcessCommand`. |
| MainLoop.ResetToApplication | src/main.c:89-93 | Writes `blJumpMagic = 0xB007` and resets. |
| MainLoop.Boot | src/main.c:134-158 | `blVectorToApp = 0`, then `Bootloader_Initialize`, then `Bootloader_ClearHostActivity`. |
| MainLoop.ServicePoll | src/main.c:118-124 | Processes commands only on a configured device that is not suspended. |
| MainLoop.PollPeriod | src/main.c:111-130 | The inner polling loop, with its early return on activity or reset, does exactly `PollsFrom`. |
| MainLoop.EntryWindow | src/main.c:102-132 | Both loops of `Bootloader_EntryWindow` do exactly `EntryWindow` (see `QuietWindowTimesOut`, `FirstTrafficEndsPeriod`). |
| MainLoop.MainPass | src/main.c:165-193 | One pass of `main`'s loop does exactly `MainPass`. |
| MainLoop.Run | src/main.c:134-196 | `main` over a finite sequence of polls does exactly `Boot`, then `MainLoopFrom`. |
| UploadTool.Strip | tools/upload_firmware.py:169 | No contract of its own: skip leading, then trailing whitespace. What it keeps is `StripOf` and `StripIdempotent`. |
| UploadTool.HexLines | tools/upload_firmware.py:163-173 | No contract of its own: the record filter. What it keeps is `HexLinesAppend`, `HexLinesOfLine`, `HexLinesShape` and `EncodedRecordKept`. |
| UploadTool.ClassifyReply | tools/upload_firmware.py:105-112 | No contract of its own: the switch on the reply's first character. How it reads the firmware's replies is `FirmwareReplyClassified` and `VersionReply`. |
| UploadTool.ReceivedResponse | tools/upload_firmware.py:98 | No contract of its own: `readline()`, ASCII decode, `strip()`. What it yields for a firmware line is `ReceivedLine`. |
| UploadTool.VersionFields | tools/upload_firmware.py:271-300 | No contract of its own: `{}` for `None` or an empty line, else the pattern loop. Its keys and values are `VersionFieldsKeys` and `FirmwareVersionFields`. |
| UploadTool.FieldValue | tools/upload_firmware.py:291-298 | No contract of its own: `int(value, 16)` or `int(value)` of the captured digits. That it reads back what the firmware printed is `ParseDecimalOfDecimal` and `ParseHexOfHex4`. |
| UploadTool.HeaderParses | tools/upload_firmware.py:223-226 | No contract of its own: the three `int(..., 16)` conversions succeed. When it fails the loop raises (`UploadRaises`); the length it yields is `DeclaredLengthIsByteCount`. |
| UploadTool.UploadFrom | tools/upload_firmware.py:219-234 | No contract of its own: the record loop from record `i`. Its outcomes are `UploadCompletes`, `UploadGivesUp` and `UploadRaises`. |
| UploadTool.StripOf | tools/upload_firmware.py:169 | `strip()` keeps exactly the text between the leading and trailing whitespace. |
| UploadTool.StripIdempotent | tools/upload_firmware.py:169 | Stripping twice strips nothing more. |
| UploadTool.ParseHexFile | tools/upload_firmware.py:163-173 | The loop returns `HexLines(lines)`: the stripped lines starting with `:`, in file order. |
| UploadTool.HexLinesAppend | tools/upload_firmware.py:168-171 | The filter works line by line and keeps the file's order. |
| UploadTool.HexLinesOfLine | tools/upload_firmware.py:169-171 | One line is kept, stripped, iff it starts with `:` after stripping. |
| UploadTool.HexLinesShape | tools/upload_firmware.py:163-173 | Every kept record starts with `:` and has no surrounding whitespace, and there are at most as many records as lines. |
| UploadTool.ReadLine | tools/upload_firmware.py:98 | `readline()` returns a prefix of the stream with no line feed before its last character, and it ends in a line feed unless it took the whole stream. |
| UploadTool.AsciiOnly | tools/upload_firmware.py:98 | The ASCII decode with `errors='ignore'` yields only characters below 128, and never more than it was given. Which characters, in which order, is `AsciiOnlyChar` with `AsciiOnlyAppend`. |
| UploadTool.AsciiOnlyChar | tools/upload_firmware.py:98 | A single byte is kept iff it is below 128. |
| UploadTool.AsciiOnlyAppend | tools/upload_firmware.py:98 | The decode of a concatenation is the concatenation of the decodes. With `AsciiOnlyChar`: the ASCII bytes are kept in order and the rest dropped. |
| UploadTool.EncodedRecordKept | tools/upload_firmware.py:169-171 | A record line a HEX writer emits is kept intact, whatever whitespace surrounds it. |
| UploadTool.ReadLineStopsAtLf | tools/upload_firmware.py:98 | `readline()` of a reply line followed by more bytes returns exactly that line. |
| UploadTool.AsciiOnlyKeepsAscii | tools/upload_firmware.py:98 | The ASCII decode with `errors='ignore'` keeps ASCII text intact. |
| UploadTool.ReceivedLine | tools/upload_firmware.py:98 | The response read from a firmware reply line is its text without the line ending. |
| UploadTool.FirmwareReplyClassified | tools/upload_firmware.py:105-112 | For each firmware reply: `+text` gives (True, text), `-text` gives (False, text), and `?...` gives (False, "Unknown command"). |
| UploadTool.RunLength | tools/upload_firmware.py:281-284 | The greedy run of `\d` or `[0-9A-Fa-f]` characters: every character in it is in the class, and the next is not. |
| UploadTool.SearchFrom | tools/upload_firmware.py:288 | `re.search` finds the leftmost match: no earlier position matches, and `None` means no position matches. |
| UploadTool.Captured | tools/upload_firmware.py:291 | `group(1)` is a non-empty run of the pattern's digit class. |
| UploadTool.ParseVersionFields | tools/upload_firmware.py:271-300 | Returns `VersionFields(line)`: `{}` for `None` or an empty line, else the dictionary of the pattern loop. |
| UploadTool.MatchPatterns | tools/upload_firmware.py:287-298 | The loop over the pattern table builds `FieldsOf(text, pats)`. |
| UploadTool.FieldsOfKey | tools/upload_firmware.py:287-298 | With distinct keys, a key is present iff its pattern matches, and then holds the captured digits' value. |
| UploadTool.KeyNotInFields | tools/upload_firmware.py:287-298 | A key no pattern has never appears. |
| UploadTool.FieldsOfDomain | tools/upload_firmware.py:287-298 | Every key in the dictionary comes from the pattern table. |
| UploadTool.VersionFieldsKeys | tools/upload_firmware.py:271-300 | `sj`/`jrc`/`cc`/`rc` is present iff its pattern matches, with `rc` read in hex and the others in decimal. No other key appears. |
| UploadTool.PatternKeysDistinct | tools/upload_firmware.py:280-285 | The four keys are distinct. |
| UploadTool.VersionTextClean | src/bootloader.c:243 | The firmware's version text is printable and never contains `C=`. |
| UploadTool.NoMatchWithoutCEquals | tools/upload_firmware.py:282-284 | `JRC=`, `CC=` and `RC=` never match a text without `C=`. |
| UploadTool.SjCapturedIn | tools/upload_firmware.py:281 | In `BLv1.2 SJ=<digits> ...`, the `SJ=` pattern captures exactly the digits. |
| UploadTool.SjCaptured | tools/upload_firmware.py:281 | `SJ=` captures the decimal digits of `blStubToAppCount` from the firmware's version text. |
| UploadTool.OnlySjField | tools/upload_firmware.py:280-300 | A non-empty text without `C=` whose `SJ=` pattern captures `sj` reads as `{"sj": int(sj)}`. |
| UploadTool.VersionReply | tools/upload_firmware.py:105-112 | The firmware's version line is read as a success whose text is the line without CR LF. |
| UploadTool.FirmwareVersionFields | tools/upload_firmware.py:271-300 | Cross-file: for the firmware's version line, `send_command` succeeds and `_parse_version_fields` yields exactly `{"sj": blStubToAppCount}`. |
| UploadTool.UploadRecords | tools/upload_firmware.py:219-234 | The record loop returns `UploadFrom(records, sendOk, 0, 0, 0)`. |
| UploadTool.UploadCompletes | tools/upload_firmware.py:219-234 | When every record is sent, `errors` is the number of failed sends (at most 5), and `bytes_sent` is the sum of the byte counts the records declare. |
| UploadTool.UploadGivesUp | tools/upload_firmware.py:229-234 | The loop aborts at the sixth failed send, at that record, having counted the bytes of every record up to and including it. |
| UploadTool.UploadRaises | tools/upload_firmware.py:223-226 | When the loop raises, it is at the first record of at least 11 characters whose type, address or length field is not hex, and at most five sends failed before it. |
| UploadTool.DeclaredLengthIsByteCount | tools/upload_firmware.py:226 | The tool's `int(record[1:3], 16)` equals the firmware's `HexToByte(record[1], record[2])`. |
| UploadTool.EncodedLength | tools/upload_firmware.py:226 | For a record a HEX writer emitted, `rec_len` is the payload length. |
| UploadTool.RalphLoopArgumentError | tools/upload_firmware.py:337-338 | `ValueError` is raised iff `iterations <= 0`. |

## Left out

- **USB CDC plumbing.** `getsUSBUSART`, `putsUSBUSART`, `CDCTxService`, `USBDeviceTasks`, the
  TX-ready wait loops and the device-state queries are not modelled. Each poll is the bytes it
  delivers plus whether the device is configured and awake (`Poll`), and replies are appended
  to a list.
- **Flash driver.** `FLASH_ErasePage`, `FLASH_WriteRow24`, `FLASH_WriteWord24`,
  `FLASH_ReadWord24` and `FLASH_Unlock` are not modelled. Their calls go to a log, their
  verdicts are parameters, and a read-back is the last successful word write to that address
  (`LastWordWritten`), or an arbitrary `blank` value. Erasing does not change what is read back.
- **Row and page sizes.** They come from a driver header that is not part of this model, so
  they are parameters (`Geometry`): the row spans `2 * rowInstructions` PC units, a power of
  two.
- **Hardware control.** Delays, `__builtin_disi`, `USBDeviceDetach`, LEDs and peripheral
  registers are not modelled. `asm("RESET")` is the terminal outcome `Reset`, and no byte after
  it is processed. `JumpToApplication` is never called by `main` and is not modelled. The reset
  stub that reads the hand-off words is not part of this model.
- HexRecord.Decode: rejects a line shorter than `11 + 2 * count` characters, and a count above
  64. The C code does not check the length. For counts up to 58 it reads the NUL terminator
  and whatever earlier, longer lines left in the 128-byte `rxBuffer`, and can accept: `:000000000`
  reads its last checksum digit as the NUL, computes 0 and is answered `+`, where the model
  answers `-HEX error`. Counts from 59 read past `rxBuffer`, and counts above 64 also write
  past `data[64]`. `Bootloader.Bootloader.ParseHexLine` makes the same rejection.
- Bootloader.Bootloader.WriteFlash: requires a length that
  is a multiple of 4 and below 2^16. The C loops read up to three bytes past a shorter tail.
- Bootloader.VerifyFlash: requires a length that
  is a multiple of 4 and below 2^16. The C loops read up to three bytes past a shorter tail.
- Bootloader.Bootloader.ProcessCommand: it takes the bytes of one poll as given. The 64-byte
  limit of `getsUSBUSART` is not imposed.
- Bootloader.Bootloader.ProcessLine: the 100 ms delays before `J` and `X` reset are not
  modelled.
- Engine.ConsumeByte: its own contract states only that the row keeps its size; what it does is proved in
  `EngineProps` and `DispatchProps`, and the matching `Bootloader` method is proved equal to it.
- Engine.Consume: its own contract states only that the row keeps its size; what it does is proved in
  `EngineProps` (`ConsumeSplit`, `ConsumeKeepsInv`), and `Bootloader.Bootloader.ProcessCommand`
  runs it byte by byte.
- Engine.ProcessCommand: its own contract states only that the row keeps its size; what it does is proved in
  `EngineProps` and `DispatchProps`, and the matching `Bootloader` method is proved equal to it.
- Handoff.ServicePoll: its own contract states only that the row keeps its size; what it does is proved by
  the `Handoff` lemmas named in its row, and the matching `MainLoop` method is proved equal to it.
- Handoff.PollsFrom: its own contract states only that the row keeps its size; what it does is proved by
  the `Handoff` lemmas named in its row, and the matching `MainLoop` method is proved equal to it.
- Handoff.PeriodsFrom: its own contract states only that the row keeps its size; what it does is proved by
  the `Handoff` lemmas named in its row, and the matching `MainLoop` method is proved equal to it.
- Handoff.MainPass: its own contract states only that the row keeps its size; what it does is proved by
  the `Handoff` lemmas named in its row, and the matching `MainLoop` method is proved equal to it.
- Handoff.MainLoopFrom: its own contract states only that the row keeps its size; what it does is proved by
  the `Handoff` lemmas named in its row, and the matching `MainLoop` method is proved equal to it.
- Handoff.EntryWindow: the timer is not modelled: the polls of
  each period are given as a schedule, and a period ends when its polls are used up.
  `Bootloader_EntryWindow` is not called by `main`, and it is modelled as written.
- MainLoop.EntryWindow: the timer is not modelled: the polls of
  each period are given as a schedule, and a period ends when its polls are used up.
  `Bootloader_EntryWindow` is not called by `main`, and it is modelled as written.
- MainLoop.Run: it runs over a finite sequence of polls; the infinite `while(1)` is that
  sequence's limit.
- UploadTool.FieldValue: accepts only ASCII digits. Python's
  `int()` also accepts signs, surrounding whitespace, underscores and non-ASCII digits, and
  Python's `\d`, `\w` and `\b` are Unicode-aware. The firmware sends ASCII only.
- UploadTool.HeaderParses: accepts only ASCII hex digits. Python's `int(s, 16)` also accepts
  a `0x` or `0X` prefix, signs, surrounding whitespace, underscores and non-ASCII digits. So a
  field such as `0x` followed by hex digits parses in Python but raises in the model.
- **Unreachable `rc` branch.** The `except ValueError` branch for `rc` can never be taken,
  because the captured run is always hex digits, so it is not modelled.
- UploadTool.ParseHexFile: it starts from the lines Python's text mode yields; opening the
  file and splitting it into lines are not modelled.
- UploadTool.ReceivedResponse: it models `readline()` on the received bytes; timeouts and
  the serial exception path are not modelled.
- UploadTool.UploadRecords: it models the record loop only. Progress output, the version
  and erase steps before it, and the verify and jump steps after it are not modelled. The
  result of each send is a parameter.
- **The rest of the upload tool.** Port discovery, argument parsing, CSV logging, retry timing
  and everything in `ralph_loop` after its argument check are not modelled.
- **`sprintf` bounds.** The model does not check that a formatted reply fits the 64-, 80- or
  128-byte buffer it is printed into.
