/** The update engine of `src/bootloader.c` as pure functions over one value
    holding every static variable of the file, the persistent words it touches,
    the replies sent so far and the calls handed to the flash driver so far.

    The class in `bootloader.dfy` keeps the same state in fields and arrays and
    each of its methods is proved to do exactly what the function of the same
    name here says. */
module Engine {
  import opened Ascii
  import opened HexRecord
  import opened FlashRow
  import opened Persistent

  /** One byte as received from the USB CDC endpoint. */
  type Byte = x: int | 0 <= x < 256

  const RX_BUFFER_SIZE: nat := 128

  const CMD_READ_VERSION: char := 'V'
  const CMD_READ_FLASH: char := 'R'
  const CMD_WRITE_FLASH: char := 'W'
  const CMD_ERASE_FLASH: char := 'E'
  const CMD_VERIFY: char := 'C'
  const CMD_JUMP_APP: char := 'J'
  const CMD_RESET: char := 'X'
  const CMD_HEX_RECORD: char := ':'

  const RSP_OK: char := '+'
  const RSP_ERROR: char := '-'
  const RSP_UNKNOWN: char := '?'

  const VERSION_STRING: string := "BLv1.2"

  const JUMP_ATTEMPT_MAGIC: U16 := 0xB00B
  const JUMP_MAGIC_VALUE: U16 := 0xB007

  datatype BlState = Idle | ReceivingHex | Programming | Verifying | Complete | Error

  /** What a step ends in: the device keeps running, or it executes `RESET`
      (after which the reset stub, not part of this model, takes over). */
  datatype Outcome = Running | Reset

  /** The statics of `bootloader.c`: `rx` is `rxBuffer[..rxIndex]` and `row` is
      the flash row buffer; `replies` and `flash` are what went out to the
      host and to the flash driver. */
  datatype Machine = Machine(
    state: BlState,
    jumpToApp: bool,
    extendedAddress: nat,
    hostActivity: bool,
    rx: string,
    row: Row,
    bytesWritten: nat,
    pagesErased: nat,
    diag: Diag,
    replies: seq<string>,
    flash: seq<FlashCall>)
  {
    /** Every variable within its C type and the row buffer's invariant. */
    predicate Valid(g: Geometry)
      requires g.Valid()
    {
      && RowInvariant(g, row)
      && |rx| < RX_BUFFER_SIZE
      && extendedAddress < U32_MOD
      && bytesWritten < U32_MOD
      && pagesErased < U32_MOD
    }
  }

  /** The outcome of a call that also returns a flag (`ParseHexLine`,
      `EraseAppArea`). */
  datatype Flagged = Flagged(machine: Machine, ok: bool)

  /** The outcome of a call that may end in a reset (`ProcessLine`,
      `ProcessCommand`). */
  datatype Stepped = Stepped(machine: Machine, outcome: Outcome)

  /** `Bootloader_Initialize`: the statics get their start values; the
      persistent words, host activity flag, buffer contents and the logs are
      left as they were. */
  function Initialize(m: Machine): Machine
  {
    m.(state := Idle, jumpToApp := false, rx := [], extendedAddress := 0,
       row := Row(SENTINEL, m.row.slots, 0), bytesWritten := 0, pagesErased := 0)
  }

  /** `FlushFlashBuffer` on the whole state. */
  function Flush(m: Machine): Machine
  {
    var f := FlushRow(m.row);
    m.(row := f.row, flash := m.flash + f.calls)
  }

  /** Placing one program word into the row buffer, counting its three bytes
      when it was stored. */
  function StoreInstruction(g: Geometry, m: Machine, wordAddr: nat, word: nat): Machine
    requires g.Valid() && |m.row.slots| == g.rowInstructions
  {
    var s := StoreRow(g, m.row, wordAddr, word);
    m.(row := s.row, flash := m.flash + s.calls,
       bytesWritten := if s.stored then (m.bytesWritten + 3) % U32_MOD else m.bytesWritten)
  }

  /** The number of complete four-byte groups from offset `i` on. */
  function GroupCount(n: nat, i: nat): nat
    decreases n - i
  {
    if i + 3 < n then 1 + GroupCount(n, i + 4) else 0
  }

  lemma ModAddAssoc(a: nat, b: nat, c: nat)
    ensures ((a + b) % U32_MOD + c) % U32_MOD == (a + b + c) % U32_MOD
  {
    var q := (a + b) / U32_MOD;
    assert a + b == q * U32_MOD + (a + b) % U32_MOD;
    DivModUnique((a + b + c) - q * U32_MOD, U32_MOD, ((a + b) % U32_MOD + c) / U32_MOD, ((a + b) % U32_MOD + c) % U32_MOD);
    DivModUnique(a + b + c, U32_MOD, q + ((a + b) % U32_MOD + c) / U32_MOD, ((a + b) % U32_MOD + c) % U32_MOD);
  }

  /** The group loop of a Data record from group offset `i` on: every group of
      four bytes that is complete yields one word at `pc + i / 2`, a trailing
      partial group is skipped. */
  function GroupsFrom(g: Geometry, m: Machine, data: seq<nat>, pc: nat, i: nat): (r: Machine)
    requires g.Valid() && |m.row.slots| == g.rowInstructions
    requires forall k :: 0 <= k < |data| ==> data[k] < 256
    ensures m.bytesWritten < U32_MOD ==> r.bytesWritten == (m.bytesWritten + 3 * GroupCount(|data|, i)) % U32_MOD
    decreases |data| - i
  {
    if i >= |data| then m
    else if i + 3 < |data| then
      var word := InstructionWord(data[i], data[i + 1], data[i + 2]);
      var m1 := StoreInstruction(g, m, pc + i / 2, word);
      StoreCounts(g, m, pc + i / 2, word);
      var r := GroupsFrom(g, m1, data, pc, i + 4);
      ModAddAssoc(m.bytesWritten, 3, 3 * GroupCount(|data|, i + 4));
      r
    else GroupsFrom(g, m, data, pc, i + 4)
  }

  /** Every word is stored: the row keeps its size and the counter grows by 3. */
  lemma StoreCounts(g: Geometry, m: Machine, wordAddr: nat, word: nat)
    requires g.Valid() && |m.row.slots| == g.rowInstructions
    ensures var m1 := StoreInstruction(g, m, wordAddr, word);
      |m1.row.slots| == g.rowInstructions && m1.bytesWritten == (m.bytesWritten + 3) % U32_MOD
  {
    StoreAlwaysStores(g, m.row, wordAddr, word);
  }

  lemma StorePlacesWordLength(g: Geometry, m: Machine, wordAddr: nat, word: nat)
    requires g.Valid() && |m.row.slots| == g.rowInstructions
    ensures |StoreInstruction(g, m, wordAddr, word).row.slots| == g.rowInstructions
  {
  }

  /** The program-counter address of a Data record: the 32-bit byte address
      `extendedAddress + address`, halved. */
  function DataPc(m: Machine, r: Record): nat
  {
    (m.extendedAddress + r.address) % U32_MOD / 2
  }

  /** A Data record: skipped (but accepted) outside the application area. */
  function DataRecord(g: Geometry, m: Machine, r: Record): Machine
    requires g.Valid() && |m.row.slots| == g.rowInstructions && r.WellFormed()
  {
    var pc := DataPc(m, r);
    if !InAppArea(pc) then m else GroupsFrom(g, m, r.data, pc, 0)
  }

  /** The record-type switch of `Bootloader_ParseHexLine`, for a record whose
      checksum matched. */
  function ApplyRecord(g: Geometry, m: Machine, r: Record): Flagged
    requires g.Valid() && |m.row.slots| == g.rowInstructions && r.WellFormed()
  {
    if r.kind == DATA_RECORD then Flagged(DataRecord(g, m, r), true)
    else if r.kind == EOF_RECORD then Flagged(Flush(m).(state := Complete), true)
    else if r.kind == EXT_LINEAR_ADDR then
      Flagged(if |r.data| == 2 then m.(extendedAddress := LinearBase(r.data[0], r.data[1])) else m, true)
    else if r.kind == EXT_SEG_ADDR then
      Flagged(if |r.data| == 2 then m.(extendedAddress := SegmentBase(r.data[0], r.data[1])) else m, true)
    else if r.kind == START_SEG_ADDR || r.kind == START_LINEAR_ADDR then Flagged(m, true)
    else Flagged(m, false)
  }

  /** `Bootloader_ParseHexLine`. */
  function ParseHexLine(g: Geometry, m: Machine, line: string): Flagged
    requires g.Valid() && |m.row.slots| == g.rowInstructions
  {
    match Decode(line)
    case Failure(_) => Flagged(m, false)
    case Success(r) => ApplyRecord(g, m, r)
  }

  /** The erase loop of `Bootloader_EraseAppArea` from page address `address`
      on. The driver's verdict on the call it is handed is `eraseOk(i)`, `i`
      being the position the call takes in the driver log. */
  function ErasePages(g: Geometry, m: Machine, eraseOk: nat -> bool, address: nat): Flagged
    requires g.Valid()
    decreases APP_END - address
  {
    if address >= APP_END then Flagged(m, true)
    else
      var ok := eraseOk(|m.flash|);
      var m1 := m.(flash := m.flash + [ErasePage(address, ok)]);
      if !ok then Flagged(m1, false)
      else ErasePages(g, m1.(pagesErased := (m1.pagesErased + 1) % U32_MOD), eraseOk, address + g.erasePagePc)
  }

  /** `Bootloader_EraseAppArea`. */
  function EraseAppArea(g: Geometry, m: Machine, eraseOk: nat -> bool): Flagged
    requires g.Valid()
  {
    ErasePages(g, m.(pagesErased := 0), eraseOk, APP_START)
  }

  /** The text `Bootloader_SendResponse(code, message)` sends. */
  function Response(code: char, message: string): string
  {
    if message != "" then [code] + message else [code] + "\r\n"
  }

  function SendResponse(m: Machine, code: char, message: string): Machine
  {
    m.(replies := m.replies + [Response(code, message)])
  }

  /** The line `Bootloader_SendVersion` sends. */
  function VersionLine(d: Diag): string
  {
    VERSION_STRING + " SJ=" + Decimal(d.stubToAppCount) + " JR=" + Decimal(d.jumpReturnCount)
    + " SR=" + Decimal(d.sawResetStubMagic) + " BR=" + Hex4(d.lastRcon) + " AL=" + Hex4(d.appLastRcon)
    + " AT=" + Decimal(d.appTrapCode) + " AS=" + Decimal(d.appStage) + "\r\n"
  }

  function SendVersion(m: Machine): Machine
  {
    m.(replies := m.replies + [VersionLine(m.diag)])
  }

  /** The message of the `C` command. */
  function CompleteMessage(bytesWritten: nat, pagesErased: nat): string
  {
    "OK: " + Decimal(bytesWritten) + " bytes, " + Decimal(pagesErased) + " pages\r\n"
  }

  /** `RequestResetToApplicationNow` up to its `RESET`: both handoff words. */
  function RequestResetToApplication(m: Machine): Stepped
  {
    Stepped(m.(diag := m.diag.(jumpAttempted := JUMP_ATTEMPT_MAGIC, jumpMagic := JUMP_MAGIC_VALUE)), Reset)
  }

  /** The two persistent command words, updated before any command runs. */
  function CountCommand(m: Machine, cmd: char): Machine
  {
    m.(diag := m.diag.(lastCmd := cmd as int % 256, cmdCount := (m.diag.cmdCount + 1) % U16_MOD))
  }

  /** The `E` command: erase, then report and move to ReceivingHex or Error. */
  function EraseCommand(g: Geometry, m: Machine, eraseOk: nat -> bool): Machine
    requires g.Valid()
  {
    var e := EraseAppArea(g, m, eraseOk);
    if e.ok then SendResponse(e.machine, RSP_OK, "Erased\r\n").(state := ReceivingHex)
    else SendResponse(e.machine, RSP_ERROR, "Erase failed\r\n").(state := Error)
  }

  /** The `:` command: acted on only while idle or receiving. */
  function HexCommand(g: Geometry, m: Machine, line: string): Machine
    requires g.Valid() && |m.row.slots| == g.rowInstructions
  {
    if m.state == ReceivingHex || m.state == Idle then
      var p := ParseHexLine(g, m.(state := ReceivingHex), line);
      if p.ok then SendResponse(p.machine, RSP_OK, "")
      else SendResponse(p.machine, RSP_ERROR, "HEX error\r\n")
    else m
  }

  /** The `C` command: flush, complete, report the counters. */
  function VerifyCommand(m: Machine): Machine
  {
    var m1 := Flush(m).(state := Complete);
    SendResponse(m1, RSP_OK, CompleteMessage(m1.bytesWritten, m1.pagesErased))
  }

  /** The `J` command: flush, acknowledge, hand off through a reset. */
  function JumpCommand(m: Machine): Stepped
  {
    RequestResetToApplication(SendResponse(Flush(m), RSP_OK, "Jumping...\r\n"))
  }

  /** The command switch of `ProcessLine`, after the command was counted. */
  function Dispatch(g: Geometry, m: Machine, line: string, eraseOk: nat -> bool): Stepped
    requires g.Valid() && |m.row.slots| == g.rowInstructions && line != ""
  {
    var cmd := line[0];
    if cmd == CMD_READ_VERSION then Stepped(SendVersion(m), Running)
    else if cmd == CMD_ERASE_FLASH then Stepped(EraseCommand(g, m, eraseOk), Running)
    else if cmd == CMD_HEX_RECORD then Stepped(HexCommand(g, m, line), Running)
    else if cmd == CMD_VERIFY then Stepped(VerifyCommand(m), Running)
    else if cmd == CMD_JUMP_APP then JumpCommand(m)
    else if cmd == CMD_RESET then Stepped(SendResponse(m, RSP_OK, "Resetting...\r\n"), Reset)
    else Stepped(SendResponse(m, RSP_UNKNOWN, "Unknown command\r\n"), Running)
  }

  /** `ProcessLine`: an empty line is ignored; otherwise the command is
      counted and then dispatched. */
  function ProcessLine(g: Geometry, m: Machine, line: string, eraseOk: nat -> bool): Stepped
    requires g.Valid() && |m.row.slots| == g.rowInstructions
  {
    if line == "" then Stepped(m, Running)
    else Dispatch(g, CountCommand(m, line[0]), line, eraseOk)
  }

  /** What C sees of a character buffer: everything before the first NUL. */
  function CString(s: string): (c: string)
    ensures |c| <= |s| && c == s[..|c|] && '\0' !in c
    ensures |c| < |s| ==> s[|c|] == '\0'
  {
    if s == [] || s[0] == '\0' then [] else [s[0]] + CString(s[1..])
  }

  predicate IsLineEnd(c: char)
  {
    c == '\r' || c == '\n'
  }

  /** One pass of the byte loop of `Bootloader_ProcessCommand`. A line ending
      dispatches the buffered line, if there is one, and empties the buffer;
      any other byte is kept while fewer than `RX_BUFFER_SIZE - 1` are
      buffered. */
  function ConsumeByte(g: Geometry, m: Machine, c: char, eraseOk: nat -> bool): (s: Stepped)
    requires g.Valid() && |m.row.slots| == g.rowInstructions
    ensures |s.machine.row.slots| == g.rowInstructions
  {
    if IsLineEnd(c) then
      if |m.rx| > 0 then
        ProcessLineKeepsRowLength(g, m, CString(m.rx), eraseOk);
        var s := ProcessLine(g, m, CString(m.rx), eraseOk);
        if s.outcome == Reset then s else Stepped(s.machine.(rx := []), Running)
      else Stepped(m, Running)
    else if |m.rx| < RX_BUFFER_SIZE - 1 then Stepped(m.(rx := m.rx + [c]), Running)
    else Stepped(m, Running)
  }

  /** The byte loop from byte `i` on; a reset ends it. */
  function Consume(g: Geometry, m: Machine, bytes: seq<Byte>, i: nat, eraseOk: nat -> bool): (s: Stepped)
    requires g.Valid() && |m.row.slots| == g.rowInstructions
    ensures |s.machine.row.slots| == g.rowInstructions
    decreases |bytes| - i
  {
    if i >= |bytes| then Stepped(m, Running)
    else
      var s := ConsumeByte(g, m, bytes[i] as char, eraseOk);
      if s.outcome == Reset then s else Consume(g, s.machine, bytes, i + 1, eraseOk)
  }

  /** `Bootloader_ProcessCommand` for the bytes one poll of the endpoint
      delivered. */
  function ProcessCommand(g: Geometry, m: Machine, bytes: seq<Byte>, eraseOk: nat -> bool): (s: Stepped)
    requires g.Valid() && |m.row.slots| == g.rowInstructions
    ensures |s.machine.row.slots| == g.rowInstructions
  {
    if bytes == [] then Stepped(m, Running)
    else Consume(g, m.(hostActivity := true), bytes, 0, eraseOk)
  }

  /** The word of the four-byte group at offset `i` of a raw buffer. */
  function GroupWord(data: seq<Byte>, i: nat): nat
    requires i + 2 < |data|
  {
    InstructionWord(data[i], data[i + 1], data[i + 2])
  }

  /** The write loop of `Bootloader_WriteFlash` from the `k`-th four-byte
      group on: one 24-bit word per group, written at `address + 4 * k` (the
      byte offset is added to the address as the code does); the driver's
      verdict on a call is `writeOk` of the call's position in the driver log. */
  function WriteWordsFrom(m: Machine, address: nat, data: seq<Byte>, k: nat, writeOk: nat -> bool): Flagged
    requires |data| % 4 == 0
    decreases |data| / 4 - k
  {
    if k >= |data| / 4 then Flagged(m, true)
    else
      var ok := writeOk(|m.flash|);
      var m1 := m.(flash := m.flash + [WriteWord((address + 4 * k) % U32_MOD, GroupWord(data, 4 * k), ok)]);
      if !ok then Flagged(m1, false) else WriteWordsFrom(m1, address, data, k + 1, writeOk)
  }

  /** `Bootloader_WriteFlash`: refused outside the application area. */
  function WriteFlash(m: Machine, address: nat, data: seq<Byte>, writeOk: nat -> bool): Flagged
    requires |data| % 4 == 0
  {
    if !InAppArea(address) then Flagged(m, false) else WriteWordsFrom(m, address, data, 0, writeOk)
  }

  /** What `Bootloader_VerifyFlash` checks: every four-byte group's word is the
      word read back at `address + 4 * k`. */
  predicate FlashMatches(address: nat, data: seq<Byte>, readWord: nat -> nat)
    requires |data| % 4 == 0
  {
    forall k :: 0 <= k < |data| / 4 ==> readWord((address + 4 * k) % U32_MOD) == GroupWord(data, 4 * k)
  }

  lemma {:induction false} GroupsKeepRowLength(g: Geometry, m: Machine, data: seq<nat>, pc: nat, i: nat)
    requires g.Valid() && |m.row.slots| == g.rowInstructions
    requires forall k :: 0 <= k < |data| ==> data[k] < 256
    ensures |GroupsFrom(g, m, data, pc, i).row.slots| == g.rowInstructions
    decreases |data| - i
  {
    if i < |data| {
      if i + 3 < |data| {
        var m1 := StoreInstruction(g, m, pc + i / 2, InstructionWord(data[i], data[i + 1], data[i + 2]));
        StorePlacesWordLength(g, m, pc + i / 2, InstructionWord(data[i], data[i + 1], data[i + 2]));
        GroupsKeepRowLength(g, m1, data, pc, i + 4);
      } else {
        GroupsKeepRowLength(g, m, data, pc, i + 4);
      }
    }
  }

  /** The group loop changes the row buffer, the driver log and the byte
      counter, and nothing else. */
  lemma {:induction false} GroupsChangeOnlyRow(g: Geometry, m: Machine, data: seq<nat>, pc: nat, i: nat)
    requires g.Valid() && |m.row.slots| == g.rowInstructions
    requires forall k :: 0 <= k < |data| ==> data[k] < 256
    ensures var r := GroupsFrom(g, m, data, pc, i);
      r == m.(row := r.row, flash := r.flash, bytesWritten := r.bytesWritten)
    decreases |data| - i
  {
    if i < |data| {
      if i + 3 < |data| {
        var word := InstructionWord(data[i], data[i + 1], data[i + 2]);
        StorePlacesWordLength(g, m, pc + i / 2, word);
        GroupsChangeOnlyRow(g, StoreInstruction(g, m, pc + i / 2, word), data, pc, i + 4);
      } else {
        GroupsChangeOnlyRow(g, m, data, pc, i + 4);
      }
    }
  }

  /** The erase loop changes the driver log and the page counter, and nothing
      else. */
  lemma {:induction false} ErasePagesChangeOnlyLog(g: Geometry, m: Machine, eraseOk: nat -> bool, address: nat)
    requires g.Valid()
    ensures var e := ErasePages(g, m, eraseOk, address).machine;
      e == m.(flash := e.flash, pagesErased := e.pagesErased)
    decreases APP_END - address
  {
    if address < APP_END {
      var ok := eraseOk(|m.flash|);
      var m1 := m.(flash := m.flash + [ErasePage(address, ok)]);
      if ok {
        ErasePagesChangeOnlyLog(g, m1.(pagesErased := (m1.pagesErased + 1) % U32_MOD), eraseOk, address + g.erasePagePc);
      }
    }
  }

  lemma DataRecordKeepsRowLength(g: Geometry, m: Machine, r: Record)
    requires g.Valid() && |m.row.slots| == g.rowInstructions && r.WellFormed()
    ensures var p := DataRecord(g, m, r);
      |p.row.slots| == g.rowInstructions && p.rx == m.rx && p.hostActivity == m.hostActivity
  {
    if InAppArea(DataPc(m, r)) {
      GroupsKeepRowLength(g, m, r.data, DataPc(m, r), 0);
      GroupsChangeOnlyRow(g, m, r.data, DataPc(m, r), 0);
    }
  }

  lemma ApplyRecordKeepsRowLength(g: Geometry, m: Machine, r: Record)
    requires g.Valid() && |m.row.slots| == g.rowInstructions && r.WellFormed()
    ensures var p := ApplyRecord(g, m, r).machine;
      |p.row.slots| == g.rowInstructions && p.rx == m.rx && p.hostActivity == m.hostActivity
  {
    DataRecordKeepsRowLength(g, m, r);
  }

  lemma ParseHexLineKeepsRowLength(g: Geometry, m: Machine, line: string)
    requires g.Valid() && |m.row.slots| == g.rowInstructions
    ensures var p := ParseHexLine(g, m, line).machine;
      |p.row.slots| == g.rowInstructions && p.rx == m.rx && p.hostActivity == m.hostActivity
  {
    match Decode(line)
    case Failure(_) =>
    case Success(r) =>
      ApplyRecordKeepsRowLength(g, m, r);
  }

  lemma EraseCommandKeepsBuffers(g: Geometry, m: Machine, eraseOk: nat -> bool)
    requires g.Valid()
    ensures var e := EraseCommand(g, m, eraseOk);
      e.row == m.row && e.rx == m.rx && e.hostActivity == m.hostActivity
  {
    ErasePagesChangeOnlyLog(g, m.(pagesErased := 0), eraseOk, APP_START);
  }

  /** No command touches the line buffer or the activity flag, and the row
      buffer keeps its size. */
  lemma ProcessLineKeepsRowLength(g: Geometry, m: Machine, line: string, eraseOk: nat -> bool)
    requires g.Valid() && |m.row.slots| == g.rowInstructions
    ensures var p := ProcessLine(g, m, line, eraseOk).machine;
      |p.row.slots| == g.rowInstructions && p.rx == m.rx && p.hostActivity == m.hostActivity
  {
    if line != "" {
      var m0 := CountCommand(m, line[0]);
      if line[0] == CMD_HEX_RECORD && (m0.state == ReceivingHex || m0.state == Idle) {
        ParseHexLineKeepsRowLength(g, m0.(state := ReceivingHex), line);
      } else if line[0] == CMD_ERASE_FLASH {
        EraseCommandKeepsBuffers(g, m0, eraseOk);
      }
    }
  }
}
