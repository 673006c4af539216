/** `src/bootloader.c` as it runs: its statics are the fields of one object,
    the receive buffer and the flash row buffer are arrays updated in place, and
    each method is proved to move the state exactly as the function of the same
    name in `Engine` says. The flash driver and the USB endpoint are not part of
    the model: what the code hands them is appended to `flashLog` and
    `replies`, and the driver's verdicts are parameters. */
module Bootloader {
  import opened Ascii
  import opened HexRecord
  import opened FlashRow
  import opened Persistent
  import opened Engine

  class Bootloader {
    /** The row and page sizes of the flash driver header. */
    const geo: Geometry
    /** `.bl_persist` and `.app_persist`. */
    const persist: PersistentRegion

    var state: BlState              // blState
    var jumpToApp: bool
    var extendedAddress: nat        // uint32_t
    var hostActivity: bool
    const rxBuffer: array<char>     // char rxBuffer[RX_BUFFER_SIZE]
    var rxIndex: nat                // uint16_t
    const flashBuffer: array<nat>   // uint32_t flashBuffer[ROW_INSTR]
    var flashBufferAddress: nat     // uint32_t
    var flashBufferIndex: nat       // uint16_t
    var bytesWritten: nat           // uint32_t
    var pagesErased: nat            // uint32_t
    /** Every line handed to `putsUSBUSART`, in order. */
    var replies: seq<string>
    /** Every call handed to the flash driver, in order. */
    var flashLog: seq<FlashCall>

    /** The buffers have their declared sizes and the line index stays inside
        the receive buffer. */
    predicate Valid()
      reads this
    {
      && geo.Valid()
      && rxBuffer.Length == RX_BUFFER_SIZE
      && flashBuffer.Length == geo.rowInstructions
      && rxIndex < RX_BUFFER_SIZE
    }

    /** The state as the value `Engine` works on. */
    function Abs(): Machine
      reads this, rxBuffer, flashBuffer, persist
      requires Valid()
    {
      Machine(state, jumpToApp, extendedAddress, hostActivity, rxBuffer[..rxIndex],
              Row(flashBufferAddress, flashBuffer[..], flashBufferIndex),
              bytesWritten, pagesErased, persist.Snapshot(), replies, flashLog)
    }

    /** The statics as the C start-up code leaves them: zeroed buffers, the
        initialisers of the file, and whatever the persistent words hold. */
    constructor (geo: Geometry, persist: PersistentRegion)
      requires geo.Valid()
      ensures Valid() && this.geo == geo && this.persist == persist
      ensures Abs() == Machine(Idle, false, 0, false, [], Row(SENTINEL, seq(geo.rowInstructions, _ => 0), 0),
                               0, 0, persist.Snapshot(), [], [])
    {
      this.geo := geo;
      this.persist := persist;
      state := Idle;
      jumpToApp := false;
      extendedAddress := 0;
      hostActivity := false;
      rxBuffer := new char[RX_BUFFER_SIZE](_ => '\0');
      rxIndex := 0;
      flashBuffer := new nat[geo.rowInstructions](_ => 0);
      flashBufferAddress := SENTINEL;
      flashBufferIndex := 0;
      bytesWritten := 0;
      pagesErased := 0;
      replies := [];
      flashLog := [];
    }

    /** `Bootloader_Initialize` (the flash unlock is a driver call outside the
        model). */
    method Initialize()
      requires Valid()
      modifies this
      ensures Valid() && Abs() == Engine.Initialize(old(Abs()))
    {
      state := Idle;
      jumpToApp := false;
      rxIndex := 0;
      extendedAddress := 0;
      flashBufferAddress := SENTINEL;
      flashBufferIndex := 0;
      bytesWritten := 0;
      pagesErased := 0;
      assert rxBuffer[..rxIndex] == [];
    }

    method ClearHostActivity()
      requires Valid()
      modifies this
      ensures Valid() && Abs() == old(Abs()).(hostActivity := false)
    {
      hostActivity := false;
    }

    method HadHostActivity() returns (b: bool)
      requires Valid()
      ensures b == Abs().hostActivity
    {
      b := hostActivity;
    }

    method ShouldJumpToApp() returns (b: bool)
      requires Valid()
      ensures b == Abs().jumpToApp
    {
      b := jumpToApp;
    }

    /** `FlushFlashBuffer`: pad the open row in place, hand it to the driver
        when it lies in the application area, and close it. */
    method FlushFlashBuffer()
      requires Valid()
      modifies this, flashBuffer
      ensures Valid() && Abs() == Flush(old(Abs()))
    {
      if flashBufferIndex > 0 && flashBufferAddress != SENTINEL {
        ghost var slots := flashBuffer[..];
        var j := flashBufferIndex;
        while j < flashBuffer.Length
          modifies flashBuffer
          invariant flashBufferIndex <= j
          invariant forall k :: 0 <= k < flashBuffer.Length ==>
            flashBuffer[k] == if flashBufferIndex <= k < j then FILL else slots[k]
          decreases flashBuffer.Length - j
        {
          flashBuffer[j] := FILL;
          j := j + 1;
        }
        assert flashBuffer[..] == Padded(slots, flashBufferIndex);
        if InAppArea(flashBufferAddress) {
          flashLog := flashLog + [WriteRow(flashBufferAddress, flashBuffer[..])];
        }
        flashBufferIndex := 0;
        flashBufferAddress := SENTINEL;
      }
    }

    /** The body of the group loop of `Bootloader_ParseHexLine`: place one
        program word, flushing and refilling the buffer when the word belongs
        to another row. */
    method StoreInstruction(wordAddr: nat, instruction: nat)
      requires Valid()
      modifies this, flashBuffer
      ensures Valid() && Abs() == Engine.StoreInstruction(geo, old(Abs()), wordAddr, instruction)
    {
      ghost var m0 := Abs();
      ghost var step := StoreRow(geo, m0.row, wordAddr, instruction);
      var rowAddress := RowBase(geo, wordAddr);
      if flashBufferAddress != rowAddress {
        FlushFlashBuffer();
        flashBufferAddress := rowAddress;
        flashBufferIndex := 0;
        var j := 0;
        while j < flashBuffer.Length
          modifies flashBuffer
          invariant j <= flashBuffer.Length
          invariant forall k :: 0 <= k < j ==> flashBuffer[k] == FILL
        {
          flashBuffer[j] := FILL;
          j := j + 1;
        }
        assert flashBuffer[..] == Fill(geo.rowInstructions);
      }
      assert flashLog == m0.flash + step.calls;
      var rowIndex := (wordAddr - rowAddress) / 2;
      if rowIndex < flashBuffer.Length {
        flashBuffer[rowIndex] := instruction;
        if rowIndex >= flashBufferIndex {
          flashBufferIndex := rowIndex + 1;
        }
        bytesWritten := (bytesWritten + 3) % U32_MOD;
      }
      assert Row(flashBufferAddress, flashBuffer[..], flashBufferIndex) == step.row;
    }

    /** `Bootloader_SendResponse`. */
    method SendResponse(code: char, message: string)
      requires Valid()
      modifies this
      ensures Valid() && Abs() == Engine.SendResponse(old(Abs()), code, message)
    {
      if message != "" {
        replies := replies + [[code] + message];
      } else {
        replies := replies + [[code] + "\r\n"];
      }
    }

    /** `Bootloader_SendVersion`. */
    method SendVersion()
      requires Valid()
      modifies this
      ensures Valid() && Abs() == Engine.SendVersion(old(Abs()))
    {
      replies := replies + [VersionLine(persist.Snapshot())];
    }

    /** `Bootloader_EraseAppArea`: erase page after page, stopping at the
        first page the driver fails. */
    method EraseAppArea(eraseOk: nat -> bool) returns (ok: bool)
      requires Valid()
      modifies this
      ensures Valid()
      ensures Flagged(Abs(), ok) == Engine.EraseAppArea(geo, old(Abs()), eraseOk)
    {
      pagesErased := 0;
      ghost var entry := Abs();
      ok := ErasePagesFrom(entry, eraseOk);
      assert Abs() == entry.(flash := flashLog, pagesErased := pagesErased);
    }

    /** The page loop of `Bootloader_EraseAppArea`: `entry` is the state it
        starts from, of which it changes the flash log and the page count. */
    method ErasePagesFrom(ghost entry: Machine, eraseOk: nat -> bool) returns (ok: bool)
      requires Valid() && entry.flash == flashLog && entry.pagesErased == pagesErased
      modifies this`flashLog, this`pagesErased
      ensures Flagged(entry.(flash := flashLog, pagesErased := pagesErased), ok) == ErasePages(geo, entry, eraseOk, APP_START)
    {
      var address := APP_START;
      while address < APP_END
        invariant ErasePages(geo, entry.(flash := flashLog, pagesErased := pagesErased), eraseOk, address)
               == ErasePages(geo, entry, eraseOk, APP_START)
        decreases APP_END - address
      {
        var erased := eraseOk(|flashLog|);
        flashLog := flashLog + [ErasePage(address, erased)];
        if !erased {
          return false;
        }
        pagesErased := (pagesErased + 1) % U32_MOD;
        address := address + geo.erasePagePc;
      }
      return true;
    }

    /** `Bootloader_ParseHexLine`: check the start code, read the header,
        accumulate the 8-bit checksum while reading the payload into a local
        64-byte buffer, compare its two's complement with the transmitted
        checksum, then act on the record type. */
    method ParseHexLine(line: string) returns (ok: bool)
      requires Valid()
      modifies this, flashBuffer
      ensures Valid() && Flagged(Abs(), ok) == Engine.ParseHexLine(geo, old(Abs()), line)
    {
      if |line| == 0 || line[0] != START_CODE || |line| < MIN_LINE {
        DecodeRejectsHeader(line);
        return false;
      }
      var byteCount := HexToByte(line[1], line[2]);
      if byteCount > DATA_CAPACITY || |line| < MIN_LINE + 2 * byteCount {
        DecodeRejectsHeader(line);
        return false;
      }
      var address := Address16(HexToByte(line[3], line[4]), HexToByte(line[5], line[6]));
      var recordType := HexToByte(line[7], line[8]);
      var header := byteCount + address / 256 + address % 256 + recordType;
      var data, checksum := ReadPayload(line, byteCount, header);
      var expectedChecksum := HexToByte(line[9 + 2 * byteCount], line[10 + 2 * byteCount]);
      DecodeChecksum(line, byteCount, address, recordType, header, checksum, expectedChecksum);
      checksum := (256 - checksum) % 256;
      if checksum != expectedChecksum {
        return false;
      }
      ghost var r := Record(address, recordType, data[..byteCount], expectedChecksum);
      ok := ApplyRecord(r, address, recordType, byteCount, data);
    }

    /** The record-type switch of `Bootloader_ParseHexLine`, for a record
        whose checksum matched; `data` is the local payload buffer. */
    method ApplyRecord(ghost r: Record, address: nat, recordType: nat, byteCount: nat, data: array<nat>)
      returns (ok: bool)
      requires Valid() && r.WellFormed() && address == r.address && recordType == r.kind
      requires byteCount == |r.data| && data.Length == DATA_CAPACITY && data[..byteCount] == r.data
      requires data != flashBuffer
      modifies this, flashBuffer
      ensures Valid() && Flagged(Abs(), ok) == Engine.ApplyRecord(geo, old(Abs()), r)
    {
      ghost var m0 := Abs();
      ok := true;
      if recordType == DATA_RECORD {
        var pcAddress := (extendedAddress + address) % U32_MOD / 2;
        assert pcAddress == DataPc(m0, r);
        if InAppArea(pcAddress) {
          StoreGroups(r.data, data, byteCount, pcAddress);
        }
        assert Abs() == DataRecord(geo, m0, r);
      } else if recordType == EOF_RECORD {
        FlushFlashBuffer();
        state := Complete;
        assert Abs() == Flush(m0).(state := Complete);
      } else if recordType == EXT_LINEAR_ADDR {
        if byteCount == 2 {
          extendedAddress := LinearBase(data[0], data[1]);
        }
      } else if recordType == EXT_SEG_ADDR {
        if byteCount == 2 {
          extendedAddress := SegmentBase(data[0], data[1]);
        }
      } else if recordType == START_SEG_ADDR || recordType == START_LINEAR_ADDR {
      } else {
        ok := false;
      }
    }

    /** The group loop of a Data record: one program word per complete group of
        four payload bytes, the fourth (phantom) byte ignored. */
    method StoreGroups(ghost d: seq<nat>, data: array<nat>, byteCount: nat, pcAddress: nat)
      requires Valid() && data != flashBuffer && byteCount == |d| <= data.Length && data[..byteCount] == d
      requires forall k :: 0 <= k < |d| ==> d[k] < 256
      modifies this, flashBuffer
      ensures Valid() && Abs() == GroupsFrom(geo, old(Abs()), d, pcAddress, 0)
    {
      ghost var start := Abs();
      var i := 0;
      while i < byteCount
        invariant Valid()
        invariant GroupsFrom(geo, Abs(), d, pcAddress, i) == GroupsFrom(geo, start, d, pcAddress, 0)
        decreases byteCount - i
      {
        ghost var before := Abs();
        if i + 3 < byteCount {
          assert data[i] == d[i] && data[i + 1] == d[i + 1] && data[i + 2] == d[i + 2];
          var instruction := InstructionWord(data[i], data[i + 1], data[i + 2]);
          StoreInstruction(pcAddress + i / 2, instruction);
          assert GroupsFrom(geo, Abs(), d, pcAddress, i + 4) == GroupsFrom(geo, before, d, pcAddress, i);
        } else {
          assert GroupsFrom(geo, before, d, pcAddress, i + 4) == GroupsFrom(geo, before, d, pcAddress, i);
        }
        i := i + 4;
      }
    }

    /** The `E` case of `ProcessLine`. */
    method EraseCommand(eraseOk: nat -> bool)
      requires Valid()
      modifies this
      ensures Valid() && Abs() == Engine.EraseCommand(geo, old(Abs()), eraseOk)
    {
      var erased := EraseAppArea(eraseOk);
      if erased {
        SendResponse(RSP_OK, "Erased\r\n");
        state := ReceivingHex;
      } else {
        SendResponse(RSP_ERROR, "Erase failed\r\n");
        state := Error;
      }
    }

    /** The `:` case of `ProcessLine`. */
    method HexCommand(line: string)
      requires Valid()
      modifies this, flashBuffer
      ensures Valid() && Abs() == Engine.HexCommand(geo, old(Abs()), line)
    {
      if state == ReceivingHex || state == Idle {
        state := ReceivingHex;
        var parsed := ParseHexLine(line);
        if parsed {
          SendResponse(RSP_OK, "");
        } else {
          SendResponse(RSP_ERROR, "HEX error\r\n");
        }
      }
    }

    /** The `C` case of `ProcessLine`; the message is what its `sprintf`
        formats. */
    method VerifyCommand()
      requires Valid()
      modifies this, flashBuffer
      ensures Valid() && Abs() == Engine.VerifyCommand(old(Abs()))
    {
      FlushFlashBuffer();
      state := Complete;
      SendResponse(RSP_OK, CompleteMessage(bytesWritten, pagesErased));
    }

    /** The `J` case of `ProcessLine` (the 100 ms delay is not modelled). */
    method JumpCommand() returns (outcome: Outcome)
      requires Valid()
      modifies this, flashBuffer, persist
      ensures Valid() && Stepped(Abs(), outcome) == Engine.JumpCommand(old(Abs()))
    {
      FlushFlashBuffer();
      SendResponse(RSP_OK, "Jumping...\r\n");
      outcome := RequestResetToApplicationNow();
    }

    /** `ProcessLine`: ignore an empty line, count the command in the
        persistent words, then act on its first character. `Reset` stands for
        the `RESET` instruction that ends the `X` and `J` cases. */
    method ProcessLine(line: string, eraseOk: nat -> bool) returns (outcome: Outcome)
      requires Valid()
      modifies this, flashBuffer, persist
      ensures Valid() && Stepped(Abs(), outcome) == Engine.ProcessLine(geo, old(Abs()), line, eraseOk)
    {
      if line == "" {
        return Running;
      }
      var cmd := line[0];
      persist.lastCmd := cmd as int % 256;
      persist.cmdCount := (persist.cmdCount + 1) % U16_MOD;
      ghost var counted := Abs();
      assert counted == CountCommand(old(Abs()), cmd);
      outcome := Running;
      if cmd == CMD_READ_VERSION {
        SendVersion();
      } else if cmd == CMD_ERASE_FLASH {
        EraseCommand(eraseOk);
      } else if cmd == CMD_HEX_RECORD {
        HexCommand(line);
      } else if cmd == CMD_VERIFY {
        VerifyCommand();
      } else if cmd == CMD_JUMP_APP {
        outcome := JumpCommand();
      } else if cmd == CMD_RESET {
        SendResponse(RSP_OK, "Resetting...\r\n");
        outcome := Reset;
      } else {
        SendResponse(RSP_UNKNOWN, "Unknown command\r\n");
      }
      assert Stepped(Abs(), outcome) == Dispatch(geo, counted, line, eraseOk);
    }

    /** The line `ProcessLine` is handed: the receive buffer read as a C
        string, after the NUL was stored at `rxIndex`. */
    method BufferedLine() returns (line: string)
      requires Valid() && rxBuffer[rxIndex] == '\0'
      ensures line == CString(rxBuffer[..rxIndex])
    {
      var j := 0;
      while rxBuffer[j] != '\0'
        invariant j <= rxIndex
        invariant forall k :: 0 <= k < j ==> rxBuffer[k] != '\0'
        decreases rxIndex - j
      {
        j := j + 1;
      }
      line := rxBuffer[..j];
      CStringStopsAtNul(rxBuffer[..rxIndex], j);
      assert rxBuffer[..rxIndex][..j] == line;
    }

    /** One pass of the byte loop of `Bootloader_ProcessCommand`: a line
        ending dispatches the buffered line, if any, and empties the buffer;
        any other byte is buffered while there is room. */
    method ConsumeByte(c: char, eraseOk: nat -> bool) returns (outcome: Outcome)
      requires Valid()
      modifies this, rxBuffer, flashBuffer, persist
      ensures Valid() && Stepped(Abs(), outcome) == Engine.ConsumeByte(geo, old(Abs()), c, eraseOk)
    {
      ghost var before := Abs();
      outcome := Running;
      if c == '\r' || c == '\n' {
        if rxIndex > 0 {
          rxBuffer[rxIndex] := '\0';
          assert Abs() == before;
          var line := BufferedLine();
          outcome := ProcessLine(line, eraseOk);
          if outcome == Running {
            rxIndex := 0;
          }
        }
      } else if rxIndex < RX_BUFFER_SIZE - 1 {
        rxBuffer[rxIndex] := c;
        rxIndex := rxIndex + 1;
        assert rxBuffer[..rxIndex] == before.rx + [c];
      }
    }

    /** `Bootloader_ProcessCommand` for the bytes one poll of the endpoint
        delivered (at most 64). `Reset` means a command ended in `RESET` and
        the rest of the bytes were never looked at. */
    method ProcessCommand(bytes: seq<Byte>, eraseOk: nat -> bool) returns (outcome: Outcome)
      requires Valid()
      modifies this, rxBuffer, flashBuffer, persist
      ensures Valid() && Stepped(Abs(), outcome) == Engine.ProcessCommand(geo, old(Abs()), bytes, eraseOk)
    {
      if |bytes| == 0 {
        return Running;
      }
      hostActivity := true;
      ghost var start := Abs();
      var i := 0;
      while i < |bytes|
        invariant Valid() && i <= |bytes|
        invariant Consume(geo, Abs(), bytes, i, eraseOk) == Consume(geo, start, bytes, 0, eraseOk)
      {
        ghost var before := Abs();
        outcome := ConsumeByte(bytes[i] as char, eraseOk);
        if outcome == Reset {
          assert Stepped(Abs(), outcome) == Consume(geo, before, bytes, i, eraseOk);
          return;
        }
        i := i + 1;
      }
      return Running;
    }

    /** `Bootloader_WriteFlash`: refused outside the application area;
        otherwise one driver write per four-byte group, at the start address
        plus the group's byte offset, stopping at the first failed write. */
    method WriteFlash(address: nat, data: seq<Byte>, writeOk: nat -> bool) returns (ok: bool)
      requires Valid() && |data| % 4 == 0 && |data| < 0x1_0000
      modifies this`flashLog
      ensures Valid() && Flagged(Abs(), ok) == Engine.WriteFlash(old(Abs()), address, data, writeOk)
    {
      if !InAppArea(address) {
        return false;
      }
      ghost var entry := Abs();
      ok := WriteGroups(entry, address, data, writeOk);
      assert Abs() == entry.(flash := flashLog);
    }

    /** The word loop of `Bootloader_WriteFlash`: `entry` is the state it
        starts from, of which it changes only the flash log. */
    method WriteGroups(ghost entry: Machine, address: nat, data: seq<Byte>, writeOk: nat -> bool) returns (ok: bool)
      requires |data| % 4 == 0 && entry.flash == flashLog
      modifies this`flashLog
      ensures Flagged(entry.(flash := flashLog), ok) == WriteWordsFrom(entry, address, data, 0, writeOk)
    {
      var i := 0;
      ghost var groups := 0;
      while i < |data|
        invariant i == 4 * groups && i <= |data|
        invariant WriteWordsFrom(entry.(flash := flashLog), address, data, groups, writeOk)
               == WriteWordsFrom(entry, address, data, 0, writeOk)
        decreases |data| - i
      {
        ghost var before := entry.(flash := flashLog);
        var word := InstructionWord(data[i], data[i + 1], data[i + 2]);
        var written := writeOk(|flashLog|);
        flashLog := flashLog + [WriteWord((address + i) % U32_MOD, word, written)];
        if !written {
          assert Flagged(entry.(flash := flashLog), false) == WriteWordsFrom(before, address, data, groups, writeOk);
          return false;
        }
        assert WriteWordsFrom(entry.(flash := flashLog), address, data, groups + 1, writeOk)
            == WriteWordsFrom(before, address, data, groups, writeOk);
        i := i + 4;
        groups := groups + 1;
      }
      return true;
    }

    /** `RequestResetToApplicationNow`, up to its `RESET`. */
    method RequestResetToApplicationNow() returns (outcome: Outcome)
      requires Valid()
      modifies persist
      ensures Valid() && Stepped(Abs(), outcome) == RequestResetToApplication(old(Abs()))
    {
      persist.jumpAttempted := JUMP_ATTEMPT_MAGIC;
      persist.jumpMagic := JUMP_MAGIC_VALUE;
      outcome := Reset;
    }
  }

  /** `Bootloader_VerifyFlash`: every four-byte group's word is compared
      with the word read back at the start address plus the group's byte
      offset; the first difference fails the check. */
  method VerifyFlash(address: nat, data: seq<Byte>, readWord: nat -> nat) returns (ok: bool)
    requires |data| % 4 == 0 && |data| < 0x1_0000
    ensures ok == FlashMatches(address, data, readWord)
  {
    var i := 0;
    ghost var groups := 0;
    while i < |data|
      invariant i == 4 * groups && i <= |data|
      invariant forall k :: 0 <= k < groups ==> readWord((address + 4 * k) % U32_MOD) == GroupWord(data, 4 * k)
    {
      var expected := InstructionWord(data[i], data[i + 1], data[i + 2]);
      var actual := readWord((address + i) % U32_MOD);
      if actual != expected {
        assert groups < |data| / 4 && readWord((address + 4 * groups) % U32_MOD) != GroupWord(data, 4 * groups);
        return false;
      }
      i := i + 4;
      groups := groups + 1;
    }
    return true;
  }

  /** A C string ends at the first NUL of its buffer, or with the buffer. */
  lemma {:induction false} CStringStopsAtNul(s: string, j: nat)
    requires j <= |s| && (j == |s| || s[j] == '\0')
    requires forall k :: 0 <= k < j ==> s[k] != '\0'
    ensures CString(s) == s[..j]
  {
    if j > 0 {
      CStringStopsAtNul(s[1..], j - 1);
      assert s[..j] == [s[0]] + s[1..][..j - 1];
    }
  }

  /** The sum of the first `n` bytes of `s`. */
  function SumTo(s: seq<nat>, n: nat): nat
    requires n <= |s|
  {
    if n == 0 then 0 else SumTo(s, n - 1) + s[n - 1]
  }

  lemma {:induction false} SumToIsSum(s: seq<nat>, n: nat)
    requires n <= |s|
    ensures SumTo(s, n) == Sum(s[..n])
  {
    if n > 0 {
      SumToIsSum(s, n - 1);
      assert s[..n][..n - 1] == s[..n - 1];
    }
  }

  /** Adding to the 8-bit sum is adding to the full sum, truncated. */
  lemma ByteSumStep(total: nat, b: nat)
    ensures (total % 256 + b) % 256 == (total + b) % 256
  {
    var q := total / 256;
    assert total == q * 256 + total % 256;
    DivModUnique(total + b, 256, q + (total % 256 + b) / 256, (total % 256 + b) % 256);
  }

  /** The payload loop of `Bootloader_ParseHexLine`: each byte read into the
      local 64-byte buffer and added to the 8-bit running checksum, which
      starts from the header bytes' sum. */
  method ReadPayload(line: string, byteCount: nat, header: nat) returns (data: array<nat>, checksum: nat)
    requires byteCount <= DATA_CAPACITY && |line| >= MIN_LINE + 2 * byteCount
    ensures fresh(data) && data.Length == DATA_CAPACITY
    ensures data[..byteCount] == DataField(line, byteCount)
    ensures checksum == (header + Sum(DataField(line, byteCount))) % 256
  {
    ghost var d := DataField(line, byteCount);
    SumToIsSum(d, byteCount);
    assert d[..byteCount] == d;
    assert Sum(d) == SumTo(d, byteCount);
    data, checksum := ReadBytes(line, byteCount, header, d);
  }

  /** The loop itself, against the bytes `d` the line's digit pairs encode. */
  method ReadBytes(line: string, byteCount: nat, header: nat, ghost d: seq<nat>) returns (data: array<nat>, checksum: nat)
    requires byteCount <= DATA_CAPACITY && |line| >= MIN_LINE + 2 * byteCount && |d| == byteCount
    requires forall k :: 0 <= k < byteCount ==> d[k] == HexToByte(line[9 + 2 * k], line[10 + 2 * k])
    ensures fresh(data) && data.Length == DATA_CAPACITY
    ensures data[..byteCount] == d
    ensures checksum == (header + SumTo(d, byteCount)) % 256
  {
    ghost var total := header;
    checksum := header % 256;
    data := new nat[DATA_CAPACITY];
    var i := 0;
    while i < byteCount
      invariant i <= byteCount
      invariant forall k :: 0 <= k < i ==> data[k] == d[k]
      invariant total == header + SumTo(d, i) && checksum == total % 256
    {
      var b := HexToByte(line[9 + 2 * i], line[10 + 2 * i]);
      data[i] := b;
      ByteSumStep(total, b);
      checksum := (checksum + b) % 256;
      total := total + b;
      i := i + 1;
    }
  }

  /** The header checks of `Bootloader_ParseHexLine` reject exactly the lines
      `Decode` rejects before reading the payload. */
  lemma DecodeRejectsHeader(line: string)
    requires |line| == 0 || line[0] != START_CODE || |line| < MIN_LINE
      || HexToByte(line[1], line[2]) > DATA_CAPACITY || |line| < MIN_LINE + 2 * HexToByte(line[1], line[2])
    ensures Decode(line).Failure?
  {
  }

  /** Past the header checks, `Decode` accepts a line exactly when the two's
      complement of the running checksum is the transmitted one. */
  lemma DecodeChecksum(line: string, byteCount: nat, address: nat, recordType: nat, header: nat,
                       checksum: nat, expected: nat)
    requires |line| >= MIN_LINE && line[0] == START_CODE
    requires byteCount == HexToByte(line[1], line[2]) <= DATA_CAPACITY && |line| >= MIN_LINE + 2 * byteCount
    requires address == Address16(HexToByte(line[3], line[4]), HexToByte(line[5], line[6]))
    requires recordType == HexToByte(line[7], line[8])
    requires header == byteCount + address / 256 + address % 256 + recordType
    requires checksum == (header + Sum(DataField(line, byteCount))) % 256
    requires expected == HexToByte(line[9 + 2 * byteCount], line[10 + 2 * byteCount])
    ensures Decode(line) == if (256 - checksum) % 256 == expected
      then Success(Record(address, recordType, DataField(line, byteCount), expected))
      else Failure(ChecksumMismatch)
  {
    DecodeFields(line);
  }
}
