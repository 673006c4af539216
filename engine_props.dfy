/** What the update engine guarantees: the flash driver is only ever handed
    application-area pages and rows, the state stays within its C types and the
    row buffer keeps its invariant, the jump flag is never raised, the framing
    does not depend on how the byte stream is split, and the dispatcher's
    replies and transitions are the ones the protocol promises. */
module EngineProps {
  import opened Ascii
  import opened HexRecord
  import opened FlashRow
  import opened Persistent
  import opened Engine

  /** A driver call that targets only the application area. The command
      path never issues `WriteWord`; `Bootloader_WriteFlash`, which does, is
      not bound by this (see `WriteProps.WriteFlashChecksOnlyStart`). */
  predicate SafeCall(g: Geometry, c: FlashCall)
  {
    match c
    case ErasePage(address, _) => APP_START <= address < APP_END
    case WriteRow(base, words) => InAppArea(base) && |words| == g.rowInstructions
    case WriteWord(address, _, _) => InAppArea(address)
  }

  predicate SafeLog(g: Geometry, log: seq<FlashCall>)
  {
    forall k :: 0 <= k < |log| ==> SafeCall(g, log[k])
  }

  predicate NoLineEnd(s: string)
  {
    forall k :: 0 <= k < |s| ==> !IsLineEnd(s[k])
  }

  /** What every state reachable from `Initialize` satisfies. */
  predicate Inv(g: Geometry, m: Machine)
    requires g.Valid()
  {
    m.Valid(g) && SafeLog(g, m.flash) && !m.jumpToApp && NoLineEnd(m.rx)
  }

  lemma SafeLogAppend(g: Geometry, log: seq<FlashCall>, calls: seq<FlashCall>)
    requires SafeLog(g, log) && forall c :: c in calls ==> SafeCall(g, c)
    ensures SafeLog(g, log + calls)
  {
    forall k | 0 <= k < |log + calls|
      ensures SafeCall(g, (log + calls)[k])
    {
      if k >= |log| {
        assert (log + calls)[k] == calls[k - |log|];
      }
    }
  }

  /** Initialization yields an invariant state with an idle engine, an empty
      line buffer and no buffered row, keeping the persistent words and logs. */
  lemma InitializeEstablishesInv(g: Geometry, m: Machine)
    requires g.Valid() && |m.row.slots| == g.rowInstructions && SafeLog(g, m.flash)
    ensures var i := Initialize(m);
      && Inv(g, i) && i.state == Idle && i.rx == [] && !Pending(i.row)
      && i.diag == m.diag && i.flash == m.flash && i.replies == m.replies
  {
  }

  lemma FlushKeepsInv(g: Geometry, m: Machine)
    requires g.Valid() && Inv(g, m)
    ensures Inv(g, Flush(m)) && !Pending(Flush(m).row)
  {
    FlushKeepsInvariant(g, m.row);
    FlushEffect(m.row);
    RowCallsInAppArea(g, m.row, 0, 0);
    SafeLogAppend(g, m.flash, FlushRow(m.row).calls);
  }

  lemma StoreInstructionKeepsInv(g: Geometry, m: Machine, wordAddr: nat, word: nat)
    requires g.Valid() && Inv(g, m)
    ensures Inv(g, StoreInstruction(g, m, wordAddr, word))
  {
    StoreKeepsInvariant(g, m.row, wordAddr, word);
    RowCallsInAppArea(g, m.row, wordAddr, word);
    SafeLogAppend(g, m.flash, StoreRow(g, m.row, wordAddr, word).calls);
  }

  lemma {:induction false} GroupsKeepInv(g: Geometry, m: Machine, data: seq<nat>, pc: nat, i: nat)
    requires g.Valid() && Inv(g, m)
    requires forall k :: 0 <= k < |data| ==> data[k] < 256
    ensures Inv(g, GroupsFrom(g, m, data, pc, i))
    decreases |data| - i
  {
    if i < |data| {
      if i + 3 < |data| {
        var word := InstructionWord(data[i], data[i + 1], data[i + 2]);
        StoreInstructionKeepsInv(g, m, pc + i / 2, word);
        GroupsKeepInv(g, StoreInstruction(g, m, pc + i / 2, word), data, pc, i + 4);
      } else {
        GroupsKeepInv(g, m, data, pc, i + 4);
      }
    }
  }

  lemma ParseHexLineKeepsInv(g: Geometry, m: Machine, line: string)
    requires g.Valid() && Inv(g, m)
    ensures Inv(g, ParseHexLine(g, m, line).machine)
  {
    var d := Decode(line);
    if d.Success? {
      ApplyRecordKeepsInv(g, m, d.value);
    }
  }

  lemma ApplyRecordKeepsInv(g: Geometry, m: Machine, r: Record)
    requires g.Valid() && Inv(g, m) && r.WellFormed()
    ensures Inv(g, ApplyRecord(g, m, r).machine)
  {
    if r.kind == DATA_RECORD && InAppArea(DataPc(m, r)) {
      GroupsKeepInv(g, m, r.data, DataPc(m, r), 0);
    } else if r.kind == EOF_RECORD {
      FlushKeepsInv(g, m);
    }
  }

  lemma {:induction false} ErasePagesKeepInv(g: Geometry, m: Machine, eraseOk: nat -> bool, address: nat)
    requires g.Valid() && Inv(g, m) && APP_START <= address
    ensures Inv(g, ErasePages(g, m, eraseOk, address).machine)
    decreases APP_END - address
  {
    if address < APP_END {
      var ok := eraseOk(|m.flash|);
      var m1 := m.(flash := m.flash + [ErasePage(address, ok)]);
      SafeLogAppend(g, m.flash, [ErasePage(address, ok)]);
      if ok {
        ErasePagesKeepInv(g, m1.(pagesErased := (m1.pagesErased + 1) % U32_MOD), eraseOk, address + g.erasePagePc);
      }
    }
  }

  /** Every command keeps the invariant: whatever the host sends, the driver is
      handed only application-area pages and rows, and the jump flag stays
      down. */
  lemma ProcessLineKeepsInv(g: Geometry, m: Machine, line: string, eraseOk: nat -> bool)
    requires g.Valid() && Inv(g, m)
    ensures Inv(g, ProcessLine(g, m, line, eraseOk).machine)
  {
    ProcessLineKeepsRowLength(g, m, line, eraseOk);
    if line != "" {
      var m0 := CountCommand(m, line[0]);
      if line[0] == CMD_ERASE_FLASH {
        ErasePagesKeepInv(g, m0.(pagesErased := 0), eraseOk, APP_START);
      } else if line[0] == CMD_HEX_RECORD && (m0.state == ReceivingHex || m0.state == Idle) {
        ParseHexLineKeepsInv(g, m0.(state := ReceivingHex), line);
      } else if line[0] == CMD_VERIFY || line[0] == CMD_JUMP_APP {
        FlushKeepsInv(g, m0);
      }
    }
  }

  lemma ConsumeByteKeepsInv(g: Geometry, m: Machine, c: char, eraseOk: nat -> bool)
    requires g.Valid() && Inv(g, m)
    ensures Inv(g, ConsumeByte(g, m, c, eraseOk).machine)
  {
    if IsLineEnd(c) && |m.rx| > 0 {
      ProcessLineKeepsInv(g, m, CString(m.rx), eraseOk);
      ProcessLineKeepsRowLength(g, m, CString(m.rx), eraseOk);
    }
  }

  lemma {:induction false} ConsumeKeepsInv(g: Geometry, m: Machine, bytes: seq<Byte>, i: nat, eraseOk: nat -> bool)
    requires g.Valid() && Inv(g, m)
    ensures Inv(g, Consume(g, m, bytes, i, eraseOk).machine)
    decreases |bytes| - i
  {
    if i < |bytes| {
      ConsumeByteKeepsInv(g, m, bytes[i] as char, eraseOk);
      var s := ConsumeByte(g, m, bytes[i] as char, eraseOk);
      if s.outcome != Reset {
        ConsumeKeepsInv(g, s.machine, bytes, i + 1, eraseOk);
      }
    }
  }

  /** Whatever bytes arrive, the engine stays within its invariant: the flash
      driver never sees a page or row outside the application area, the line
      buffer never overflows, and `jumpToApp` is never set. */
  lemma ProcessCommandKeepsInv(g: Geometry, m: Machine, bytes: seq<Byte>, eraseOk: nat -> bool)
    requires g.Valid() && Inv(g, m)
    ensures Inv(g, ProcessCommand(g, m, bytes, eraseOk).machine)
  {
    if bytes != [] {
      ConsumeKeepsInv(g, m.(hostActivity := true), bytes, 0, eraseOk);
    }
  }

  /** The bytes as the characters C reads them as. */
  function AsChars(bytes: seq<Byte>): (cs: string)
    ensures |cs| == |bytes| && forall k :: 0 <= k < |bytes| ==> cs[k] == bytes[k] as char
  {
    seq(|bytes|, k requires 0 <= k < |bytes| => bytes[k] as char)
  }

  /** The characters as the bytes the host writes (ASCII text). */
  function AsBytes(s: string): (bytes: seq<Byte>)
    requires forall k :: 0 <= k < |s| ==> s[k] as int < 256
    ensures |bytes| == |s| && AsChars(bytes) == s
  {
    seq(|s|, k requires 0 <= k < |s| => s[k] as int as Byte)
  }

  function Min(a: nat, b: nat): nat { if a <= b then a else b }

  /** What the line buffer holds after `cs` was appended to `rx` with the
      buffer limit applied: the first 127 characters. */
  function Buffered(rx: string, cs: string): (b: string)
    requires |rx| < RX_BUFFER_SIZE
    ensures |b| < RX_BUFFER_SIZE
  {
    (rx + cs)[..Min(|rx| + |cs|, RX_BUFFER_SIZE - 1)]
  }

  lemma {:induction false} ConsumeShift(g: Geometry, m: Machine, a: seq<Byte>, b: seq<Byte>, j: nat, eraseOk: nat -> bool)
    requires g.Valid() && |m.row.slots| == g.rowInstructions && j <= |b|
    ensures Consume(g, m, a + b, |a| + j, eraseOk) == Consume(g, m, b, j, eraseOk)
    decreases |b| - j
  {
    if j < |b| {
      assert (a + b)[|a| + j] == b[j];
      var s := ConsumeByte(g, m, b[j] as char, eraseOk);
      if s.outcome != Reset {
        ConsumeShift(g, s.machine, a, b, j + 1, eraseOk);
      }
    }
  }

  lemma {:induction false} ConsumeSplit(g: Geometry, m: Machine, a: seq<Byte>, b: seq<Byte>, i: nat, eraseOk: nat -> bool)
    requires g.Valid() && |m.row.slots| == g.rowInstructions && i <= |a|
    ensures Consume(g, m, a + b, i, eraseOk) ==
      var s := Consume(g, m, a, i, eraseOk);
      if s.outcome == Reset then s else Consume(g, s.machine, b, 0, eraseOk)
    decreases |a| - i
  {
    if i == |a| {
      ConsumeShift(g, m, a, b, 0, eraseOk);
    } else {
      assert (a + b)[i] == a[i];
      var s := ConsumeByte(g, m, a[i] as char, eraseOk);
      if s.outcome != Reset {
        ConsumeSplit(g, s.machine, a, b, i + 1, eraseOk);
      }
    }
  }

  lemma {:induction false} ConsumeKeepsHostActivity(g: Geometry, m: Machine, bytes: seq<Byte>, i: nat, eraseOk: nat -> bool)
    requires g.Valid() && |m.row.slots| == g.rowInstructions
    ensures Consume(g, m, bytes, i, eraseOk).machine.hostActivity == m.hostActivity
    decreases |bytes| - i
  {
    if i < |bytes| {
      var c := bytes[i] as char;
      if IsLineEnd(c) && |m.rx| > 0 {
        ProcessLineKeepsRowLength(g, m, CString(m.rx), eraseOk);
      }
      var s := ConsumeByte(g, m, c, eraseOk);
      if s.outcome != Reset {
        ConsumeKeepsHostActivity(g, s.machine, bytes, i + 1, eraseOk);
      }
    }
  }

  /** The framing does not depend on how the USB endpoint splits the stream:
      two polls do what one poll of the concatenated bytes does. */
  lemma ProcessCommandChunking(g: Geometry, m: Machine, a: seq<Byte>, b: seq<Byte>, eraseOk: nat -> bool)
    requires g.Valid() && |m.row.slots| == g.rowInstructions
    ensures ProcessCommand(g, m, a + b, eraseOk) ==
      var s := ProcessCommand(g, m, a, eraseOk);
      if s.outcome == Reset then s else ProcessCommand(g, s.machine, b, eraseOk)
  {
    if a == [] {
      assert a + b == b;
    } else if b == [] {
      assert a + b == a;
    } else {
      var m1 := m.(hostActivity := true);
      ConsumeSplit(g, m1, a, b, 0, eraseOk);
      ConsumeKeepsHostActivity(g, m1, a, 0, eraseOk);
      var s := Consume(g, m1, a, 0, eraseOk);
      assert s.machine.(hostActivity := true) == s.machine;
    }
  }

  /** Bytes without a line ending are only buffered, the first 127 of a line
      being kept and later ones dropped; nothing else changes. */
  lemma {:induction false} ConsumePlainBytes(g: Geometry, m: Machine, bytes: seq<Byte>, i: nat, eraseOk: nat -> bool)
    requires g.Valid() && |m.row.slots| == g.rowInstructions && |m.rx| < RX_BUFFER_SIZE && i <= |bytes|
    requires NoLineEnd(AsChars(bytes))
    ensures Consume(g, m, bytes, i, eraseOk) == Stepped(m.(rx := Buffered(m.rx, AsChars(bytes)[i..])), Running)
    decreases |bytes| - i
  {
    var cs := AsChars(bytes);
    if i == |bytes| {
      assert cs[i..] == [];
      assert m.rx + cs[i..] == m.rx;
    } else {
      var c := cs[i];
      assert cs[i..] == [c] + cs[i + 1..];
      assert m.rx + cs[i..] == (m.rx + [c]) + cs[i + 1..];
      if |m.rx| < RX_BUFFER_SIZE - 1 {
        ConsumePlainBytes(g, m.(rx := m.rx + [c]), bytes, i + 1, eraseOk);
      } else {
        ConsumePlainBytes(g, m, bytes, i + 1, eraseOk);
        assert Buffered(m.rx, cs[i + 1..]) == m.rx == Buffered(m.rx, cs[i..]);
      }
    }
  }

  /** Any poll that delivers bytes records host activity. */
  lemma ProcessCommandSetsHostActivity(g: Geometry, m: Machine, bytes: seq<Byte>, eraseOk: nat -> bool)
    requires g.Valid() && |m.row.slots| == g.rowInstructions
    ensures ProcessCommand(g, m, bytes, eraseOk).machine.hostActivity == (bytes != [] || m.hostActivity)
  {
    if bytes != [] {
      ConsumeKeepsHostActivity(g, m.(hostActivity := true), bytes, 0, eraseOk);
    }
  }

  lemma CStringOfPlainText(s: string)
    requires '\0' !in s
    ensures CString(s) == s
  {
  }

  /** CR then LF after a buffered line: the line is dispatched, the buffer
      emptied, and the LF finds an empty buffer and does nothing. */
  lemma ConsumeCrLf(g: Geometry, m: Machine, eraseOk: nat -> bool)
    requires g.Valid() && |m.row.slots| == g.rowInstructions && |m.rx| > 0
    ensures Consume(g, m, [13, 10], 0, eraseOk) ==
      var s := ProcessLine(g, m, CString(m.rx), eraseOk);
      if s.outcome == Reset then s else Stepped(s.machine.(rx := []), Running)
  {
    var bytes: seq<Byte> := [13, 10];
    assert bytes[0] as char == '\r' && bytes[1] as char == '\n';
    var s := ConsumeByte(g, m, '\r', eraseOk);
    if s.outcome != Reset {
      assert s.machine.rx == [];
      assert ConsumeByte(g, s.machine, '\n', eraseOk) == Stepped(s.machine, Running);
      assert Consume(g, s.machine, bytes, 2, eraseOk) == Stepped(s.machine, Running);
    }
  }

  /** The host's framing (`cmd + "\r\n"`, as the upload tool writes it) runs
      exactly one command: a line of up to 127 characters without line endings
      or NULs, sent after an empty buffer, is buffered whole and handed to
      `ProcessLine`, and the buffer is empty again afterwards. */
  lemma SendLine(g: Geometry, m: Machine, line: string, eraseOk: nat -> bool)
    requires g.Valid() && |m.row.slots| == g.rowInstructions && m.rx == []
    requires 0 < |line| < RX_BUFFER_SIZE && NoLineEnd(line) && '\0' !in line
    requires forall k :: 0 <= k < |line| ==> line[k] as int < 256
    ensures ProcessCommand(g, m, AsBytes(line + "\r\n"), eraseOk) ==
      var s := ProcessLine(g, m.(hostActivity := true, rx := line), line, eraseOk);
      if s.outcome == Reset then s else Stepped(s.machine.(rx := []), Running)
  {
    var m1 := m.(hostActivity := true);
    var a := AsBytes(line);
    var b: seq<Byte> := [13, 10];
    assert AsBytes(line + "\r\n") == a + b;
    ConsumeSplit(g, m1, a, b, 0, eraseOk);
    PlainLineBuffered(g, m1, line, eraseOk);
    CStringOfPlainText(line);
    ConsumeCrLf(g, m1.(rx := line), eraseOk);
  }

  /** A line without line endings, sent to an empty buffer, is buffered whole. */
  lemma PlainLineBuffered(g: Geometry, m: Machine, line: string, eraseOk: nat -> bool)
    requires g.Valid() && |m.row.slots| == g.rowInstructions && m.rx == []
    requires |line| < RX_BUFFER_SIZE && NoLineEnd(line)
    requires forall k :: 0 <= k < |line| ==> line[k] as int < 256
    ensures Consume(g, m, AsBytes(line), 0, eraseOk) == Stepped(m.(rx := line), Running)
  {
    var a := AsBytes(line);
    ConsumePlainBytes(g, m, a, 0, eraseOk);
    assert AsChars(a)[0..] == line;
    assert Buffered([], line) == line;
  }
}
