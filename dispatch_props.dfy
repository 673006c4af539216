/** What each command and each record does, as the host observes it through
    the replies, and what it leaves untouched. */
module DispatchProps {
  import opened Ascii
  import opened HexRecord
  import opened FlashRow
  import opened Persistent
  import opened Engine
  import opened EngineProps

  /** A reply the host can read with one `readline()`: text without line
      endings, terminated by CR LF. */
  predicate IsReplyLine(s: string)
  {
    |s| >= 2 && s[|s| - 2..] == "\r\n" && NoLineEnd(s[..|s| - 2])
  }

  lemma NoLineEndConcat(a: string, b: string)
    requires NoLineEnd(a) && NoLineEnd(b)
    ensures NoLineEnd(a + b)
  {
    forall k | 0 <= k < |a + b|
      ensures !IsLineEnd((a + b)[k])
    {
      if k >= |a| {
        assert (a + b)[k] == b[k - |a|];
      }
    }
  }

  lemma DigitsHaveNoLineEnd(s: string)
    requires AllHexDigits(s)
    ensures NoLineEnd(s)
  {
  }

  /** A text without line endings followed by CR LF is a reply line. */
  lemma TerminatedIsReplyLine(text: string)
    requires NoLineEnd(text)
    ensures IsReplyLine(text + "\r\n")
  {
    var s := text + "\r\n";
    assert s[..|s| - 2] == text;
    assert s[|s| - 2..] == "\r\n";
  }

  lemma DecimalHasNoLineEnd(n: nat)
    ensures NoLineEnd(Decimal(n))
  {
    var s := Decimal(n);
    assert AllHexDigits(s) by {
      forall k | 0 <= k < |s|
        ensures IsHexDigit(s[k])
      {
        assert IsDigit(s[k]);
      }
    }
    DigitsHaveNoLineEnd(s);
  }

  /** The version line is one reply line. */
  lemma VersionIsReplyLine(d: Diag)
    ensures IsReplyLine(VersionLine(d))
  {
    DecimalHasNoLineEnd(d.stubToAppCount);
    DecimalHasNoLineEnd(d.jumpReturnCount);
    DecimalHasNoLineEnd(d.sawResetStubMagic);
    DecimalHasNoLineEnd(d.appTrapCode);
    DecimalHasNoLineEnd(d.appStage);
    var br := Hex4(d.lastRcon);
    var al := Hex4(d.appLastRcon);
    assert AllHexDigits(br) && AllHexDigits(al);
    DigitsHaveNoLineEnd(br);
    DigitsHaveNoLineEnd(al);
    var text := VERSION_STRING + " SJ=" + Decimal(d.stubToAppCount) + " JR=" + Decimal(d.jumpReturnCount)
      + " SR=" + Decimal(d.sawResetStubMagic) + " BR=" + br + " AL=" + al
      + " AT=" + Decimal(d.appTrapCode) + " AS=" + Decimal(d.appStage);
    NoLineEndConcat(VERSION_STRING, " SJ=");
    NoLineEndConcat(VERSION_STRING + " SJ=", Decimal(d.stubToAppCount));
    NoLineEndConcat(VERSION_STRING + " SJ=" + Decimal(d.stubToAppCount), " JR=");
    NoLineEndConcat(VERSION_STRING + " SJ=" + Decimal(d.stubToAppCount) + " JR=", Decimal(d.jumpReturnCount));
    var t1 := VERSION_STRING + " SJ=" + Decimal(d.stubToAppCount) + " JR=" + Decimal(d.jumpReturnCount);
    NoLineEndConcat(t1, " SR=");
    NoLineEndConcat(t1 + " SR=", Decimal(d.sawResetStubMagic));
    NoLineEndConcat(t1 + " SR=" + Decimal(d.sawResetStubMagic), " BR=");
    NoLineEndConcat(t1 + " SR=" + Decimal(d.sawResetStubMagic) + " BR=", br);
    var t2 := t1 + " SR=" + Decimal(d.sawResetStubMagic) + " BR=" + br;
    NoLineEndConcat(t2, " AL=");
    NoLineEndConcat(t2 + " AL=", al);
    NoLineEndConcat(t2 + " AL=" + al, " AT=");
    NoLineEndConcat(t2 + " AL=" + al + " AT=", Decimal(d.appTrapCode));
    NoLineEndConcat(t2 + " AL=" + al + " AT=" + Decimal(d.appTrapCode), " AS=");
    NoLineEndConcat(t2 + " AL=" + al + " AT=" + Decimal(d.appTrapCode) + " AS=", Decimal(d.appStage));
    TerminatedIsReplyLine(text);
  }

  lemma ConcatAssoc4(a: string, b: string, c: string, d: string, e: string)
    ensures a + b + c + d + e == (a + b + c + d) + e
  {
  }

  /** The `C` reply is one reply line. */
  lemma CompleteReplyIsReplyLine(bytesWritten: nat, pagesErased: nat)
    ensures IsReplyLine(Response(RSP_OK, CompleteMessage(bytesWritten, pagesErased)))
  {
    DecimalHasNoLineEnd(bytesWritten);
    DecimalHasNoLineEnd(pagesErased);
    var a := Decimal(bytesWritten);
    var b := Decimal(pagesErased);
    var text := "+OK: " + a + " bytes, " + b + " pages";
    NoLineEndConcat("+OK: ", a);
    NoLineEndConcat("+OK: " + a, " bytes, ");
    NoLineEndConcat("+OK: " + a + " bytes, ", b);
    NoLineEndConcat("+OK: " + a + " bytes, " + b, " pages");
    TerminatedIsReplyLine(text);
    assert CompleteMessage(bytesWritten, pagesErased) == "OK: " + a + " bytes, " + b + " pages\r\n";
    assert " pages\r\n" == " pages" + "\r\n";
    assert [RSP_OK] + "OK: " == "+OK: ";
    calc {
      Response(RSP_OK, CompleteMessage(bytesWritten, pagesErased));
      [RSP_OK] + ("OK: " + a + " bytes, " + b + " pages\r\n");
      "+OK: " + a + " bytes, " + b + (" pages" + "\r\n");
      { ConcatAssoc4("+OK: " + a, " bytes, ", b, " pages", "\r\n"); }
      text + "\r\n";
    }
  }

  lemma ApplyRecordFrame(g: Geometry, m: Machine, r: Record)
    requires g.Valid() && |m.row.slots| == g.rowInstructions && r.WellFormed()
    ensures var p := ApplyRecord(g, m, r);
      && p.machine == m.(row := p.machine.row, flash := p.machine.flash, bytesWritten := p.machine.bytesWritten,
                         extendedAddress := p.machine.extendedAddress, state := p.machine.state)
      && p.machine.state == (if p.ok && r.kind == EOF_RECORD then Complete else m.state)
  {
    if r.kind == DATA_RECORD && InAppArea(DataPc(m, r)) {
      GroupsChangeOnlyRow(g, m, r.data, DataPc(m, r), 0);
    }
  }

  /** The parts of the state a record can change: the row buffer, the driver
      log, the byte counter, the extended address and (End of File only) the
      engine state. */
  lemma ParseHexLineFrame(g: Geometry, m: Machine, line: string)
    requires g.Valid() && |m.row.slots| == g.rowInstructions
    ensures var p := ParseHexLine(g, m, line);
      && p.machine == m.(row := p.machine.row, flash := p.machine.flash, bytesWritten := p.machine.bytesWritten,
                         extendedAddress := p.machine.extendedAddress, state := p.machine.state)
      && p.machine.state == (if p.ok && Decode(line).value.kind == EOF_RECORD then Complete else m.state)
  {
    match Decode(line)
    case Failure(_) =>
    case Success(r) =>
      ApplyRecordFrame(g, m, r);
  }

  /** `ParseHexLine` accepts exactly the lines that decode with a matching
      checksum and carry one of the six known record types; a rejected line
      leaves the whole state as it was. */
  lemma ParseHexLineAcceptance(g: Geometry, m: Machine, line: string)
    requires g.Valid() && |m.row.slots| == g.rowInstructions
    ensures var p := ParseHexLine(g, m, line);
      && (p.ok <==> Decode(line).Success? && Decode(line).value.kind <= START_LINEAR_ADDR)
      && (!p.ok ==> p.machine == m)
  {
  }

  /** A line that lacks the start code or whose checksum does not match is
      rejected with nothing changed, whatever else it holds. */
  lemma CorruptLinesRejected(g: Geometry, m: Machine, r: Record, k: nat, v: nat)
    requires g.Valid() && |m.row.slots| == g.rowInstructions && r.WellFormed()
    requires k < |r.data| && v < 256 && v != r.data[k]
    ensures ParseHexLine(g, m, Encode(r.(data := r.data[k := v]))) == Flagged(m, false)
  {
    var bad := r.(data := r.data[k := v]);
    ChecksumDetectsChangedDataByte(r.address, r.kind, r.data, k, v);
    DecodeChecksOnlyChecksum(bad);
  }

  lemma ApplyAddressRecord(g: Geometry, m: Machine, r: Record)
    requires g.Valid() && |m.row.slots| == g.rowInstructions && r.WellFormed()
    requires r.kind == EXT_LINEAR_ADDR || r.kind == EXT_SEG_ADDR
    ensures ApplyRecord(g, m, r) == Flagged(
      if |r.data| != 2 then m
      else if r.kind == EXT_LINEAR_ADDR then m.(extendedAddress := r.data[0] * 0x100_0000 + r.data[1] * 0x1_0000)
      else m.(extendedAddress := r.data[0] * 0x1000 + r.data[1] * 0x10),
      true)
  {
  }

  /** The address records, as a HEX writer emits them: a two-byte Extended
      Linear Address record sets the upper 16 bits of the 32-bit base, a
      two-byte Extended Segment Address record sets a paragraph base, any
      other length changes nothing; all are accepted. */
  lemma ExtendedAddressRecords(g: Geometry, m: Machine, r: Record)
    requires g.Valid() && |m.row.slots| == g.rowInstructions && r.WellFormed()
    requires r.kind == EXT_LINEAR_ADDR || r.kind == EXT_SEG_ADDR
    ensures ParseHexLine(g, m, Encode(r)) == Flagged(
      if |r.data| != 2 then m
      else if r.kind == EXT_LINEAR_ADDR then m.(extendedAddress := r.data[0] * 0x100_0000 + r.data[1] * 0x1_0000)
      else m.(extendedAddress := r.data[0] * 0x1000 + r.data[1] * 0x10),
      true)
  {
    assert Decode(Encode(r)) == Success(r) by { DecodeEncode(r); }
    ApplyAddressRecord(g, m, r);
  }

  lemma ApplyStartRecord(g: Geometry, m: Machine, r: Record)
    requires g.Valid() && |m.row.slots| == g.rowInstructions && r.WellFormed()
    requires r.kind == START_SEG_ADDR || r.kind == START_LINEAR_ADDR
    ensures ApplyRecord(g, m, r) == Flagged(m, true)
  {
  }

  lemma ApplyUnknownRecord(g: Geometry, m: Machine, r: Record)
    requires g.Valid() && |m.row.slots| == g.rowInstructions && r.WellFormed()
    requires r.kind > START_LINEAR_ADDR
    ensures ApplyRecord(g, m, r) == Flagged(m, false)
  {
  }

  /** The start-address records are accepted and ignored. */
  lemma StartAddressRecordsIgnored(g: Geometry, m: Machine, r: Record)
    requires g.Valid() && |m.row.slots| == g.rowInstructions && r.WellFormed()
    requires r.kind == START_SEG_ADDR || r.kind == START_LINEAR_ADDR
    ensures ParseHexLine(g, m, Encode(r)) == Flagged(m, true)
  {
    var line := Encode(r);
    assert Decode(line) == Success(r) by { DecodeEncode(r); }
    ApplyStartRecord(g, m, r);
  }

  /** Record types above Start Linear Address are rejected, checksum or not. */
  lemma UnknownRecordTypesRejected(g: Geometry, m: Machine, r: Record)
    requires g.Valid() && |m.row.slots| == g.rowInstructions && r.WellFormed()
    requires r.kind > START_LINEAR_ADDR
    ensures ParseHexLine(g, m, Encode(r)) == Flagged(m, false)
  {
    var line := Encode(r);
    assert Decode(line) == Success(r) by { DecodeEncode(r); }
    ApplyUnknownRecord(g, m, r);
  }

  /** `blLastCmd` and `blCmdCount` are set before the command runs, whatever it
      is; the only other persistent words any command writes are the two
      handoff words, written by `J`. */
  lemma CommandCountedFirst(g: Geometry, m: Machine, line: string, eraseOk: nat -> bool)
    requires g.Valid() && |m.row.slots| == g.rowInstructions && line != ""
    ensures var d := m.diag.(lastCmd := line[0] as int % 256, cmdCount := (m.diag.cmdCount + 1) % U16_MOD);
      ProcessLine(g, m, line, eraseOk).machine.diag ==
        if line[0] == CMD_JUMP_APP then d.(jumpAttempted := JUMP_ATTEMPT_MAGIC, jumpMagic := JUMP_MAGIC_VALUE) else d
  {
    var m0 := CountCommand(m, line[0]);
    if line[0] == CMD_ERASE_FLASH {
      ErasePagesChangeOnlyLog(g, m0.(pagesErased := 0), eraseOk, APP_START);
    } else if line[0] == CMD_HEX_RECORD && (m0.state == ReceivingHex || m0.state == Idle) {
      ParseHexLineFrame(g, m0.(state := ReceivingHex), line);
    }
  }

  /** A hex line outside Idle and ReceivingHex is counted and otherwise
      ignored: no reply, no state change. */
  lemma HexLineIgnoredWhileBusy(g: Geometry, m: Machine, line: string, eraseOk: nat -> bool)
    requires g.Valid() && |m.row.slots| == g.rowInstructions
    requires line != "" && line[0] == CMD_HEX_RECORD && m.state != Idle && m.state != ReceivingHex
    ensures ProcessLine(g, m, line, eraseOk) == Stepped(CountCommand(m, CMD_HEX_RECORD), Running)
  {
  }

  /** A hex line in Idle or ReceivingHex gets exactly one reply, `+` when the
      record was accepted and `-HEX error` otherwise, and leaves the engine in
      ReceivingHex, or Complete after an accepted End of File record. */
  lemma HexLineAnswered(g: Geometry, m: Machine, line: string, eraseOk: nat -> bool)
    requires g.Valid() && |m.row.slots| == g.rowInstructions
    requires line != "" && line[0] == CMD_HEX_RECORD && (m.state == Idle || m.state == ReceivingHex)
    ensures var ok := ParseHexLine(g, CountCommand(m, CMD_HEX_RECORD).(state := ReceivingHex), line).ok;
      var r := ProcessLine(g, m, line, eraseOk);
      && r.outcome == Running
      && r.machine.replies == m.replies + [if ok then "+\r\n" else "-HEX error\r\n"]
      && r.machine.state == (if ok && Decode(line).value.kind == EOF_RECORD then Complete else ReceivingHex)
  {
    var m0 := CountCommand(m, CMD_HEX_RECORD);
    assert ProcessLine(g, m, line, eraseOk) == Dispatch(g, m0, line, eraseOk);
    assert Dispatch(g, m0, line, eraseOk) == Stepped(HexCommand(g, m0, line), Running);
    ParseHexLineFrame(g, m0.(state := ReceivingHex), line);
    assert Response(RSP_OK, "") == "+\r\n";
    assert Response(RSP_ERROR, "HEX error\r\n") == "-HEX error\r\n";
  }

  /** `E` erases the application area and reports it: success moves to
      ReceivingHex with `+Erased`, a failed page moves to Error with
      `-Erase failed`; the page counter restarts from zero. */
  lemma EraseCommandEffect(g: Geometry, m: Machine, line: string, eraseOk: nat -> bool)
    requires g.Valid() && |m.row.slots| == g.rowInstructions && line != "" && line[0] == CMD_ERASE_FLASH
    ensures var e := ErasePages(g, CountCommand(m, CMD_ERASE_FLASH).(pagesErased := 0), eraseOk, APP_START);
      var r := ProcessLine(g, m, line, eraseOk);
      && r.outcome == Running
      && r.machine.state == (if e.ok then ReceivingHex else Error)
      && r.machine.replies == m.replies + [if e.ok then "+Erased\r\n" else "-Erase failed\r\n"]
      && r.machine.pagesErased == e.machine.pagesErased
      && r.machine.row == m.row
  {
    var m0 := CountCommand(m, CMD_ERASE_FLASH);
    assert ProcessLine(g, m, line, eraseOk) == Dispatch(g, m0, line, eraseOk);
    assert Dispatch(g, m0, line, eraseOk) == Stepped(EraseCommand(g, m0, eraseOk), Running);
    ErasePagesChangeOnlyLog(g, m0.(pagesErased := 0), eraseOk, APP_START);
    assert Response(RSP_OK, "Erased\r\n") == "+Erased\r\n";
    assert Response(RSP_ERROR, "Erase failed\r\n") == "-Erase failed\r\n";
  }

  /** `C` flushes the pending row first, then moves to Complete from any state
      and reports both counters. */
  lemma VerifyCommandEffect(g: Geometry, m: Machine, line: string, eraseOk: nat -> bool)
    requires g.Valid() && |m.row.slots| == g.rowInstructions && line != "" && line[0] == CMD_VERIFY
    ensures var r := ProcessLine(g, m, line, eraseOk);
      && r.outcome == Running
      && r.machine.state == Complete
      && !Pending(r.machine.row)
      && r.machine.flash == m.flash + FlushRow(m.row).calls
      && r.machine.replies == m.replies + ["+OK: " + Decimal(m.bytesWritten) + " bytes, " + Decimal(m.pagesErased) + " pages\r\n"]
  {
    var m0 := CountCommand(m, CMD_VERIFY);
    assert ProcessLine(g, m, line, eraseOk) == Dispatch(g, m0, line, eraseOk);
    assert Dispatch(g, m0, line, eraseOk) == Stepped(VerifyCommand(m0), Running);
    FlushEffect(m.row);
    var msg := CompleteMessage(m.bytesWritten, m.pagesErased);
    assert msg != "";
    assert Response(RSP_OK, msg) == "+OK: " + Decimal(m.bytesWritten) + " bytes, " + Decimal(m.pagesErased) + " pages\r\n";
  }

  /** `J` flushes the pending row, acknowledges, writes both handoff words and
      resets. */
  lemma JumpCommandEffect(g: Geometry, m: Machine, line: string, eraseOk: nat -> bool)
    requires g.Valid() && |m.row.slots| == g.rowInstructions && line != "" && line[0] == CMD_JUMP_APP
    ensures var r := ProcessLine(g, m, line, eraseOk);
      && r.outcome == Reset
      && !Pending(r.machine.row)
      && r.machine.flash == m.flash + FlushRow(m.row).calls
      && r.machine.replies == m.replies + ["+Jumping...\r\n"]
      && r.machine.diag.jumpMagic == JUMP_MAGIC_VALUE && r.machine.diag.jumpAttempted == JUMP_ATTEMPT_MAGIC
  {
    var m0 := CountCommand(m, CMD_JUMP_APP);
    assert ProcessLine(g, m, line, eraseOk) == Dispatch(g, m0, line, eraseOk);
    assert Dispatch(g, m0, line, eraseOk) == JumpCommand(m0);
    FlushEffect(m.row);
    assert Response(RSP_OK, "Jumping...\r\n") == "+Jumping...\r\n";
  }

  /** `V` answers with the version line built from the persistent words. */
  lemma VersionCommandEffect(g: Geometry, m: Machine, line: string, eraseOk: nat -> bool)
    requires g.Valid() && |m.row.slots| == g.rowInstructions && line != "" && line[0] == CMD_READ_VERSION
    ensures ProcessLine(g, m, line, eraseOk) ==
      Stepped(CountCommand(m, CMD_READ_VERSION).(replies := m.replies + [VersionLine(m.diag)]), Running)
  {
    var m0 := CountCommand(m, CMD_READ_VERSION);
    assert ProcessLine(g, m, line, eraseOk) == Dispatch(g, m0, line, eraseOk);
  }

  /** `X` acknowledges and resets, nothing else. */
  lemma ResetCommandEffect(g: Geometry, m: Machine, line: string, eraseOk: nat -> bool)
    requires g.Valid() && |m.row.slots| == g.rowInstructions && line != "" && line[0] == CMD_RESET
    ensures ProcessLine(g, m, line, eraseOk) ==
      Stepped(CountCommand(m, CMD_RESET).(replies := m.replies + ["+Resetting...\r\n"]), Reset)
  {
    var m0 := CountCommand(m, CMD_RESET);
    assert ProcessLine(g, m, line, eraseOk) == Dispatch(g, m0, line, eraseOk);
    assert Response(RSP_OK, "Resetting...\r\n") == "+Resetting...\r\n";
  }

  /** Only `J` and `X` reset the device. */
  lemma ResetOnlyOnJumpOrReset(g: Geometry, m: Machine, line: string, eraseOk: nat -> bool)
    requires g.Valid() && |m.row.slots| == g.rowInstructions
    ensures ProcessLine(g, m, line, eraseOk).outcome == Reset <==> line != "" && (line[0] == CMD_JUMP_APP || line[0] == CMD_RESET)
  {
    if line != "" {
      assert ProcessLine(g, m, line, eraseOk) == Dispatch(g, CountCommand(m, line[0]), line, eraseOk);
    }
  }

  /** Any command character without a case, the declared but unhandled `R` and
      `W` included, is counted and answered with `?Unknown command`. */
  lemma UnknownCommandAnswered(g: Geometry, m: Machine, line: string, eraseOk: nat -> bool)
    requires g.Valid() && |m.row.slots| == g.rowInstructions && line != ""
    requires line[0] !in {CMD_READ_VERSION, CMD_ERASE_FLASH, CMD_HEX_RECORD, CMD_VERIFY, CMD_JUMP_APP, CMD_RESET}
    ensures ProcessLine(g, m, line, eraseOk) ==
      Stepped(CountCommand(m, line[0]).(replies := m.replies + ["?Unknown command\r\n"]), Running)
  {
    var m0 := CountCommand(m, line[0]);
    assert ProcessLine(g, m, line, eraseOk) == Dispatch(g, m0, line, eraseOk);
    assert Response(RSP_UNKNOWN, "Unknown command\r\n") == "?Unknown command\r\n";
  }

  /** `after` is `before` with one reply line appended. */
  predicate AddsOneReplyLine(before: seq<string>, after: seq<string>)
  {
    |after| == |before| + 1 && after[..|before|] == before && IsReplyLine(after[|before|])
  }

  lemma AppendReplyLine(before: seq<string>, x: string)
    requires IsReplyLine(x)
    ensures AddsOneReplyLine(before, before + [x])
  {
    assert (before + [x])[..|before|] == before;
  }

  lemma VersionRepliesOneLine(g: Geometry, m: Machine, line: string, eraseOk: nat -> bool)
    requires g.Valid() && |m.row.slots| == g.rowInstructions && line != "" && line[0] == CMD_READ_VERSION
    ensures AddsOneReplyLine(m.replies, ProcessLine(g, m, line, eraseOk).machine.replies)
  {
    VersionCommandEffect(g, m, line, eraseOk);
    VersionIsReplyLine(m.diag);
    AppendReplyLine(m.replies, VersionLine(m.diag));
  }

  lemma EraseRepliesOneLine(g: Geometry, m: Machine, line: string, eraseOk: nat -> bool)
    requires g.Valid() && |m.row.slots| == g.rowInstructions && line != "" && line[0] == CMD_ERASE_FLASH
    ensures AddsOneReplyLine(m.replies, ProcessLine(g, m, line, eraseOk).machine.replies)
  {
    EraseCommandEffect(g, m, line, eraseOk);
    TerminatedIsReplyLine("+Erased");
    TerminatedIsReplyLine("-Erase failed");
    AppendReplyLine(m.replies, "+Erased\r\n");
    AppendReplyLine(m.replies, "-Erase failed\r\n");
  }

  lemma HexRepliesOneLine(g: Geometry, m: Machine, line: string, eraseOk: nat -> bool)
    requires g.Valid() && |m.row.slots| == g.rowInstructions && line != "" && line[0] == CMD_HEX_RECORD
    requires m.state == Idle || m.state == ReceivingHex
    ensures AddsOneReplyLine(m.replies, ProcessLine(g, m, line, eraseOk).machine.replies)
  {
    HexLineAnswered(g, m, line, eraseOk);
    TerminatedIsReplyLine("+");
    TerminatedIsReplyLine("-HEX error");
    AppendReplyLine(m.replies, "+\r\n");
    AppendReplyLine(m.replies, "-HEX error\r\n");
  }

  lemma VerifyRepliesOneLine(g: Geometry, m: Machine, line: string, eraseOk: nat -> bool)
    requires g.Valid() && |m.row.slots| == g.rowInstructions && line != "" && line[0] == CMD_VERIFY
    ensures AddsOneReplyLine(m.replies, ProcessLine(g, m, line, eraseOk).machine.replies)
  {
    VerifyCommandEffect(g, m, line, eraseOk);
    CompleteReplyIsReplyLine(m.bytesWritten, m.pagesErased);
    AppendReplyLine(m.replies, Response(RSP_OK, CompleteMessage(m.bytesWritten, m.pagesErased)));
  }

  lemma JumpRepliesOneLine(g: Geometry, m: Machine, line: string, eraseOk: nat -> bool)
    requires g.Valid() && |m.row.slots| == g.rowInstructions && line != "" && line[0] == CMD_JUMP_APP
    ensures AddsOneReplyLine(m.replies, ProcessLine(g, m, line, eraseOk).machine.replies)
  {
    JumpCommandEffect(g, m, line, eraseOk);
    TerminatedIsReplyLine("+Jumping...");
    AppendReplyLine(m.replies, "+Jumping...\r\n");
  }

  lemma ResetRepliesOneLine(g: Geometry, m: Machine, line: string, eraseOk: nat -> bool)
    requires g.Valid() && |m.row.slots| == g.rowInstructions && line != "" && line[0] == CMD_RESET
    ensures AddsOneReplyLine(m.replies, ProcessLine(g, m, line, eraseOk).machine.replies)
  {
    ResetCommandEffect(g, m, line, eraseOk);
    TerminatedIsReplyLine("+Resetting...");
    AppendReplyLine(m.replies, "+Resetting...\r\n");
  }

  lemma UnknownRepliesOneLine(g: Geometry, m: Machine, line: string, eraseOk: nat -> bool)
    requires g.Valid() && |m.row.slots| == g.rowInstructions && line != ""
    requires line[0] !in {CMD_READ_VERSION, CMD_ERASE_FLASH, CMD_HEX_RECORD, CMD_VERIFY, CMD_JUMP_APP, CMD_RESET}
    ensures AddsOneReplyLine(m.replies, ProcessLine(g, m, line, eraseOk).machine.replies)
  {
    UnknownCommandAnswered(g, m, line, eraseOk);
    TerminatedIsReplyLine("?Unknown command");
    AppendReplyLine(m.replies, "?Unknown command\r\n");
  }

  /** Every command sends at most one reply and each reply is a single line:
      an empty line and a hex line while busy send none, every other command
      exactly one. */
  lemma OneReplyLinePerCommand(g: Geometry, m: Machine, line: string, eraseOk: nat -> bool)
    requires g.Valid() && |m.row.slots| == g.rowInstructions
    ensures var r := ProcessLine(g, m, line, eraseOk).machine;
      if line == "" || (line[0] == CMD_HEX_RECORD && m.state != Idle && m.state != ReceivingHex) then r.replies == m.replies
      else AddsOneReplyLine(m.replies, r.replies)
  {
    if line != "" {
      var cmd := line[0];
      if cmd == CMD_READ_VERSION {
        VersionRepliesOneLine(g, m, line, eraseOk);
      } else if cmd == CMD_ERASE_FLASH {
        EraseRepliesOneLine(g, m, line, eraseOk);
      } else if cmd == CMD_HEX_RECORD {
        if m.state == Idle || m.state == ReceivingHex {
          HexRepliesOneLine(g, m, line, eraseOk);
        } else {
          HexLineIgnoredWhileBusy(g, m, line, eraseOk);
        }
      } else if cmd == CMD_VERIFY {
        VerifyRepliesOneLine(g, m, line, eraseOk);
      } else if cmd == CMD_JUMP_APP {
        JumpRepliesOneLine(g, m, line, eraseOk);
      } else if cmd == CMD_RESET {
        ResetRepliesOneLine(g, m, line, eraseOk);
      } else {
        UnknownRepliesOneLine(g, m, line, eraseOk);
      }
    }
  }
}
