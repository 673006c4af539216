/** The raw write and read-back helpers of the bootloader: the calls a write
    hands to the flash driver, when it reports success, and that a
    successful write reads back as exactly the data it was given. */
module WriteProps {
  import opened HexRecord
  import opened FlashRow
  import opened Engine

  /** The calls for the groups `k`, `k + 1`, ... logged from position `at`:
      one word write per group at `address` plus the group's byte offset,
      carrying the group's word, every call but the last one successful. */
  predicate WrittenFrom(address: nat, data: seq<Byte>, k: nat, writeOk: nat -> bool, at: nat, calls: seq<FlashCall>)
    requires |data| % 4 == 0
  {
    && k + |calls| <= |data| / 4
    && forall j :: 0 <= j < |calls| ==>
         && calls[j] == WriteWord((address + 4 * (k + j)) % U32_MOD, GroupWord(data, 4 * (k + j)), writeOk(at + j))
         && (j < |calls| - 1 ==> calls[j].ok)
  }

  /** One group the driver writes: the call is logged and the loop goes on. */
  lemma WriteWordsStep(m: Machine, address: nat, data: seq<Byte>, k: nat, writeOk: nat -> bool) returns (m2: Machine)
    requires |data| % 4 == 0 && k < |data| / 4 && writeOk(|m.flash|)
    ensures m2 == m.(flash := m.flash + [WriteWord((address + 4 * k) % U32_MOD, GroupWord(data, 4 * k), true)])
    ensures WriteWordsFrom(m, address, data, k, writeOk) == WriteWordsFrom(m2, address, data, k + 1, writeOk)
  {
    m2 := m.(flash := m.flash + [WriteWord((address + 4 * k) % U32_MOD, GroupWord(data, 4 * k), true)]);
  }

  /** The write loop touches nothing but the flash log, and only appends to it. */
  lemma {:induction false} WriteWordsExtendLog(m: Machine, address: nat, data: seq<Byte>, k: nat, writeOk: nat -> bool)
    requires |data| % 4 == 0
    ensures var e := WriteWordsFrom(m, address, data, k, writeOk).machine;
      && e == m.(flash := e.flash)
      && |e.flash| >= |m.flash| && e.flash[..|m.flash|] == m.flash
    decreases |data| / 4 - k
  {
    if k < |data| / 4 && writeOk(|m.flash|) {
      var m2 := WriteWordsStep(m, address, data, k, writeOk);
      WriteWordsExtendLog(m2, address, data, k + 1, writeOk);
      var log := WriteWordsFrom(m, address, data, k, writeOk).machine.flash;
      assert log[..|m.flash|] == log[..|m2.flash|][..|m.flash|];
    }
  }

  /** A log that goes on from `prior` with a successful write of group `k`
      followed by the calls for the later groups holds the calls from `k` on. */
  lemma WrittenFromLog(address: nat, data: seq<Byte>, k: nat, writeOk: nat -> bool, prior: seq<FlashCall>, log: seq<FlashCall>)
    requires |data| % 4 == 0 && k < |data| / 4 && writeOk(|prior|)
    requires |log| >= |prior| + 1
    requires log[..|prior| + 1] == prior + [WriteWord((address + 4 * k) % U32_MOD, GroupWord(data, 4 * k), true)]
    requires WrittenFrom(address, data, k + 1, writeOk, |prior| + 1, log[|prior| + 1..])
    ensures WrittenFrom(address, data, k, writeOk, |prior|, log[|prior|..])
  {
    var calls := log[|prior|..];
    var rest := log[|prior| + 1..];
    assert log[|prior|] == (log[..|prior| + 1])[|prior|];
    forall j | 0 < j < |calls|
      ensures calls[j] == WriteWord((address + 4 * (k + j)) % U32_MOD, GroupWord(data, 4 * (k + j)), writeOk(|prior| + j))
      ensures j < |calls| - 1 ==> calls[j].ok
    {
      assert calls[j] == rest[j - 1];
      assert k + j == k + 1 + (j - 1);
    }
  }

  /** The calls the write loop appends from group `k` on: the groups in order,
      at their byte offsets, every one but the last successful. */
  lemma {:induction false} WriteWordsCalls(m: Machine, address: nat, data: seq<Byte>, k: nat, writeOk: nat -> bool)
    requires |data| % 4 == 0 && k <= |data| / 4
    ensures var log := WriteWordsFrom(m, address, data, k, writeOk).machine.flash;
      |log| >= |m.flash| && WrittenFrom(address, data, k, writeOk, |m.flash|, log[|m.flash|..])
    decreases |data| / 4 - k
  {
    WriteWordsExtendLog(m, address, data, k, writeOk);
    if k < |data| / 4 && writeOk(|m.flash|) {
      var m2 := WriteWordsStep(m, address, data, k, writeOk);
      WriteWordsCalls(m2, address, data, k + 1, writeOk);
      WriteWordsExtendLog(m2, address, data, k + 1, writeOk);
      WrittenFromLog(address, data, k, writeOk, m.flash, WriteWordsFrom(m2, address, data, k + 1, writeOk).machine.flash);
    } else if k < |data| / 4 {
      var log := WriteWordsFrom(m, address, data, k, writeOk).machine.flash;
      assert log == m.flash + [WriteWord((address + 4 * k) % U32_MOD, GroupWord(data, 4 * k), false)];
      assert log[|m.flash|..] == [log[|m.flash|]];
    } else {
      assert WriteWordsFrom(m, address, data, k, writeOk).machine.flash[|m.flash|..] == [];
    }
  }

  /** How the write loop ends: it fails exactly when its last call failed,
      and when it succeeds it has written every remaining group. */
  lemma {:induction false} WriteWordsOutcome(m: Machine, address: nat, data: seq<Byte>, k: nat, writeOk: nat -> bool)
    requires |data| % 4 == 0 && k <= |data| / 4
    ensures var e := WriteWordsFrom(m, address, data, k, writeOk);
      var n := |e.machine.flash| - |m.flash|;
      && (e.ok ==> k + n == |data| / 4)
      && (!e.ok <==> n > 0 && !writeOk(|m.flash| + n - 1))
    decreases |data| / 4 - k
  {
    if k < |data| / 4 && writeOk(|m.flash|) {
      var m2 := WriteWordsStep(m, address, data, k, writeOk);
      WriteWordsOutcome(m2, address, data, k + 1, writeOk);
      WriteWordsExtendLog(m2, address, data, k + 1, writeOk);
    }
  }

  /** `Bootloader_WriteFlash`: refused, with nothing handed to the driver,
      outside the application area; inside it, one word write per group, in
      order, stopping at the first the driver fails, and success exactly when
      every group was written. */
  lemma WriteFlashEffect(m: Machine, address: nat, data: seq<Byte>, writeOk: nat -> bool)
    requires |data| % 4 == 0
    ensures !InAppArea(address) ==> WriteFlash(m, address, data, writeOk) == Flagged(m, false)
    ensures var e := WriteFlash(m, address, data, writeOk);
      var log := e.machine.flash;
      InAppArea(address) ==>
        && e.machine == m.(flash := log)
        && |log| >= |m.flash| && log[..|m.flash|] == m.flash
        && WrittenFrom(address, data, 0, writeOk, |m.flash|, log[|m.flash|..])
        && (e.ok ==> |log| - |m.flash| == |data| / 4)
        && (!e.ok <==> |log| > |m.flash| && !writeOk(|log| - 1))
  {
    if InAppArea(address) {
      WriteWordsExtendLog(m, address, data, 0, writeOk);
      WriteWordsCalls(m, address, data, 0, writeOk);
      WriteWordsOutcome(m, address, data, 0, writeOk);
    }
  }

  /** The word the driver last wrote successfully at `address` according to
      `log`, or `blank(address)` when it wrote none there. */
  function LastWordWritten(log: seq<FlashCall>, address: nat, blank: nat -> nat): nat
  {
    if log == [] then blank(address)
    else
      var c := log[|log| - 1];
      if c.WriteWord? && c.ok && c.address == address then c.word
      else LastWordWritten(log[..|log| - 1], address, blank)
  }

  /** A successful word write that no later successful write to the same
      address overrides is what the address reads back. */
  lemma {:induction false} LastWriteWins(log: seq<FlashCall>, p: nat, blank: nat -> nat)
    requires p < |log| && log[p].WriteWord? && log[p].ok
    requires forall q :: p < q < |log| && log[q].WriteWord? ==> log[q].address != log[p].address
    ensures LastWordWritten(log, log[p].address, blank) == log[p].word
    decreases |log|
  {
    if p < |log| - 1 {
      var shorter := log[..|log| - 1];
      forall q | p < q < |shorter| && shorter[q].WriteWord?
        ensures shorter[q].address != shorter[p].address
      {
        assert shorter[q] == log[q];
      }
      LastWriteWins(shorter, p, blank);
    }
  }

  /** Distinct groups of a buffer shorter than 64 KiB land at distinct
      addresses, even where `address + i` wraps around 32 bits. */
  lemma GroupAddressesDistinct(address: nat, j: nat, k: nat)
    requires j < k < 0x4000
    ensures (address + 4 * j) % U32_MOD != (address + 4 * k) % U32_MOD
  {
  }

  /** Write, then verify: after a `Bootloader_WriteFlash` that reports
      success, `Bootloader_VerifyFlash` over the words the driver was given
      finds every group of the data in place. */
  lemma WriteThenVerify(m: Machine, address: nat, data: seq<Byte>, writeOk: nat -> bool, blank: nat -> nat)
    requires |data| % 4 == 0 && |data| < 0x1_0000
    requires WriteFlash(m, address, data, writeOk).ok
    ensures var log := WriteFlash(m, address, data, writeOk).machine.flash;
      FlashMatches(address, data, a => LastWordWritten(log, a, blank))
  {
    WriteFlashEffect(m, address, data, writeOk);
    var log := WriteFlash(m, address, data, writeOk).machine.flash;
    var calls := log[|m.flash|..];
    assert |calls| == |data| / 4;
    forall k | 0 <= k < |data| / 4
      ensures LastWordWritten(log, (address + 4 * k) % U32_MOD, blank) == GroupWord(data, 4 * k)
    {
      var p := |m.flash| + k;
      assert log[p] == calls[k];
      assert calls[k].ok by {
        if k < |calls| - 1 {
        } else {
          assert p == |log| - 1;
        }
      }
      forall q | p < q < |log| && log[q].WriteWord?
        ensures log[q].address != log[p].address
      {
        assert log[q] == calls[q - |m.flash|];
        GroupAddressesDistinct(address, k, q - |m.flash|);
      }
      LastWriteWins(log, p, blank);
    }
  }

  lemma LastGroupOffset(n: nat)
    requires n % 4 == 0 && n >= 4
    ensures 4 * (n / 4 - 1) == n - 4
  {
  }

  /** `Bootloader_WriteFlash` checks only its start address: when the driver
      accepts every call, a write that starts in the application area but
      whose last group lies past `APP_END` hands the driver a word write
      outside the application area. */
  lemma WriteFlashChecksOnlyStart(m: Machine, address: nat, data: seq<Byte>, writeOk: nat -> bool)
    requires |data| % 4 == 0 && 4 <= |data| < 0x1_0000 && InAppArea(address)
    requires APP_END < address + |data| - 4
    requires forall j :: writeOk(j)
    ensures var e := WriteFlash(m, address, data, writeOk);
      var log := e.machine.flash;
      && e.ok
      && |log| == |m.flash| + |data| / 4
      && log[|log| - 1] == WriteWord(address + |data| - 4, GroupWord(data, |data| - 4), true)
      && !InAppArea(log[|log| - 1].address)
  {
    WriteFlashEffect(m, address, data, writeOk);
    var e := WriteFlash(m, address, data, writeOk);
    var log := e.machine.flash;
    var n := |data| / 4;
    assert writeOk(|log| - 1);
    LastGroupOffset(|data|);
    assert log[|m.flash|..][n - 1] == log[|log| - 1];
  }

  /** An instance: eight bytes written at the last application address
      `0xABFE` put their second word at `0xAC02`, past the area. */
  lemma WriteFlashPastAppEnd(m: Machine)
    ensures var log := WriteFlash(m, 0xABFE, [1, 2, 3, 0, 4, 5, 6, 0], _ => true).machine.flash;
      && |log| == |m.flash| + 2
      && log[|m.flash| + 1] == WriteWord(0xAC02, 0x060504, true)
      && !InAppArea(0xAC02)
  {
    var data: seq<Byte> := [1, 2, 3, 0, 4, 5, 6, 0];
    WriteFlashChecksOnlyStart(m, 0xABFE, data, _ => true);
    assert GroupWord(data, 4) == 0x060504;
  }
}
