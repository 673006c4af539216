/** The counters of the data path: the bytes a Data record adds to
    `bytesWritten`, and the pages the erase loop erases and counts. */
module CountingProps {
  import opened HexRecord
  import opened FlashRow
  import opened Engine

  lemma {:induction false} GroupCountIsQuotient(n: nat, i: nat)
    requires i % 4 == 0 && i <= n
    ensures GroupCount(n, i) == (n - i) / 4
    decreases n - i
  {
    if i + 3 < n {
      GroupCountIsQuotient(n, i + 4);
    }
  }

  lemma CountStepBy(before: nat, after: nat, next: nat, rest: int)
    requires after == (before + 1) % U32_MOD && rest >= 0 && next == (after + rest) % U32_MOD
    ensures next == (before + 1 + rest) % U32_MOD
  {
    ModAddAssoc(before, 1, rest);
  }

  /** A Data record adds three bytes to the counter for every complete
      four-byte group when its address lies in the application area, and
      changes nothing at all otherwise. */
  lemma DataRecordCountsBytes(g: Geometry, m: Machine, r: Record)
    requires g.Valid() && m.Valid(g) && r.WellFormed() && r.kind == DATA_RECORD
    ensures var d := DataRecord(g, m, r);
      && (InAppArea(DataPc(m, r)) ==> d.bytesWritten == (m.bytesWritten + 3 * (|r.data| / 4)) % U32_MOD)
      && (!InAppArea(DataPc(m, r)) ==> d == m)
  {
    if InAppArea(DataPc(m, r)) {
      GroupCountIsQuotient(|r.data|, 0);
    }
  }

  /** One page the driver erases: the call is logged, the page counted, and the
      loop goes on at the next page. */
  lemma ErasePagesStep(g: Geometry, m: Machine, eraseOk: nat -> bool, address: nat) returns (m2: Machine)
    requires g.Valid() && address < APP_END && eraseOk(|m.flash|)
    ensures m2 == m.(flash := m.flash + [ErasePage(address, true)], pagesErased := (m.pagesErased + 1) % U32_MOD)
    ensures ErasePages(g, m, eraseOk, address) == ErasePages(g, m2, eraseOk, address + g.erasePagePc)
  {
    m2 := m.(flash := m.flash + [ErasePage(address, true)], pagesErased := (m.pagesErased + 1) % U32_MOD);
  }

  /** A page the driver fails to erase: the call is logged and the loop stops. */
  lemma ErasePagesFails(g: Geometry, m: Machine, eraseOk: nat -> bool, address: nat)
    requires g.Valid() && address < APP_END && !eraseOk(|m.flash|)
    ensures ErasePages(g, m, eraseOk, address) == Flagged(m.(flash := m.flash + [ErasePage(address, false)]), false)
  {
  }

  lemma AppendedSuffix(log: seq<FlashCall>, call: FlashCall)
    ensures (log + [call])[|log|..] == [call]
  {
  }

  /** The erase loop only appends to the flash log. */
  lemma {:induction false} ErasePagesExtendLog(g: Geometry, m: Machine, eraseOk: nat -> bool, address: nat)
    requires g.Valid()
    ensures var log := ErasePages(g, m, eraseOk, address).machine.flash;
      |log| >= |m.flash| && log[..|m.flash|] == m.flash
    decreases APP_END - address
  {
    if address < APP_END && eraseOk(|m.flash|) {
      var m2 := ErasePagesStep(g, m, eraseOk, address);
      ErasePagesExtendLog(g, m2, eraseOk, address + g.erasePagePc);
      var log := ErasePages(g, m, eraseOk, address).machine.flash;
      assert log[..|m.flash|] == log[..|m2.flash|][..|m.flash|];
    }
  }

  lemma LogSuffixCons(old_log: seq<FlashCall>, call: FlashCall, log: seq<FlashCall>)
    requires |log| >= |old_log| + 1 && log[..|old_log| + 1] == old_log + [call]
    ensures log[|old_log|..] == [call] + log[|old_log| + 1..]
  {
    assert log[|old_log|] == (old_log + [call])[|old_log|];
  }

  /** The calls for the pages from `address` on, logged from position `at`. */
  predicate ErasedFrom(address: nat, page: nat, eraseOk: nat -> bool, at: nat, calls: seq<FlashCall>)
  {
    forall k :: 0 <= k < |calls| ==>
      && calls[k] == ErasePage(address + k * page, eraseOk(at + k))
      && address + k * page < APP_END
      && (k < |calls| - 1 ==> calls[k].ok)
  }

  lemma ErasedPagesCons(address: nat, page: nat, eraseOk: nat -> bool, at: nat, rest: seq<FlashCall>)
    requires address < APP_END && eraseOk(at)
    requires ErasedFrom(address + page, page, eraseOk, at + 1, rest)
    ensures ErasedFrom(address, page, eraseOk, at, [ErasePage(address, true)] + rest)
  {
    var calls := [ErasePage(address, true)] + rest;
    forall k | 0 < k < |calls|
      ensures calls[k] == ErasePage(address + k * page, eraseOk(at + k))
      ensures address + k * page < APP_END
    {
      assert calls[k] == rest[k - 1];
      PageOffset(address, page, k);
    }
  }

  lemma PageOffset(address: nat, page: nat, k: nat)
    requires k > 0
    ensures address + k * page == address + page + (k - 1) * page
  {
    assert k * page == page + (k - 1) * page;
  }

  /** The calls the erase loop appends: the pages `address`, `address + page`,
      ... in order, each below `APP_END`, every one but the last successful. */
  lemma {:induction false} ErasePagesCalls(g: Geometry, m: Machine, eraseOk: nat -> bool, address: nat)
    requires g.Valid()
    ensures var log := ErasePages(g, m, eraseOk, address).machine.flash;
      |log| >= |m.flash| && ErasedFrom(address, g.erasePagePc, eraseOk, |m.flash|, log[|m.flash|..])
    decreases APP_END - address
  {
    if address < APP_END && eraseOk(|m.flash|) {
      var m2 := ErasePagesStep(g, m, eraseOk, address);
      var next := address + g.erasePagePc;
      ErasePagesCalls(g, m2, eraseOk, next);
      ErasePagesExtendLog(g, m2, eraseOk, next);
      var log := ErasePages(g, m2, eraseOk, next).machine.flash;
      ErasedFromLog(address, g.erasePagePc, eraseOk, m.flash, log);
      assert ErasePages(g, m, eraseOk, address).machine.flash == log;
    } else if address < APP_END {
      ErasePagesFails(g, m, eraseOk, address);
      AppendedSuffix(m.flash, ErasePage(address, false));
    } else {
      assert ErasePages(g, m, eraseOk, address).machine.flash[|m.flash|..] == [];
    }
  }

  /** A log that goes on from `prior` with a successful erase of `address`
      followed by the calls for the later pages holds the calls from `address` on. */
  lemma ErasedFromLog(address: nat, page: nat, eraseOk: nat -> bool, prior: seq<FlashCall>, log: seq<FlashCall>)
    requires address < APP_END && eraseOk(|prior|)
    requires |log| >= |prior| + 1 && log[..|prior| + 1] == prior + [ErasePage(address, true)]
    requires ErasedFrom(address + page, page, eraseOk, |prior| + 1, log[|prior| + 1..])
    ensures ErasedFrom(address, page, eraseOk, |prior|, log[|prior|..])
  {
    LogSuffixCons(prior, ErasePage(address, true), log);
    ErasedPagesCons(address, page, eraseOk, |prior|, log[|prior| + 1..]);
  }

  /** How the erase loop ends: it fails exactly when its last call failed, and
      when it succeeds it has reached `APP_END`. */
  lemma {:induction false} ErasePagesOutcome(g: Geometry, m: Machine, eraseOk: nat -> bool, address: nat)
    requires g.Valid()
    ensures var e := ErasePages(g, m, eraseOk, address);
      var n := |e.machine.flash| - |m.flash|;
      && (!e.ok <==> n > 0 && !eraseOk(|m.flash| + n - 1))
      && (e.ok ==> address + n * g.erasePagePc >= APP_END)
    decreases APP_END - address
  {
    if address < APP_END && eraseOk(|m.flash|) {
      var m2 := ErasePagesStep(g, m, eraseOk, address);
      var next := address + g.erasePagePc;
      ErasePagesOutcome(g, m2, eraseOk, next);
      ErasePagesExtendLog(g, m2, eraseOk, next);
      var n2 := |ErasePages(g, m2, eraseOk, next).machine.flash| - |m2.flash|;
      assert address + (n2 + 1) * g.erasePagePc == next + n2 * g.erasePagePc;
    }
  }

  /** The erase loop counts the pages it erased successfully. */
  lemma {:induction false} ErasePagesCount(g: Geometry, m: Machine, eraseOk: nat -> bool, address: nat)
    requires g.Valid() && m.pagesErased < U32_MOD
    ensures var e := ErasePages(g, m, eraseOk, address);
      var n := |e.machine.flash| - |m.flash|;
      e.machine.pagesErased == (m.pagesErased + (if e.ok then n else n - 1)) % U32_MOD
    decreases APP_END - address
  {
    if address < APP_END && eraseOk(|m.flash|) {
      var m2 := ErasePagesStep(g, m, eraseOk, address);
      var next := address + g.erasePagePc;
      ErasePagesCount(g, m2, eraseOk, next);
      ErasePagesOutcome(g, m2, eraseOk, next);
      ErasePagesExtendLog(g, m2, eraseOk, next);
      var e := ErasePages(g, m2, eraseOk, next);
      var n2 := |e.machine.flash| - |m2.flash|;
      var counted := if e.ok then n2 else n2 - 1;
      CountStepBy(m.pagesErased, m2.pagesErased, e.machine.pagesErased, counted);
      assert |e.machine.flash| - |m.flash| == n2 + 1;
    }
  }

  /** The erase loop: it erases the pages `address`, `address + page`, ... in
      order, each below `APP_END`, stops at the first page the driver fails,
      reaches `APP_END` when it succeeds, and counts the successful pages. */
  lemma ErasePagesEffect(g: Geometry, m: Machine, eraseOk: nat -> bool, address: nat)
    requires g.Valid() && m.pagesErased < U32_MOD
    ensures var e := ErasePages(g, m, eraseOk, address);
      var log := e.machine.flash;
      && |log| >= |m.flash| && log[..|m.flash|] == m.flash
      && var calls := log[|m.flash|..];
      && (forall k :: 0 <= k < |calls| ==>
            && calls[k] == ErasePage(address + k * g.erasePagePc, eraseOk(|m.flash| + k))
            && address + k * g.erasePagePc < APP_END
            && (k < |calls| - 1 ==> calls[k].ok))
      && (e.ok <==> |calls| == 0 || calls[|calls| - 1].ok)
      && (e.ok ==> address + |calls| * g.erasePagePc >= APP_END)
      && e.machine.pagesErased == (m.pagesErased + (if e.ok then |calls| else |calls| - 1)) % U32_MOD
  {
    ErasePagesExtendLog(g, m, eraseOk, address);
    ErasePagesCalls(g, m, eraseOk, address);
    ErasePagesOutcome(g, m, eraseOk, address);
    ErasePagesCount(g, m, eraseOk, address);
  }

}
