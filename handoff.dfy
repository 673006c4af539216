/** The start-up and hand-off logic of `src/main.c` as functions over the
    engine's state: the reset-vector plausibility check, the entry window's
    period count and polling, the guard of the main loop and the hand-off
    to the application through a reset. */
module Handoff {
  import opened FlashRow
  import opened Persistent
  import opened Engine
  import opened EngineProps
  import opened WriteProps

  /** The application's reset vector, at the start of its area. */
  const APP_RESET_ADDRESS: nat := 0x4000

  const BOOTLOADER_ENTRY_WINDOW_MS: U16 := 15000

  /** Timer 1 overflows about every 30 ms. */
  const TMR1_OVERFLOW_MS: nat := 30

  /** An erased flash word reads back as all 24 bits set. */
  const ERASED_WORD: nat := 0xFF_FFFF

  /** `IsValidApplication`, on the word the driver reads at the reset vector:
      neither erased nor zero. */
  predicate IsValidApplication(resetVector: nat)
  {
    !(resetVector == ERASED_WORD || resetVector == 0)
  }

  /** The period count of `Bootloader_EntryWindow`: the sum is formed in the
      16-bit unsigned arithmetic of the target, then divided. */
  function EntryWindowPeriods(windowMs: U16): U16
  {
    (windowMs + (TMR1_OVERFLOW_MS - 1)) % U16_MOD / TMR1_OVERFLOW_MS
  }

  /** What one pass of a polling loop sees of the USB stack: whether the
      device is configured (its state at least `CONFIGURED_STATE`), whether
      it is suspended, and the bytes the CDC endpoint delivers. */
  datatype Poll = Poll(configured: bool, suspended: bool, received: seq<Byte>)

  /** Commands are processed only on a configured device that is not
      suspended. */
  function ServicePoll(g: Geometry, m: Machine, p: Poll, eraseOk: nat -> bool): (s: Stepped)
    requires g.Valid() && |m.row.slots| == g.rowInstructions
    ensures |s.machine.row.slots| == g.rowInstructions
  {
    if p.configured && !p.suspended then ProcessCommand(g, m, p.received, eraseOk) else Stepped(m, Running)
  }

  /** Where the polls of one timer period leave the engine, and whether the
      window ends there (host activity seen, or a reset). */
  datatype Polled = Polled(machine: Machine, outcome: Outcome, stop: bool)

  /** The inner loop of `Bootloader_EntryWindow` from the `j`-th poll of the
      period on; the period ends when its polls are used up (the timer flag
      is raised). */
  function PollsFrom(g: Geometry, m: Machine, polls: seq<Poll>, j: nat, eraseOk: nat -> bool): (r: Polled)
    requires g.Valid() && |m.row.slots| == g.rowInstructions
    ensures |r.machine.row.slots| == g.rowInstructions
    decreases |polls| - j
  {
    if j >= |polls| then Polled(m, Running, false)
    else
      var s := ServicePoll(g, m, polls[j], eraseOk);
      if s.outcome == Reset then Polled(s.machine, Reset, true)
      else if s.machine.hostActivity then Polled(s.machine, Running, true)
      else PollsFrom(g, s.machine, polls, j + 1, eraseOk)
  }

  /** The polls of period `i`: none when the schedule says nothing of it. */
  function PeriodPolls(schedule: seq<seq<Poll>>, i: nat): seq<Poll>
  {
    if i < |schedule| then schedule[i] else []
  }

  /** The outer loop of `Bootloader_EntryWindow` from period `i` on. */
  function PeriodsFrom(g: Geometry, m: Machine, periods: nat, schedule: seq<seq<Poll>>, i: nat, eraseOk: nat -> bool): (s: Stepped)
    requires g.Valid() && |m.row.slots| == g.rowInstructions
    ensures |s.machine.row.slots| == g.rowInstructions
    decreases periods - i
  {
    if i >= periods then Stepped(m, Running)
    else
      var r := PollsFrom(g, m, PeriodPolls(schedule, i), 0, eraseOk);
      if r.stop then Stepped(r.machine, r.outcome)
      else PeriodsFrom(g, r.machine, periods, schedule, i + 1, eraseOk)
  }

  /** `Bootloader_EntryWindow(windowMs)` when the polls of its periods are
      the ones `schedule` lists. */
  function EntryWindow(g: Geometry, m: Machine, windowMs: U16, schedule: seq<seq<Poll>>, eraseOk: nat -> bool): Stepped
    requires g.Valid() && |m.row.slots| == g.rowInstructions
  {
    PeriodsFrom(g, m, EntryWindowPeriods(windowMs), schedule, 0, eraseOk)
  }

  /** `ResetToApplication` up to its `RESET`: the hand-off magic is stored. */
  function ResetToApplication(m: Machine): Stepped
  {
    Stepped(m.(diag := m.diag.(jumpMagic := JUMP_MAGIC_VALUE)), Reset)
  }

  /** The start of `main`: the vectors go to the bootloader, then the
      engine is initialised and its host activity cleared. */
  function Boot(m: Machine): Machine
  {
    Initialize(m.(diag := m.diag.(vectorToApp := 0))).(hostActivity := false)
  }

  /** One pass of the `while(1)` loop of `main`. */
  function MainPass(g: Geometry, m: Machine, p: Poll, eraseOk: nat -> bool): (s: Stepped)
    requires g.Valid() && |m.row.slots| == g.rowInstructions
    ensures |s.machine.row.slots| == g.rowInstructions
  {
    var s := ServicePoll(g, m, p, eraseOk);
    if s.outcome == Reset then s
    else if s.machine.jumpToApp then ResetToApplication(s.machine)
    else s
  }

  /** The main loop over the polls from the `i`-th on; a reset ends it. */
  function MainLoopFrom(g: Geometry, m: Machine, polls: seq<Poll>, i: nat, eraseOk: nat -> bool): (s: Stepped)
    requires g.Valid() && |m.row.slots| == g.rowInstructions
    ensures |s.machine.row.slots| == g.rowInstructions
    decreases |polls| - i
  {
    if i >= |polls| then Stepped(m, Running)
    else
      var s := MainPass(g, m, polls[i], eraseOk);
      if s.outcome == Reset then s else MainLoopFrom(g, s.machine, polls, i + 1, eraseOk)
  }

  /** The polls served with nothing but the command guard: what the main
      loop does when the jump flag plays no part. */
  function ServeFrom(g: Geometry, m: Machine, polls: seq<Poll>, i: nat, eraseOk: nat -> bool): (s: Stepped)
    requires g.Valid() && |m.row.slots| == g.rowInstructions
    ensures |s.machine.row.slots| == g.rowInstructions
    decreases |polls| - i
  {
    if i >= |polls| then Stepped(m, Running)
    else
      var s := ServicePoll(g, m, polls[i], eraseOk);
      if s.outcome == Reset then s else ServeFrom(g, s.machine, polls, i + 1, eraseOk)
  }

  // ---------------------------------------------------------------------
  // Reset-vector check

  /** After a raw write of the application's first words that the driver
      accepted, the reset-vector check passes exactly when the first
      four-byte group is neither erased nor zero. */
  lemma ValidAfterWritingResetVector(m: Machine, data: seq<Byte>, writeOk: nat -> bool, blank: nat -> nat)
    requires |data| % 4 == 0 && 4 <= |data| < 0x1_0000
    requires WriteFlash(m, APP_RESET_ADDRESS, data, writeOk).ok
    ensures var log := WriteFlash(m, APP_RESET_ADDRESS, data, writeOk).machine.flash;
      var valid := IsValidApplication(LastWordWritten(log, APP_RESET_ADDRESS, blank));
      valid <==> GroupWord(data, 0) != ERASED_WORD && GroupWord(data, 0) != 0
  {
    var log := WriteFlash(m, APP_RESET_ADDRESS, data, writeOk).machine.flash;
    WriteThenVerify(m, APP_RESET_ADDRESS, data, writeOk, blank);
    assert (APP_RESET_ADDRESS + 4 * 0) % U32_MOD == APP_RESET_ADDRESS;
    assert LastWordWritten(log, APP_RESET_ADDRESS, blank) == GroupWord(data, 0);
  }

  // ---------------------------------------------------------------------
  // Entry window

  /** Up to 65506 ms the window is `windowMs / 30` rounded up: 15000 ms give
      500 periods. */
  lemma EntryWindowRoundsUp(windowMs: U16)
    requires windowMs <= U16_MOD - TMR1_OVERFLOW_MS
    ensures var p := EntryWindowPeriods(windowMs);
      TMR1_OVERFLOW_MS * p - TMR1_OVERFLOW_MS < windowMs <= TMR1_OVERFLOW_MS * p
    ensures EntryWindowPeriods(BOOTLOADER_ENTRY_WINDOW_MS) == 500
  {
  }

  /** Above 65506 ms the 16-bit sum wraps and the window has no period. */
  lemma EntryWindowWraps(windowMs: U16)
    requires windowMs > U16_MOD - TMR1_OVERFLOW_MS
    ensures EntryWindowPeriods(windowMs) == 0
  {
  }

  /** Polls that deliver nothing leave the engine as it was. */
  lemma {:induction false} QuietPollsChangeNothing(g: Geometry, m: Machine, polls: seq<Poll>, j: nat, eraseOk: nat -> bool)
    requires g.Valid() && |m.row.slots| == g.rowInstructions && !m.hostActivity
    requires forall k :: 0 <= k < |polls| ==> polls[k].received == []
    ensures PollsFrom(g, m, polls, j, eraseOk) == Polled(m, Running, false)
    decreases |polls| - j
  {
    if j < |polls| {
      QuietPollsChangeNothing(g, m, polls, j + 1, eraseOk);
    }
  }

  /** A window in which the host sends nothing runs all its periods and
      returns with the engine as it was. */
  lemma {:induction false} QuietWindowTimesOut(g: Geometry, m: Machine, periods: nat, schedule: seq<seq<Poll>>, i: nat, eraseOk: nat -> bool)
    requires g.Valid() && |m.row.slots| == g.rowInstructions && !m.hostActivity
    requires forall n, k :: 0 <= n < |schedule| && 0 <= k < |schedule[n]| ==> schedule[n][k].received == []
    ensures PeriodsFrom(g, m, periods, schedule, i, eraseOk) == Stepped(m, Running)
    decreases periods - i
  {
    if i < periods {
      var polls := PeriodPolls(schedule, i);
      QuietPollsChangeNothing(g, m, polls, 0, eraseOk);
      QuietWindowTimesOut(g, m, periods, schedule, i + 1, eraseOk);
    }
  }

  /** The window ends with the first poll that brings bytes from the host:
      what that poll did is what the window did. */
  lemma {:induction false} FirstTrafficEndsPeriod(g: Geometry, m: Machine, polls: seq<Poll>, j: nat, eraseOk: nat -> bool)
    requires g.Valid() && |m.row.slots| == g.rowInstructions && !m.hostActivity
    requires j < |polls| && polls[j].configured && !polls[j].suspended && polls[j].received != []
    requires forall k :: 0 <= k < j ==> polls[k].received == []
    ensures PollsFrom(g, m, polls, 0, eraseOk) == var s := ProcessCommand(g, m, polls[j].received, eraseOk);
      Polled(s.machine, s.outcome, true)
    decreases j
  {
    if j == 0 {
      ProcessCommandSetsHostActivity(g, m, polls[0].received, eraseOk);
    } else {
      var rest := polls[1..];
      forall k | 0 <= k < j - 1
        ensures rest[k].received == []
      {
        assert rest[k] == polls[k + 1];
      }
      FirstTrafficEndsPeriod(g, m, rest, j - 1, eraseOk);
      PollsFromShift(g, m, polls, eraseOk);
    }
  }

  /** A first poll that delivers nothing and leaves no activity behind is
      skipped. */
  lemma PollsFromShift(g: Geometry, m: Machine, polls: seq<Poll>, eraseOk: nat -> bool)
    requires g.Valid() && |m.row.slots| == g.rowInstructions && !m.hostActivity
    requires |polls| > 0 && polls[0].received == []
    ensures PollsFrom(g, m, polls, 0, eraseOk) == PollsFrom(g, m, polls[1..], 0, eraseOk)
  {
    PollsFromSuffix(g, m, polls, 1, eraseOk);
  }

  /** The inner loop from poll `j` on depends only on the polls from `j` on. */
  lemma {:induction false} PollsFromSuffix(g: Geometry, m: Machine, polls: seq<Poll>, j: nat, eraseOk: nat -> bool)
    requires g.Valid() && |m.row.slots| == g.rowInstructions && j <= |polls|
    ensures PollsFrom(g, m, polls, j, eraseOk) == PollsFrom(g, m, polls[j..], 0, eraseOk)
    decreases |polls| - j
  {
    if j < |polls| {
      var s := ServicePoll(g, m, polls[j], eraseOk);
      if s.outcome != Reset && !s.machine.hostActivity {
        PollsFromSuffix(g, s.machine, polls, j + 1, eraseOk);
        PollsFromSuffix(g, s.machine, polls[j..], 1, eraseOk);
        assert polls[j..][1..] == polls[j + 1..];
      }
    }
  }

  // ---------------------------------------------------------------------
  // Main loop

  /** `main` leaves the engine in its invariant, idle, with no host activity
      recorded and the vectors given to the bootloader. */
  lemma BootEstablishesInv(g: Geometry, m: Machine)
    requires g.Valid() && |m.row.slots| == g.rowInstructions && SafeLog(g, m.flash)
    ensures var b := Boot(m);
      && Inv(g, b) && b.state == Idle && !b.hostActivity && b.rx == []
      && b.diag == m.diag.(vectorToApp := 0) && b.flash == m.flash && b.replies == m.replies
  {
    InitializeEstablishesInv(g, m.(diag := m.diag.(vectorToApp := 0)));
  }

  /** Since the engine never raises its jump flag, the main loop never takes
      its `ResetToApplication` branch: it serves the polls and nothing else,
      and every reset it ends in comes from a command. */
  lemma {:induction false} MainLoopNeverHandsOffByFlag(g: Geometry, m: Machine, polls: seq<Poll>, i: nat, eraseOk: nat -> bool)
    requires g.Valid() && Inv(g, m)
    ensures MainLoopFrom(g, m, polls, i, eraseOk) == ServeFrom(g, m, polls, i, eraseOk)
    ensures Inv(g, MainLoopFrom(g, m, polls, i, eraseOk).machine)
    decreases |polls| - i
  {
    if i < |polls| {
      var p := polls[i];
      if p.configured && !p.suspended {
        ProcessCommandKeepsInv(g, m, p.received, eraseOk);
      }
      var s := ServicePoll(g, m, p, eraseOk);
      if s.outcome != Reset {
        MainLoopNeverHandsOffByFlag(g, s.machine, polls, i + 1, eraseOk);
      }
    }
  }

  /** A pass on a device that is not configured, or is suspended, changes
      nothing; on a configured one that is awake it is one
      `Bootloader_ProcessCommand`. */
  lemma MainPassGuard(g: Geometry, m: Machine, p: Poll, eraseOk: nat -> bool)
    requires g.Valid() && Inv(g, m)
    ensures !p.configured || p.suspended ==> MainPass(g, m, p, eraseOk) == Stepped(m, Running)
    ensures p.configured && !p.suspended ==> MainPass(g, m, p, eraseOk) == ProcessCommand(g, m, p.received, eraseOk)
  {
    if p.configured && !p.suspended {
      ProcessCommandKeepsInv(g, m, p.received, eraseOk);
    }
  }
}
