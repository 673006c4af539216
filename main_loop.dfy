/** `src/main.c` over the bootloader object: start-up, the entry window's
    nested polling loops, the main loop and the hand-off, each proved to do
    what the function of the same name in `Handoff` says. */
module MainLoop {
  import opened Persistent
  import opened Engine
  import opened Handoff
  import B = Bootloader

  /** `ResetToApplication`, up to its `RESET`. */
  method ResetToApplication(bl: B.Bootloader) returns (outcome: Outcome)
    requires bl.Valid()
    modifies bl.persist
    ensures bl.Valid() && Stepped(bl.Abs(), outcome) == Handoff.ResetToApplication(old(bl.Abs()))
  {
    bl.persist.jumpMagic := JUMP_MAGIC_VALUE;
    outcome := Reset;
  }

  /** The start of `main` up to its loop (the pin, clock and USB set-up is
      not modelled). */
  method Boot(bl: B.Bootloader)
    requires bl.Valid()
    modifies bl, bl.persist
    ensures bl.Valid() && bl.Abs() == Handoff.Boot(old(bl.Abs()))
  {
    bl.persist.vectorToApp := 0;
    bl.Initialize();
    bl.ClearHostActivity();
  }

  /** One pass of the polling loops: `Bootloader_ProcessCommand` only on a
      configured device that is not suspended. */
  method ServicePoll(bl: B.Bootloader, p: Poll, eraseOk: nat -> bool) returns (outcome: Outcome)
    requires bl.Valid()
    modifies bl, bl.rxBuffer, bl.flashBuffer, bl.persist
    ensures bl.Valid() && Stepped(bl.Abs(), outcome) == Handoff.ServicePoll(bl.geo, old(bl.Abs()), p, eraseOk)
  {
    outcome := Running;
    if p.configured && !p.suspended {
      outcome := bl.ProcessCommand(p.received, eraseOk);
    }
  }

  /** The inner loop of `Bootloader_EntryWindow`: poll until the timer flag
      is raised (the period's polls are used up), returning early on host
      activity. */
  method PollPeriod(bl: B.Bootloader, polls: seq<Poll>, eraseOk: nat -> bool) returns (outcome: Outcome, stop: bool)
    requires bl.Valid()
    modifies bl, bl.rxBuffer, bl.flashBuffer, bl.persist
    ensures bl.Valid() && Polled(bl.Abs(), outcome, stop) == PollsFrom(bl.geo, old(bl.Abs()), polls, 0, eraseOk)
  {
    ghost var start := bl.Abs();
    var j := 0;
    while j < |polls|
      invariant bl.Valid() && j <= |polls|
      invariant PollsFrom(bl.geo, bl.Abs(), polls, j, eraseOk) == PollsFrom(bl.geo, start, polls, 0, eraseOk)
      decreases |polls| - j
    {
      outcome := ServicePoll(bl, polls[j], eraseOk);
      if outcome == Reset {
        return Reset, true;
      }
      var active := bl.HadHostActivity();
      if active {
        return Running, true;
      }
      j := j + 1;
    }
    return Running, false;
  }

  /** `Bootloader_EntryWindow(windowMs)`. */
  method EntryWindow(bl: B.Bootloader, windowMs: U16, schedule: seq<seq<Poll>>, eraseOk: nat -> bool) returns (outcome: Outcome)
    requires bl.Valid()
    modifies bl, bl.rxBuffer, bl.flashBuffer, bl.persist
    ensures bl.Valid() && Stepped(bl.Abs(), outcome) == Handoff.EntryWindow(bl.geo, old(bl.Abs()), windowMs, schedule, eraseOk)
  {
    var periods := (windowMs + (TMR1_OVERFLOW_MS - 1)) % U16_MOD / TMR1_OVERFLOW_MS;
    ghost var start := bl.Abs();
    var i := 0;
    while i < periods
      invariant bl.Valid() && i <= periods
      invariant PeriodsFrom(bl.geo, bl.Abs(), periods, schedule, i, eraseOk) == PeriodsFrom(bl.geo, start, periods, schedule, 0, eraseOk)
      decreases periods - i
    {
      var stop;
      outcome, stop := PollPeriod(bl, PeriodPolls(schedule, i), eraseOk);
      if stop {
        return;
      }
      i := i + 1;
    }
    return Running;
  }

  /** One pass of the `while(1)` loop of `main`. */
  method MainPass(bl: B.Bootloader, p: Poll, eraseOk: nat -> bool) returns (outcome: Outcome)
    requires bl.Valid()
    modifies bl, bl.rxBuffer, bl.flashBuffer, bl.persist
    ensures bl.Valid() && Stepped(bl.Abs(), outcome) == Handoff.MainPass(bl.geo, old(bl.Abs()), p, eraseOk)
  {
    outcome := ServicePoll(bl, p, eraseOk);
    if outcome == Reset {
      return;
    }
    var jump := bl.ShouldJumpToApp();
    if jump {
      outcome := ResetToApplication(bl);
    }
  }

  /** `main`: start-up, then the loop over as many polls as `polls` lists;
      a reset ends it. */
  method Run(bl: B.Bootloader, polls: seq<Poll>, eraseOk: nat -> bool) returns (outcome: Outcome)
    requires bl.Valid()
    modifies bl, bl.rxBuffer, bl.flashBuffer, bl.persist
    ensures bl.Valid() && Stepped(bl.Abs(), outcome) == MainLoopFrom(bl.geo, Handoff.Boot(old(bl.Abs())), polls, 0, eraseOk)
  {
    Boot(bl);
    ghost var booted := bl.Abs();
    var i := 0;
    while i < |polls|
      invariant bl.Valid() && i <= |polls|
      invariant MainLoopFrom(bl.geo, bl.Abs(), polls, i, eraseOk) == MainLoopFrom(bl.geo, booted, polls, 0, eraseOk)
      decreases |polls| - i
    {
      outcome := MainPass(bl, polls[i], eraseOk);
      if outcome == Reset {
        return;
      }
      i := i + 1;
    }
    return Running;
  }
}
