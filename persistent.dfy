/** The persistent RAM words shared by the bootloader, its reset stub and the
    application (`.bl_persist` and `.app_persist`). They are not cleared by a
    reset, so their contents at power-on are whatever they were before. */
module Persistent {

  /** A `volatile uint16_t`. */
  type U16 = x: int | 0 <= x < 0x1_0000

  const U16_MOD: nat := 0x1_0000

  /** The words the bootloader and `main` read or write, as one value. */
  datatype Diag = Diag(
    jumpMagic: U16,          // blJumpMagic
    jumpAttempted: U16,      // blJumpAttempted
    jumpReturnCount: U16,    // blJumpReturnCount
    lastRcon: U16,           // blLastRcon
    sawResetStubMagic: U16,  // blSawResetStubMagic
    stubToAppCount: U16,     // blStubToAppCount
    vectorToApp: U16,        // blVectorToApp
    lastCmd: U16,            // blLastCmd
    cmdCount: U16,           // blCmdCount
    appTrapCode: U16,        // appTrapCode
    appStage: U16,           // appStage
    appLastRcon: U16)        // appLastRcon

  /** The region itself: the words are updated in place by the bootloader. */
  class PersistentRegion {
    var jumpMagic: U16
    var jumpAttempted: U16
    var jumpReturnCount: U16
    var lastRcon: U16
    var sawResetStubMagic: U16
    var stubToAppCount: U16
    var vectorToApp: U16
    var lastCmd: U16
    var cmdCount: U16
    var appTrapCode: U16
    var appStage: U16
    var appLastRcon: U16

    function Snapshot(): Diag
      reads this
    {
      Diag(jumpMagic, jumpAttempted, jumpReturnCount, lastRcon, sawResetStubMagic, stubToAppCount,
           vectorToApp, lastCmd, cmdCount, appTrapCode, appStage, appLastRcon)
    }

    /** The region as found at power-on: any contents at all. */
    constructor (initial: Diag)
      ensures Snapshot() == initial
    {
      jumpMagic := initial.jumpMagic;
      jumpAttempted := initial.jumpAttempted;
      jumpReturnCount := initial.jumpReturnCount;
      lastRcon := initial.lastRcon;
      sawResetStubMagic := initial.sawResetStubMagic;
      stubToAppCount := initial.stubToAppCount;
      vectorToApp := initial.vectorToApp;
      lastCmd := initial.lastCmd;
      cmdCount := initial.cmdCount;
      appTrapCode := initial.appTrapCode;
      appStage := initial.appStage;
      appLastRcon := initial.appLastRcon;
    }
  }
}
