/** The one-row write buffer between the record decoder and the flash driver:
    program words are collected into an aligned row, which is handed to the
    driver in one row write when a word for another row arrives or when the
    buffer is flushed, and only when the row lies in the application area. */
module FlashRow {

  /** First and last program-counter address the bootloader may program. */
  const APP_START: nat := 0x4000
  const APP_END: nat := 0xABFE

  /** `flashBufferAddress` while no row is buffered. */
  const SENTINEL: nat := 0xFFFF_FFFF

  /** Value of a slot nothing was written to: an erased 24-bit program word. */
  const FILL: nat := 0x00FF_FFFF

  /** Arithmetic of 32-bit unsigned C variables. */
  const U32_MOD: nat := 0x1_0000_0000

  function Pow2(e: nat): nat
  {
    if e == 0 then 1 else 2 * Pow2(e - 1)
  }

  predicate IsPowerOfTwo(n: nat)
  {
    exists e: nat :: e < 32 && Pow2(e) == n
  }

  /** Sizes fixed by the device's flash driver header, which is not part of this
      model: a row of `rowInstructions` program words spans twice as many
      program-counter units, and an erase page spans `erasePagePc` units. */
  datatype Geometry = Geometry(rowInstructions: nat, erasePagePc: nat)
  {
    function RowPc(): nat { 2 * rowInstructions }

    predicate Valid()
    {
      0 < rowInstructions < 0x1_0000 && IsPowerOfTwo(RowPc()) && 0 < erasePagePc < 0x1_0000
    }
  }

  /** `IsAddressInAppArea`: the inclusive range `[APP_START, APP_END]`. */
  predicate InAppArea(address: int)
  {
    APP_START <= address <= APP_END
  }

  lemma MulAtLeast(m: int, k: int)
    requires m > 0 && k >= 1
    ensures m * k >= m
  {
  }

  lemma MulAtMost(m: int, k: int)
    requires m > 0 && k <= -1
    ensures m * k <= -m
  {
  }

  /** Quotient and remainder are the only such pair. */
  lemma DivModUnique(x: int, m: int, a: int, b: int)
    requires m > 0 && x == m * a + b && 0 <= b < m
    ensures x % m == b && x / m == a
  {
    var k := a - x / m;
    assert m * k == x % m - b;
    if k >= 1 {
      MulAtLeast(m, k);
    } else if k <= -1 {
      MulAtMost(m, k);
    }
  }

  /** `wordAddr & ~(ROW_PC - 1)`: for a power-of-two row size, the largest
      multiple of the row size not above `wordAddr`. */
  function RowBase(g: Geometry, wordAddr: nat): (base: nat)
    requires g.Valid()
    ensures base % g.RowPc() == 0 && base <= wordAddr < base + g.RowPc()
  {
    var m := g.RowPc();
    DivModUnique(wordAddr / m * m, m, wordAddr / m, 0);
    wordAddr / m * m
  }

  /** Row bases are even, so never the (odd) sentinel. */
  lemma EvenRowBase(g: Geometry, wordAddr: nat)
    requires g.Valid()
    ensures RowBase(g, wordAddr) % 2 == 0
  {
    var m := g.RowPc();
    var q := wordAddr / m;
    assert RowBase(g, wordAddr) == 2 * (g.rowInstructions * q);
  }

  /** What the bootloader hands to the (abstract) flash driver. */
  datatype FlashCall =
    | ErasePage(address: nat, ok: bool)
    | WriteRow(base: nat, words: seq<nat>)
    | WriteWord(address: nat, word: nat, ok: bool)

  /** `flashBufferAddress`, `flashBuffer` and `flashBufferIndex`. */
  datatype Row = Row(base: nat, slots: seq<nat>, index: nat)

  /** A row holds words not yet handed to the driver. */
  predicate Pending(r: Row)
  {
    r.index > 0 && r.base != SENTINEL
  }

  /** The buffer's invariant: the right size, the base aligned or the sentinel,
      the high-water index within the row, and every slot at or above it still
      holding the fill value while a row is open. */
  predicate RowInvariant(g: Geometry, r: Row)
    requires g.Valid()
  {
    && |r.slots| == g.rowInstructions
    && r.index <= |r.slots|
    && (r.base == SENTINEL || r.base % g.RowPc() == 0)
    && (r.base != SENTINEL ==> forall k :: r.index <= k < |r.slots| ==> r.slots[k] == FILL)
  }

  function Fill(n: nat): (s: seq<nat>)
    ensures |s| == n && forall k :: 0 <= k < n ==> s[k] == FILL
  {
    seq(n, k => FILL)
  }

  /** The slots below `index` kept, every other slot set to the fill value. */
  function Padded(slots: seq<nat>, index: nat): (p: seq<nat>)
    ensures |p| == |slots|
  {
    seq(|slots|, k requires 0 <= k < |slots| => if k < index then slots[k] else FILL)
  }

  datatype RowStep = RowStep(row: Row, calls: seq<FlashCall>, stored: bool)

  /** `FlushFlashBuffer`. */
  function FlushRow(r: Row): RowStep
  {
    if Pending(r) then
      var p := Padded(r.slots, r.index);
      RowStep(Row(SENTINEL, p, 0), if InAppArea(r.base) then [WriteRow(r.base, p)] else [], false)
    else RowStep(r, [], false)
  }

  /** The part of `Bootloader_ParseHexLine` that places one program word: flush
      and reopen when the word belongs to another row, then store it at its
      offset and raise the high-water index if needed. */
  function StoreRow(g: Geometry, r: Row, wordAddr: nat, value: nat): RowStep
    requires g.Valid() && |r.slots| == g.rowInstructions
  {
    var rowAddress := RowBase(g, wordAddr);
    var calls := if r.base != rowAddress then FlushRow(r).calls else [];
    var open := if r.base != rowAddress then Row(rowAddress, Fill(g.rowInstructions), 0) else r;
    var rowIndex := (wordAddr - rowAddress) / 2;
    if rowIndex < |open.slots| then
      RowStep(Row(open.base, open.slots[rowIndex := value], if rowIndex >= open.index then rowIndex + 1 else open.index), calls, true)
    else RowStep(open, calls, false)
  }

  /** A flush issues one row write exactly when a row is pending and its base is
      in the application area; the row written keeps the words below the
      high-water index and pads the rest; afterwards nothing is pending. */
  lemma FlushEffect(r: Row)
    ensures var f := FlushRow(r);
      && !Pending(f.row)
      && (|f.calls| == 1 <==> Pending(r) && InAppArea(r.base))
      && (|f.calls| != 1 ==> f.calls == [])
      && (f.calls != [] ==> f.calls[0] == WriteRow(r.base, Padded(r.slots, r.index)))
      && (!Pending(r) ==> f.row == r)
  {
  }

  /** A second flush does nothing. */
  lemma FlushIdempotent(r: Row)
    ensures FlushRow(FlushRow(r).row) == RowStep(FlushRow(r).row, [], false)
  {
  }

  /** Under the invariant, padding changes nothing: the row written is the
      buffer as it stands. */
  lemma PaddedIsSlots(g: Geometry, r: Row)
    requires g.Valid() && RowInvariant(g, r) && r.base != SENTINEL
    ensures Padded(r.slots, r.index) == r.slots
  {
  }

  /** The computed slot always lies inside the row, so the bound check never
      drops a word. */
  lemma StoreAlwaysStores(g: Geometry, r: Row, wordAddr: nat, value: nat)
    requires g.Valid() && |r.slots| == g.rowInstructions
    ensures StoreRow(g, r, wordAddr, value).stored
  {
    var base := RowBase(g, wordAddr);
    assert wordAddr - base < 2 * g.rowInstructions;
    assert (wordAddr - base) / 2 < g.rowInstructions;
  }

  /** The computed slot always lies inside the row, so every word is stored; it
      lands in the row that contains its address, at its offset there, and the
      other slots keep what they held (or the fill value, for a new row). */
  lemma StorePlacesWord(g: Geometry, r: Row, wordAddr: nat, value: nat)
    requires g.Valid() && RowInvariant(g, r)
    ensures var s := StoreRow(g, r, wordAddr, value);
      && s.stored
      && s.row.base == RowBase(g, wordAddr)
      && (wordAddr - s.row.base) / 2 < s.row.index <= |s.row.slots|
      && s.row.slots == (if r.base == s.row.base then r.slots else Fill(g.rowInstructions))[(wordAddr - s.row.base) / 2 := value]
  {
    var base := RowBase(g, wordAddr);
    assert wordAddr - base < 2 * g.rowInstructions;
    assert (wordAddr - base) / 2 < g.rowInstructions;
  }

  /** Within one row the high-water index only grows, so words may arrive in any
      order without losing the neighbours already stored. */
  lemma StoreSameRowKeepsNeighbours(g: Geometry, r: Row, wordAddr: nat, value: nat)
    requires g.Valid() && RowInvariant(g, r) && r.base == RowBase(g, wordAddr)
    ensures var s := StoreRow(g, r, wordAddr, value);
      && s.calls == []
      && s.row.index >= r.index
      && forall k :: 0 <= k < |r.slots| && k != (wordAddr - r.base) / 2 ==> s.row.slots[k] == r.slots[k]
  {
  }

  /** A word for another row first flushes the pending row: one row write of the
      buffer as it stood when that row is in the application area, none
      otherwise. */
  lemma StoreNewRowFlushesOnce(g: Geometry, r: Row, wordAddr: nat, value: nat)
    requires g.Valid() && RowInvariant(g, r) && r.base != RowBase(g, wordAddr)
    ensures var s := StoreRow(g, r, wordAddr, value);
      s.calls == if Pending(r) && InAppArea(r.base) then [WriteRow(r.base, r.slots)] else []
  {
    if Pending(r) {
      PaddedIsSlots(g, r);
    }
  }

  /** Storing a word keeps the buffer's invariant. */
  lemma StoreKeepsInvariant(g: Geometry, r: Row, wordAddr: nat, value: nat)
    requires g.Valid() && RowInvariant(g, r)
    ensures RowInvariant(g, StoreRow(g, r, wordAddr, value).row)
  {
    var s := StoreRow(g, r, wordAddr, value);
    StorePlacesWord(g, r, wordAddr, value);
    var rowIndex := (wordAddr - s.row.base) / 2;
    assert s.row.base != SENTINEL by {
      EvenRowBase(g, wordAddr);
    }
    forall k | s.row.index <= k < |s.row.slots|
      ensures s.row.slots[k] == FILL
    {
      assert k != rowIndex;
    }
  }

  /** Flushing keeps the buffer's invariant. */
  lemma FlushKeepsInvariant(g: Geometry, r: Row)
    requires g.Valid() && RowInvariant(g, r)
    ensures RowInvariant(g, FlushRow(r).row)
  {
  }

  /** Every row write a flush or a store issues targets the application area and
      carries one full row. */
  lemma RowCallsInAppArea(g: Geometry, r: Row, wordAddr: nat, value: nat)
    requires g.Valid() && |r.slots| == g.rowInstructions
    ensures forall c :: c in FlushRow(r).calls ==> c.WriteRow? && InAppArea(c.base) && |c.words| == g.rowInstructions
    ensures forall c :: c in StoreRow(g, r, wordAddr, value).calls ==> c.WriteRow? && InAppArea(c.base) && |c.words| == g.rowInstructions
  {
  }
}
