/** Where the words of a Data record end up: every complete four-byte group
    yields the little-endian word of its first three bytes at program address
    `pc + i / 2`, and that word is either still in the row buffer at its slot
    or was handed to the driver in a row write at that slot. */
module PlacementProps {
  import opened HexRecord
  import opened FlashRow
  import opened Engine

  /** The driver call `c` is a row write of the row at `b` carrying `word`
      at slot `s`. */
  predicate RowWriteHolds(c: FlashCall, b: nat, s: nat, word: nat)
  {
    c.WriteRow? && c.base == b && s < |c.words| && c.words[s] == word
  }

  /** The word `word` for program address `w` is accounted for in `m`: it
      sits at its slot of the open row (below the high-water index), or a row
      write appended to the log after position `log0` carries it at that
      slot, or its row lies outside the application area (the code then
      drops the row when it is flushed). */
  ghost predicate Placed(g: Geometry, log0: nat, m: Machine, w: nat, word: nat)
    requires g.Valid()
  {
    var b := RowBase(g, w);
    var s := (w - b) / 2;
    || (m.row.base == b && s < m.row.index && s < |m.row.slots| && m.row.slots[s] == word)
    || (exists j :: log0 <= j < |m.flash| && RowWriteHolds(m.flash[j], b, s, word))
    || !InAppArea(b)
  }

  /** Two addresses of the same parity in one row have distinct slots. */
  lemma DistinctSlots(b: nat, w: nat, w2: nat)
    requires b <= w && b <= w2 && w != w2 && w % 2 == w2 % 2
    ensures (w - b) / 2 != (w2 - b) / 2
  {
  }

  /** Group offsets are multiples of four, so the word addresses they give
      keep the parity of `pc` and grow by two per group. */
  lemma GroupOffset(pc: nat, i: nat)
    requires i % 4 == 0
    ensures (pc + i / 2) % 2 == pc % 2 && (i + 4) / 2 == i / 2 + 2 && (i + 4) % 4 == 0
  {
    var q := i / 4;
    assert i == 4 * q;
    assert i / 2 == 2 * q;
  }

  /** The next group offset does not pass a later group's offset. */
  lemma NextGroup(i: nat, k: nat)
    requires i % 4 == 0 && i < 4 * k
    ensures i + 4 <= 4 * k
  {
    var q := i / 4;
    assert i == 4 * q;
  }

  /** Group `k` starts at byte offset `4k` and at word offset `2k`. */
  lemma GroupStart(i: nat, k: nat)
    requires i == 4 * k
    ensures i / 2 == 2 * k
  {
  }

  /** Storing a word at another address of the same parity keeps every word
      already accounted for. */
  lemma StoreKeepsPlaced(g: Geometry, log0: nat, m: Machine, w: nat, word: nat, w2: nat, word2: nat)
    requires g.Valid() && RowInvariant(g, m.row) && log0 <= |m.flash|
    requires Placed(g, log0, m, w, word) && w2 != w && w2 % 2 == w % 2
    ensures Placed(g, log0, StoreInstruction(g, m, w2, word2), w, word)
  {
    var m1 := StoreInstruction(g, m, w2, word2);
    var b, s := RowBase(g, w), (w - RowBase(g, w)) / 2;
    assert m1.flash[..|m.flash|] == m.flash;
    if exists j :: log0 <= j < |m.flash| && RowWriteHolds(m.flash[j], b, s, word) {
      var j :| log0 <= j < |m.flash| && RowWriteHolds(m.flash[j], b, s, word);
      assert m1.flash[j] == m.flash[j];
    } else if m.row.base == b && s < m.row.index && s < |m.row.slots| && m.row.slots[s] == word {
      if RowBase(g, w2) == b {
        StoreSameRowKeepsNeighbours(g, m.row, w2, word2);
        DistinctSlots(b, w, w2);
      } else {
        StoreNewRowFlushesOnce(g, m.row, w2, word2);
        EvenRowBase(g, w);
        if InAppArea(b) {
          assert m1.flash[|m.flash|] == WriteRow(b, m.row.slots);
          assert RowWriteHolds(m1.flash[|m.flash|], b, s, word);
        }
      }
    }
  }

  /** A store accounts for the word it stores and keeps the row well formed. */
  lemma StorePlacesOwn(g: Geometry, log0: nat, m: Machine, w: nat, word: nat)
    requires g.Valid() && RowInvariant(g, m.row) && log0 <= |m.flash|
    ensures var m1 := StoreInstruction(g, m, w, word);
      RowInvariant(g, m1.row) && Placed(g, log0, m1, w, word)
  {
    StorePlacesWord(g, m.row, w, word);
    StoreKeepsInvariant(g, m.row, w, word);
  }

  /** One turn of the group loop on a complete group. */
  lemma GroupsStep(g: Geometry, m: Machine, data: seq<nat>, pc: nat, i: nat)
    requires g.Valid() && |m.row.slots| == g.rowInstructions
    requires forall k :: 0 <= k < |data| ==> data[k] < 256
    requires i + 3 < |data|
    ensures var m1 := StoreInstruction(g, m, pc + i / 2, InstructionWord(data[i], data[i + 1], data[i + 2]));
      && |m1.row.slots| == g.rowInstructions
      && GroupsFrom(g, m, data, pc, i) == GroupsFrom(g, m1, data, pc, i + 4)
  {
    StoreCounts(g, m, pc + i / 2, InstructionWord(data[i], data[i + 1], data[i + 2]));
  }

  /** The group loop past the last complete group changes nothing. */
  lemma GroupsDone(g: Geometry, m: Machine, data: seq<nat>, pc: nat, i: nat)
    requires g.Valid() && |m.row.slots| == g.rowInstructions
    requires forall k :: 0 <= k < |data| ==> data[k] < 256
    requires i + 3 >= |data|
    ensures GroupsFrom(g, m, data, pc, i) == m
  {
    if i < |data| {
      assert GroupsFrom(g, m, data, pc, i) == GroupsFrom(g, m, data, pc, i + 4);
    }
  }

  /** One turn of the group loop keeps the row well formed and a word
      accounted for before it; `m1` is the machine after the turn. */
  lemma KeepStep(g: Geometry, log0: nat, m: Machine, data: seq<nat>, pc: nat, i: nat, w: nat, word: nat)
    returns (m1: Machine)
    requires g.Valid() && RowInvariant(g, m.row) && log0 <= |m.flash|
    requires forall k :: 0 <= k < |data| ==> data[k] < 256
    requires i % 4 == 0 && w % 2 == pc % 2 && w < pc + i / 2 && i + 3 < |data|
    requires Placed(g, log0, m, w, word)
    ensures RowInvariant(g, m1.row) && log0 <= |m1.flash| && Placed(g, log0, m1, w, word)
    ensures (i + 4) % 4 == 0 && w < pc + (i + 4) / 2
    ensures GroupsFrom(g, m, data, pc, i) == GroupsFrom(g, m1, data, pc, i + 4)
  {
    var word2 := InstructionWord(data[i], data[i + 1], data[i + 2]);
    m1 := StoreInstruction(g, m, pc + i / 2, word2);
    GroupsStep(g, m, data, pc, i);
    GroupOffset(pc, i);
    StoreKeepsPlaced(g, log0, m, w, word, pc + i / 2, word2);
    StoreKeepsInvariant(g, m.row, pc + i / 2, word2);
  }

  /** The group loop from offset `i` on never loses a word accounted for
      before it, at an address below the ones it stores to. */
  lemma {:induction false} GroupsKeepPlaced(g: Geometry, log0: nat, m: Machine, data: seq<nat>, pc: nat, i: nat, w: nat, word: nat)
    requires g.Valid() && RowInvariant(g, m.row) && log0 <= |m.flash|
    requires forall k :: 0 <= k < |data| ==> data[k] < 256
    requires i % 4 == 0 && w % 2 == pc % 2 && w < pc + i / 2
    requires Placed(g, log0, m, w, word)
    ensures Placed(g, log0, GroupsFrom(g, m, data, pc, i), w, word)
    decreases |data| - i
  {
    if i + 3 < |data| {
      var m1 := KeepStep(g, log0, m, data, pc, i, w, word);
      GroupsKeepPlaced(g, log0, m1, data, pc, i + 4, w, word);
    } else {
      GroupsDone(g, m, data, pc, i);
    }
  }

  /** One turn of the group loop before group `k` keeps the row well formed;
      `m1` is the machine after the turn. */
  lemma PlaceStep(g: Geometry, log0: nat, m: Machine, data: seq<nat>, pc: nat, i: nat, k: nat)
    returns (m1: Machine)
    requires g.Valid() && RowInvariant(g, m.row) && log0 <= |m.flash|
    requires forall n :: 0 <= n < |data| ==> data[n] < 256
    requires i % 4 == 0 && i < 4 * k && 4 * k + 3 < |data|
    ensures RowInvariant(g, m1.row) && log0 <= |m1.flash|
    ensures (i + 4) % 4 == 0 && i + 4 <= 4 * k
    ensures GroupsFrom(g, m, data, pc, i) == GroupsFrom(g, m1, data, pc, i + 4)
  {
    var word := InstructionWord(data[i], data[i + 1], data[i + 2]);
    m1 := StoreInstruction(g, m, pc + i / 2, word);
    GroupsStep(g, m, data, pc, i);
    GroupOffset(pc, i);
    StoreKeepsInvariant(g, m.row, pc + i / 2, word);
    NextGroup(i, k);
  }

  /** The turn of the group loop that stores the group at offset `i`
      accounts for its word; `m1` is the machine after the turn. */
  lemma HereStep(g: Geometry, log0: nat, m: Machine, data: seq<nat>, pc: nat, i: nat)
    returns (m1: Machine)
    requires g.Valid() && RowInvariant(g, m.row) && log0 <= |m.flash|
    requires forall n :: 0 <= n < |data| ==> data[n] < 256
    requires i % 4 == 0 && i + 3 < |data|
    ensures RowInvariant(g, m1.row) && log0 <= |m1.flash|
    ensures Placed(g, log0, m1, pc + i / 2, InstructionWord(data[i], data[i + 1], data[i + 2]))
    ensures (i + 4) % 4 == 0 && (pc + i / 2) % 2 == pc % 2 && pc + i / 2 < pc + (i + 4) / 2
    ensures GroupsFrom(g, m, data, pc, i) == GroupsFrom(g, m1, data, pc, i + 4)
  {
    var word := InstructionWord(data[i], data[i + 1], data[i + 2]);
    m1 := StoreInstruction(g, m, pc + i / 2, word);
    GroupsStep(g, m, data, pc, i);
    GroupOffset(pc, i);
    StorePlacesOwn(g, log0, m, pc + i / 2, word);
  }

  /** The group at offset `i` is accounted for once the loop is done: it is
      stored first and nothing after it disturbs it. */
  lemma GroupPlacedHere(g: Geometry, log0: nat, m: Machine, data: seq<nat>, pc: nat, i: nat)
    requires g.Valid() && RowInvariant(g, m.row) && log0 <= |m.flash|
    requires forall n :: 0 <= n < |data| ==> data[n] < 256
    requires i % 4 == 0 && i + 3 < |data|
    ensures Placed(g, log0, GroupsFrom(g, m, data, pc, i), pc + i / 2, InstructionWord(data[i], data[i + 1], data[i + 2]))
  {
    var m1 := HereStep(g, log0, m, data, pc, i);
    GroupsKeepPlaced(g, log0, m1, data, pc, i + 4, pc + i / 2, InstructionWord(data[i], data[i + 1], data[i + 2]));
  }

  /** The complete group `k` at or after offset `i` is accounted for once the
      loop is done. */
  lemma {:induction false} GroupPlaced(g: Geometry, log0: nat, m: Machine, data: seq<nat>, pc: nat, i: nat, k: nat)
    requires g.Valid() && RowInvariant(g, m.row) && log0 <= |m.flash|
    requires forall n :: 0 <= n < |data| ==> data[n] < 256
    requires i % 4 == 0 && i <= 4 * k && 4 * k + 3 < |data|
    ensures Placed(g, log0, GroupsFrom(g, m, data, pc, i), pc + 2 * k, InstructionWord(data[4 * k], data[4 * k + 1], data[4 * k + 2]))
    decreases |data| - i
  {
    if 4 * k == i {
      GroupStart(i, k);
      GroupPlacedHere(g, log0, m, data, pc, i);
    } else {
      var m1 := PlaceStep(g, log0, m, data, pc, i, k);
      GroupPlaced(g, log0, m1, data, pc, i + 4, k);
    }
  }

  /** A Data record whose address lies in the application area stores the
      word `d[4k] | d[4k+1] << 8 | d[4k+2] << 16` of every complete group `k`
      at program address `pc + 2k`: when that address's row is in the
      application area, the word ends up at its slot either in the row still
      buffered or in a row write the record handed to the driver. */
  lemma DataRecordPlacesWords(g: Geometry, m: Machine, r: Record, k: nat)
    requires g.Valid() && RowInvariant(g, m.row) && r.WellFormed() && r.kind == DATA_RECORD
    requires InAppArea(DataPc(m, r)) && 4 * k + 3 < |r.data|
    requires InAppArea(RowBase(g, DataPc(m, r) + 2 * k))
    ensures var a := ApplyRecord(g, m, r);
      var w := DataPc(m, r) + 2 * k;
      var b := RowBase(g, w);
      var s := (w - b) / 2;
      var word := InstructionWord(r.data[4 * k], r.data[4 * k + 1], r.data[4 * k + 2]);
      && a.ok
      && (|| (a.machine.row.base == b && s < |a.machine.row.slots| && a.machine.row.slots[s] == word)
          || (exists j :: |m.flash| <= j < |a.machine.flash| && a.machine.flash[j].WriteRow?
                && a.machine.flash[j].base == b && s < |a.machine.flash[j].words| && a.machine.flash[j].words[s] == word))
  {
    GroupPlaced(g, |m.flash|, m, r.data, DataPc(m, r), 0, k);
  }
}
