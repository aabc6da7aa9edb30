// Call frame instructions: what eh_frame.c writes for a compact unwind encoding, and
// what it means by section 6.4 of DWARF 4.
module Cfi {
  import opened Bits
  import opened Options
  import opened Leb

  const FP: nat := 29
  const LR: nat := 30
  const SP: nat := 31

  // --- Section 6.4: instructions build a table of rows ---

  // From loc on, CFA = register cfaReg + cfaOffset, and register r is saved at
  // CFA + saved[r].
  datatype Row = Row(loc: int, cfaReg: nat, cfaOffset: nat, saved: map<nat, int>)

  // code_alignment_factor and data_alignment_factor of the emitted CIEs
  const CODE_ALIGN: int := 4
  const DATA_ALIGN: int := -8

  // The rows of the table from the current one on; None for an instruction outside
  // the ones used here.
  function Rows(s: seq<U8>, row: Row): Option<seq<Row>>
    decreases |s|
  {
    if s == [] then Some([row])
    else
      var (hi, lo, e) := (s[0] / 64, s[0] % 64, LebEnd(s, 1));
      var v := UlebValue(s, 1);
      if hi == 1 then // DW_CFA_advance_loc
        match Rows(s[1..], row.(loc := row.loc + lo * CODE_ALIGN))
        case None => None
        case Some(rest) => Some([row] + rest)
      else if hi == 2 then // DW_CFA_offset
        Rows(s[e..], row.(saved := row.saved[lo := v * DATA_ALIGN]))
      else if s[0] == 0 then // DW_CFA_nop
        Rows(s[1..], row)
      else if s[0] == 5 then // DW_CFA_offset_extended
        Rows(s[LebEnd(s, e)..], row.(saved := row.saved[v := UlebValue(s, e) * DATA_ALIGN]))
      else if s[0] == 12 then // DW_CFA_def_cfa
        Rows(s[LebEnd(s, e)..], row.(cfaReg := v, cfaOffset := UlebValue(s, e)))
      else if s[0] == 14 then // DW_CFA_def_cfa_offset
        Rows(s[e..], row.(cfaOffset := v))
      else None
  }

  // --- What is emitted ---

  // The saved registers of an encoding in the order they are written: pairs x19-x28
  // from bits 0-4, then pairs d8-d15 (DWARF numbers 72-79) from bits 8-11.
  function Bit(encoding: nat, i: nat): bool {
    encoding / Pow2(i) % 2 == 1
  }

  function Pairs(encoding: nat, bit: nat, reg: nat, n: nat): seq<nat>
    decreases n
  {
    if n == 0 then []
    else (if Bit(encoding, bit) then [reg, reg + 1] else []) + Pairs(encoding, bit + 1, reg + 2, n - 1)
  }

  function Saved(encoding: nat): seq<nat> {
    Pairs(encoding, 0, 19, 5) + Pairs(encoding, 8, 72, 4)
  }

  function SaveOne(reg: nat, slot: nat): seq<U8>
    requires reg < 128
  {
    if reg < 64 then [0x80 + reg] + Uleb(slot) else [5] + Uleb(reg) + Uleb(slot)
  }

  predicate Registers(regs: seq<nat>) {
    forall i :: 0 <= i < |regs| ==> regs[i] < 128
  }

  function SaveAll(regs: seq<nat>, slot: nat): seq<U8>
    requires Registers(regs)
    decreases |regs|
  {
    if regs == [] then [] else SaveOne(regs[0], slot) + SaveAll(regs[1..], slot + 1)
  }

  lemma {:induction false} PairsRegisters(encoding: nat, bit: nat, reg: nat, n: nat)
    requires reg + 2 * n <= 128
    ensures Registers(Pairs(encoding, bit, reg, n))
    ensures |Pairs(encoding, bit, reg, n)| <= 2 * n
    ensures forall i :: 0 <= i < |Pairs(encoding, bit, reg, n)| ==> reg <= Pairs(encoding, bit, reg, n)[i] < reg + 2 * n
    ensures forall i, j :: 0 <= i < j < |Pairs(encoding, bit, reg, n)| ==>
              Pairs(encoding, bit, reg, n)[i] < Pairs(encoding, bit, reg, n)[j]
    decreases n
  {
    if n != 0 {
      PairsRegisters(encoding, bit + 1, reg + 2, n - 1);
    }
  }

  lemma SavedRegisters(encoding: nat)
    ensures Registers(Saved(encoding)) && |Saved(encoding)| <= 18
    ensures forall i :: 0 <= i < |Saved(encoding)| ==> 19 <= Saved(encoding)[i] <= 28 || 72 <= Saved(encoding)[i] <= 79
    ensures forall i, j :: 0 <= i < j < |Saved(encoding)| ==> Saved(encoding)[i] < Saved(encoding)[j]
  {
    PairsRegisters(encoding, 0, 19, 5);
    PairsRegisters(encoding, 8, 72, 4);
    hide Pairs;
  }

  function FrameCfi(encoding: nat): seq<U8> {
    SavedRegisters(encoding);
    [0x41] + ([0x0c] + Uleb(FP) + Uleb(16)) + SaveOne(LR, 1) + SaveOne(FP, 2) + SaveAll(Saved(encoding), 3)
  }

  // bits 23-12, in units of 16 bytes
  function StackSize(encoding: nat): nat {
    encoding / 0x1000 % 0x1000 * 16
  }

  function FramelessCfi(encoding: nat): seq<U8> {
    SavedRegisters(encoding);
    if StackSize(encoding) == 0 then []
    else [0x41] + ([0x0c] + Uleb(SP) + Uleb(StackSize(encoding))) + SaveAll(Saved(encoding), 1)
  }

  // --- Its meaning ---

  lemma AfterUleb(h: seq<U8>, v: nat, b: seq<U8>)
    requires |h| == 1
    ensures var s := h + Uleb(v) + b;
            UlebValue(s, 1) == v && LebEnd(s, 1) == 1 + |Uleb(v)| && s[LebEnd(s, 1)..] == b
  {
    hide Uleb, UlebValue, LebEnd;
    UlebRoundTrip(h, v, b);
  }

  lemma AfterTwo(h: seq<U8>, v: nat, w: nat, b: seq<U8>)
    requires |h| == 1
    ensures var s := h + Uleb(v) + Uleb(w) + b;
            && UlebValue(s, 1) == v && UlebValue(s, LebEnd(s, 1)) == w && s[LebEnd(s, LebEnd(s, 1))..] == b
  {
    hide Uleb, UlebValue, LebEnd;
    var s := h + Uleb(v) + Uleb(w) + b;
    UlebRoundTrip(h, v, Uleb(w) + b);
    assert s == h + Uleb(v) + (Uleb(w) + b);
    UlebRoundTrip(h + Uleb(v), w, b);
    assert s[|h + Uleb(v)| + |Uleb(w)|..] == b;
  }

  lemma RowsSave(reg: nat, slot: nat, b: seq<U8>, row: Row)
    requires reg < 128
    ensures Rows(SaveOne(reg, slot) + b, row) == Rows(b, row.(saved := row.saved[reg := -8 * slot]))
  {
    hide Uleb, UlebValue, LebEnd;
    if reg < 64 {
      AfterUleb([0x80 + reg], slot, b);
    } else {
      AfterTwo([5], reg, slot, b);
    }
  }

  lemma RowsDefine(reg: nat, off: nat, b: seq<U8>, row: Row)
    ensures Rows([0x0c] + Uleb(reg) + Uleb(off) + b, row) == Rows(b, row.(cfaReg := reg, cfaOffset := off))
  {
    hide Uleb, UlebValue, LebEnd;
    AfterTwo([0x0c], reg, off, b);
  }

  // regs[k] at CFA - 8 (slot + k), over what was there.
  function Slots(saved: map<nat, int>, regs: seq<nat>, slot: nat): map<nat, int>
    decreases |regs|
  {
    if regs == [] then saved else Slots(saved[regs[0] := -8 * slot], regs[1..], slot + 1)
  }

  lemma {:induction false} RowsSaveAll(regs: seq<nat>, slot: nat, b: seq<U8>, row: Row)
    requires Registers(regs)
    ensures Rows(SaveAll(regs, slot) + b, row) == Rows(b, row.(saved := Slots(row.saved, regs, slot)))
    decreases |regs|
  {
    hide Rows, SaveOne;
    if regs == [] {
      assert SaveAll(regs, slot) + b == b;
    } else {
      var rest := SaveAll(regs[1..], slot + 1);
      assert SaveAll(regs, slot) + b == SaveOne(regs[0], slot) + (rest + b);
      RowsSave(regs[0], slot, rest + b, row);
      RowsSaveAll(regs[1..], slot + 1, b, row.(saved := row.saved[regs[0] := -8 * slot]));
    }
  }

  // DW_CFA_nop, n times
  function Nops(n: nat): (r: seq<U8>)
    ensures |r| == n
  {
    if n == 0 then [] else [0] + Nops(n - 1)
  }

  // Trailing padding changes nothing.
  lemma {:induction false} RowsNops(n: nat, row: Row)
    ensures Rows(Nops(n), row) == Some([row])
    decreases n
  {
    if n != 0 {
      assert Nops(n)[1..] == Nops(n - 1);
      RowsNops(n - 1, row);
    }
  }

  // The row every function starts with: CFA = SP + 0, from the CIE.
  const ENTRY: Row := Row(0, SP, 0, map[])

  // The row after a FRAME prologue's first instruction.
  function FrameRow(encoding: nat): Row {
    Row(4, FP, 16, Slots(map[LR := -8, FP := -16], Saved(encoding), 3))
  }

  function FramelessRow(encoding: nat): Row {
    Row(4, SP, StackSize(encoding), Slots(map[], Saved(encoding), 1))
  }

  lemma RowsAdvance(b: seq<U8>, row: Row, rest: seq<Row>)
    requires Rows(b, row.(loc := row.loc + 4)) == Some(rest)
    ensures Rows([0x41] + b, row) == Some([row] + rest)
  {
    assert ([0x41] + b)[1..] == b;
  }

  // The CFI of a FRAME encoding, padded with any number of nops.
  lemma FrameMeaning(encoding: nat, pad: nat)
    ensures Rows(FrameCfi(encoding) + Nops(pad), ENTRY) == Some([ENTRY, FrameRow(encoding)])
  {
    hide Rows, Uleb, SaveOne, SaveAll, Slots, Saved;
    SavedRegisters(encoding);
    var nops := Nops(pad);
    var (r0, regs) := (ENTRY.(loc := 4), Saved(encoding));
    var r1 := r0.(cfaReg := FP, cfaOffset := 16);
    var r2 := r1.(saved := map[LR := -8]);
    var r3 := r1.(saved := map[LR := -8, FP := -16]);
    var b3 := SaveAll(regs, 3) + nops;
    var b2 := SaveOne(FP, 2) + b3;
    var b1 := SaveOne(LR, 1) + b2;
    var b0 := [0x0c] + Uleb(FP) + Uleb(16) + b1;
    assert FrameCfi(encoding) + nops == [0x41] + b0;
    RowsDefine(FP, 16, b1, r0);
    RowsSave(LR, 1, b2, r1);
    RowsSave(FP, 2, b3, r2);
    assert r2.(saved := r2.saved[FP := -16]) == r3 by {
      assert r2.saved[FP := -16] == r3.saved;
    }
    RowsSaveAll(regs, 3, nops, r3);
    RowsNops(pad, FrameRow(encoding));
    RowsAdvance(b0, ENTRY, [FrameRow(encoding)]);
    assert [ENTRY] + [FrameRow(encoding)] == [ENTRY, FrameRow(encoding)];
  }

  // The CFI of a FRAMELESS encoding; with no stack there is only the entry row.
  lemma FramelessMeaning(encoding: nat, pad: nat)
    ensures Rows(FramelessCfi(encoding) + Nops(pad), ENTRY)
         == Some(if StackSize(encoding) == 0 then [ENTRY] else [ENTRY, FramelessRow(encoding)])
  {
    hide Rows, Uleb, SaveOne, SaveAll, Slots, Saved;
    SavedRegisters(encoding);
    var nops := Nops(pad);
    if StackSize(encoding) == 0 {
      RowsNops(pad, ENTRY);
      assert FramelessCfi(encoding) + nops == nops;
    } else {
      var (r0, regs, size) := (ENTRY.(loc := 4), Saved(encoding), StackSize(encoding));
      var r1 := r0.(cfaReg := SP, cfaOffset := size);
      var b1 := SaveAll(regs, 1) + nops;
      var b0 := [0x0c] + Uleb(SP) + Uleb(size) + b1;
      assert FramelessCfi(encoding) + nops == [0x41] + b0;
      RowsDefine(SP, size, b1, r0);
      RowsSaveAll(regs, 1, nops, r1);
      RowsNops(pad, FramelessRow(encoding));
      RowsAdvance(b0, ENTRY, [FramelessRow(encoding)]);
      assert [ENTRY] + [FramelessRow(encoding)] == [ENTRY, FramelessRow(encoding)];
    }
  }

  // --- The rows read register by register ---

  lemma {:induction false} SlotsAt(saved: map<nat, int>, regs: seq<nat>, slot: nat)
    requires forall i, j :: 0 <= i < j < |regs| ==> regs[i] < regs[j]
    ensures forall k :: 0 <= k < |regs| ==>
              regs[k] in Slots(saved, regs, slot) && Slots(saved, regs, slot)[regs[k]] == -8 * (slot + k)
    ensures forall r :: r !in regs ==>
              (r in Slots(saved, regs, slot) <==> r in saved)
              && (r in saved ==> Slots(saved, regs, slot)[r] == saved[r])
    decreases |regs|
  {
    if regs != [] {
      var next := saved[regs[0] := -8 * slot];
      SlotsAt(next, regs[1..], slot + 1);
      assert regs[0] !in regs[1..];
      forall k | 0 <= k < |regs|
        ensures regs[k] in Slots(saved, regs, slot) && Slots(saved, regs, slot)[regs[k]] == -8 * (slot + k)
      {
        if k > 0 {
          assert regs[k] == regs[1..][k - 1];
        }
      }
    }
  }

  // FRAME: CFA = FP + 16, LR at CFA-8, FP at CFA-16, the selected registers at
  // consecutive slots from CFA-24, and no other rule.
  lemma FrameRules(encoding: nat)
    ensures var (row, regs) := (FrameRow(encoding), Saved(encoding));
            && row.cfaReg == FP && row.cfaOffset == 16
            && LR in row.saved && row.saved[LR] == -8 && FP in row.saved && row.saved[FP] == -16
            && (forall k :: 0 <= k < |regs| ==> regs[k] in row.saved && row.saved[regs[k]] == -24 - 8 * k)
            && (forall r :: r in row.saved ==> r == LR || r == FP || r in regs)
  {
    hide Saved, Slots;
    SavedRegisters(encoding);
    SlotsAt(map[LR := -8, FP := -16], Saved(encoding), 3);
  }

  // FRAMELESS: CFA = SP + size, the k-th saved register (from 1) at CFA-8k, and no
  // rule for LR.
  lemma FramelessRules(encoding: nat)
    ensures var (row, regs) := (FramelessRow(encoding), Saved(encoding));
            && row.cfaReg == SP && row.cfaOffset == StackSize(encoding)
            && LR !in row.saved
            && (forall k :: 0 <= k < |regs| ==> regs[k] in row.saved && row.saved[regs[k]] == -8 * (k + 1))
            && (forall r :: r in row.saved ==> r in regs)
  {
    hide Saved, Slots;
    SavedRegisters(encoding);
    SlotsAt(map[], Saved(encoding), 1);
  }

  // Which registers are selected: bit i of the encoding selects x(19+2i), x(20+2i);
  // bit 8+i selects d(8+2i), d(9+2i).
  lemma {:induction false} PairsSelect(encoding: nat, bit: nat, reg: nat, n: nat, i: nat)
    requires i < n
    ensures (reg + 2 * i in Pairs(encoding, bit, reg, n)) <==> Bit(encoding, bit + i)
    ensures (reg + 2 * i + 1 in Pairs(encoding, bit, reg, n)) <==> Bit(encoding, bit + i)
    decreases n
  {
    hide Bit;
    var rest := Pairs(encoding, bit + 1, reg + 2, n - 1);
    PairsAbove(encoding, bit + 1, reg + 2, n - 1);
    if i > 0 {
      PairsSelect(encoding, bit + 1, reg + 2, n - 1, i - 1);
    }
  }

  lemma {:induction false} PairsAbove(encoding: nat, bit: nat, reg: nat, n: nat)
    ensures forall r :: r in Pairs(encoding, bit, reg, n) ==> reg <= r < reg + 2 * n
    decreases n
  {
    hide Bit;
    if n != 0 {
      PairsAbove(encoding, bit + 1, reg + 2, n - 1);
    }
  }

  lemma SavedSelect(encoding: nat, i: nat)
    ensures i < 5 ==> (19 + 2 * i in Saved(encoding) <==> Bit(encoding, i))
                      && (20 + 2 * i in Saved(encoding) <==> Bit(encoding, i))
    ensures i < 4 ==> (72 + 2 * i in Saved(encoding) <==> Bit(encoding, 8 + i))
                      && (73 + 2 * i in Saved(encoding) <==> Bit(encoding, 8 + i))
  {
    hide Bit, Pairs;
    PairsAbove(encoding, 0, 19, 5);
    PairsAbove(encoding, 8, 72, 4);
    if i < 5 {
      PairsSelect(encoding, 0, 19, 5, i);
    }
    if i < 4 {
      PairsSelect(encoding, 8, 72, 4, i);
    }
  }
}
