// Compact unwind encodings built from what they say (mach-o/compact_unwind_encoding.h), and
// the stack an emitted FDE takes the unwinder back to.
module Compact {
  import opened Bits
  import opened Options
  import opened Memory
  import opened Machine
  import opened Cfi
  import opened EhEmit
  import opened EhParse
  import opened EhRoundTrip
  import opened EhResults

  // --- Encodings ---

  // The fields of an encoding: mode, stack size in units of 16 bytes, the saved pairs
  // x19-x28 and d8-d15, three unused bits, the personality index, and two flags.
  datatype Compact = Compact(mode: nat, stack: nat, xs: seq<bool>, ds: seq<bool>, unused: nat, personality: nat,
                             lsda: bool, continued: bool)

  predicate Fits(c: Compact) {
    c.mode < 16 && c.stack < 0x1000 && |c.xs| == 5 && |c.ds| == 4 && c.unused < 8 && c.personality < 4
  }

  function One(b: bool): nat {
    if b then 1 else 0
  }

  function BitsValue(f: seq<bool>): nat {
    if f == [] then 0 else One(f[0]) + 2 * BitsValue(f[1..])
  }

  function EncodingOf(c: Compact): nat
    requires Fits(c)
  {
    BitsValue(c.xs) + 0x20 * c.unused + 0x100 * BitsValue(c.ds) + 0x1000 * c.stack + 0x100_0000 * c.mode
    + 0x1000_0000 * c.personality + 0x4000_0000 * One(c.lsda) + 0x8000_0000 * One(c.continued)
  }

  // The registers of the selected pairs in order.
  function Selected(f: seq<bool>, reg: nat): seq<nat> {
    if f == [] then [] else (if f[0] then [reg, reg + 1] else []) + Selected(f[1..], reg + 2)
  }

  function SavedBy(c: Compact): seq<nat> {
    Selected(c.xs, 19) + Selected(c.ds, 72)
  }

  lemma {:induction false} BitsBound(f: seq<bool>)
    ensures BitsValue(f) < Pow2(|f|)
    decreases |f|
  {
    if f != [] {
      BitsBound(f[1..]);
    }
  }

  lemma FieldBounds(c: Compact)
    requires Fits(c)
    ensures BitsValue(c.xs) < 32 && BitsValue(c.ds) < 16 && EncodingOf(c) < TWO32
  {
    BitsBound(c.xs);
    BitsBound(c.ds);
    assert Pow2(5) == 32 && Pow2(4) == 16;
    hide BitsValue;
  }

  // The fields are found again where the emitter looks for them.
  lemma FieldsFound(c: Compact)
    requires Fits(c)
    ensures EncodingOf(c) < TWO32
    ensures Mode(EncodingOf(c)) == c.mode && StackSize(EncodingOf(c)) == 16 * c.stack
    ensures HasLsda(EncodingOf(c)) == c.lsda && NotFunctionStart(EncodingOf(c)) == c.continued
  {
    FieldBounds(c);
    hide BitsValue;
    var e := EncodingOf(c);
    var low := BitsValue(c.xs) + 0x20 * c.unused + 0x100 * BitsValue(c.ds);
    var top := c.personality + 4 * One(c.lsda) + 8 * One(c.continued);
    DivModUnique(e, 0x1000, c.stack + 0x1000 * (c.mode + 16 * top), low);
    DivModUnique(c.stack + 0x1000 * (c.mode + 16 * top), 0x1000, c.mode + 16 * top, c.stack);
    DivModUnique(e, 0x100_0000, c.mode + 16 * top, low + 0x1000 * c.stack);
    DivModUnique(c.mode + 16 * top, 16, top, c.mode);
    var below := low + 0x1000 * c.stack + 0x100_0000 * c.mode + 0x1000_0000 * c.personality;
    DivModUnique(e, 0x4000_0000, One(c.lsda) + 2 * One(c.continued), below);
    DivModUnique(e, 0x8000_0000, One(c.continued), below + 0x4000_0000 * One(c.lsda));
  }

  lemma {:induction false} PairsAre(encoding: nat, bit: nat, reg: nat, f: seq<bool>, rest: nat)
    requires encoding / Pow2(bit) == BitsValue(f) + Pow2(|f|) * rest
    ensures Pairs(encoding, bit, reg, |f|) == Selected(f, reg)
    decreases |f|
  {
    if f != [] {
      var (x, tail) := (encoding / Pow2(bit), BitsValue(f[1..]) + Pow2(|f| - 1) * rest);
      assert Pow2(|f|) * rest == 2 * (Pow2(|f| - 1) * rest);
      DivModUnique(x, 2, tail, One(f[0]));
      HalfOf(encoding, bit);
      hide Pow2;
      PairsAre(encoding, bit + 1, reg + 2, f[1..], rest);
    }
  }

  lemma HalfOf(x: nat, bit: nat)
    ensures x / Pow2(bit + 1) == x / Pow2(bit) / 2
  {
    var p := Pow2(bit);
    assert Pow2(bit + 1) == 2 * p;
    hide Pow2;
    HalfQuotient(x, p, x / p, x % p);
  }

  lemma HalfQuotient(x: nat, p: nat, q: nat, r: nat)
    requires r < p && x == q * p + r
    ensures x / (2 * p) == q / 2
  {
    var h := q / 2;
    if q == 2 * h {
      Doubled(x, p, h, q, r);
    } else {
      Doubled(x, p, h, q - 1, p + r);
    }
  }

  lemma Doubled(x: nat, p: nat, h: nat, even: nat, r: nat)
    requires even == 2 * h && r < 2 * p && x == even * p + r
    ensures x / (2 * p) == h
  {
    assert even * p == h * (2 * p);
    DivModUnique(x, 2 * p, h, r);
  }

  lemma SavedAre(c: Compact)
    requires Fits(c)
    ensures Saved(EncodingOf(c)) == SavedBy(c)
  {
    FieldBounds(c);
    assert Pow2(0) == 1 && Pow2(4) == 16 && Pow2(5) == 32;
    Pow2Values();
    hide BitsValue, Pow2, Pairs, Selected;
    var e := EncodingOf(c);
    var up := c.stack + 0x1000 * (c.mode + 16 * (c.personality + 4 * One(c.lsda) + 8 * One(c.continued)));
    PairsAre(e, 0, 19, c.xs, c.unused + 8 * (BitsValue(c.ds) + 16 * up));
    DivModUnique(e, 0x100, BitsValue(c.ds) + 16 * up, BitsValue(c.xs) + 0x20 * c.unused);
    PairsAre(e, 8, 72, c.ds, up);
  }

  // --- Rows ---

  // The rows of a function with these fields: from its second instruction on, CFA = SP
  // plus the stack, or FP + 16 with LR and FP below it, and then the saved registers in
  // order; CFA = SP before that, and throughout for any other function.
  ghost predicate Says(c: Compact, rows: seq<Row>) {
    var regs := SavedBy(c);
    if c.mode == 2 && c.stack > 0 then
      && |rows| == 2 && rows[0] == Row(0, 31, 0, map[])
      && rows[1].loc == 4 && rows[1].cfaReg == 31 && rows[1].cfaOffset == 16 * c.stack
      && (forall k :: 0 <= k < |regs| ==> regs[k] in rows[1].saved && rows[1].saved[regs[k]] == -8 * (k + 1))
      && (forall r :: r in rows[1].saved ==> r in regs)
    else if c.mode == 4 then
      && |rows| == 2 && rows[0] == Row(0, 31, 0, map[])
      && rows[1].loc == 4 && rows[1].cfaReg == 29 && rows[1].cfaOffset == 16
      && 30 in rows[1].saved && rows[1].saved[30] == -8 && 29 in rows[1].saved && rows[1].saved[29] == -16
      && (forall k :: 0 <= k < |regs| ==> regs[k] in rows[1].saved && rows[1].saved[regs[k]] == -24 - 8 * k)
      && (forall r :: r in rows[1].saved ==> r == 29 || r == 30 || r in regs)
    else rows == [Row(0, 31, 0, map[])]
  }

  lemma RowsSay(c: Compact)
    requires Fits(c) && EncodingOf(c) < TWO32
    ensures Says(c, RowsFor(EncodingOf(c)))
  {
    FieldsFound(c);
    SavedAre(c);
    FrameRules(EncodingOf(c));
    FramelessRules(EncodingOf(c));
    hide Saved, SavedBy, EncodingOf, Slots, Mode, StackSize;
  }

  // Of an entry without a native match, the FDE is its own unless it is a continuation or
  // in DWARF mode, which get none.
  lemma WhoGetsAnFde(plan: Plan, e: CuEntry, c: Compact)
    requires Fits(c) && e.encoding == EncodingOf(c) && !UsesNative(plan, e)
    ensures FdeOf(plan, e).Some? <==> c.mode != 3 && !c.continued
  {
    FieldsFound(c);
    hide EncodingOf, CfiFor, UsesNative;
  }

  // Unwinding by the section, from the fields of the encoding: the instructions the parser
  // finds for the function build the rows those fields say.
  lemma CompactUnwinds(env: Mapping, text: U64, personality: U64, natives: seq<Native>, es: seq<CuEntry>, after: seq<U8>,
                       k: nat, c: Compact) returns (e: Entry, rows: seq<Row>)
    requires |Section(text, personality, natives, es)| < LIMIT
    requires k < |es| && Fits(c) && es[k].encoding == EncodingOf(c) && c.mode != 3 && !c.continued
    requires !UsesNative(PlanFor(text, personality, natives), es[k]) && Wrap(text + es[k].offset) != 0
    ensures var s := Section(text, personality, natives, es);
            && e in FdesFrom(env, s + after, |s|, 0)
            && e.start == Wrap(text + es[k].offset) && e.range == es[k].size
            && e.cfi + e.cfiSize <= |s|
            && Rows(s[e.cfi..e.cfi + e.cfiSize], Row(0, 31, 0, map[])) == Some(rows)
    ensures Says(c, rows)
  {
    FieldsFound(c);
    IsOwn(text, personality, natives, es[k], c);
    hide *;
    e := EntryUnwinds(env, text, personality, natives, es, after, k);
    rows := RowsFor(es[k].encoding);
    RowsSay(c);
  }

  lemma IsOwn(text: U64, personality: U64, natives: seq<Native>, e: CuEntry, c: Compact)
    requires Fits(c) && e.encoding == EncodingOf(c) && c.mode != 3 && !c.continued
    requires !UsesNative(PlanFor(text, personality, natives), e) && Wrap(text + e.offset) != 0
    ensures Own(PlanFor(text, personality, natives), e)
  {
    FieldsFound(c);
    hide EncodingOf, UsesNative, Record, CieBody;
  }

  // --- Stacks ---

  // What the caller had: its SP, and its registers by DWARF number.
  datatype Caller = Caller(sp: int, reg: nat -> U64)

  // After a FRAMELESS prologue: SP lowered by the stack, the saved registers at its top.
  ghost predicate FramelessStack(c: Compact, m: Mem, sp: int, caller: Caller) {
    && sp == caller.sp - 16 * c.stack
    && forall k :: 0 <= k < |SavedBy(c)| ==> Load64(m, caller.sp - 8 * (k + 1)) == caller.reg(SavedBy(c)[k])
  }

  // After a FRAME prologue: FP at the pushed FP and LR, the saved registers below them.
  ghost predicate FrameStack(c: Compact, m: Mem, fp: int, caller: Caller) {
    && fp == caller.sp - 16 && Load64(m, fp) == caller.reg(29) && Load64(m, fp + 8) == caller.reg(30)
    && forall k :: 0 <= k < |SavedBy(c)| ==> Load64(m, fp - 8 * (k + 1)) == caller.reg(SavedBy(c)[k])
  }

  // Section 6.4.1 of DWARF 4: the CFA of a row, and a register by its rule.
  function CfaOf(row: Row, sp: int, fp: int): int {
    (if row.cfaReg == 29 then fp else sp) + row.cfaOffset
  }

  function Restored(row: Row, r: nat, m: Mem, sp: int, fp: int): U64
    requires r in row.saved
  {
    Load64(m, CfaOf(row, sp, fp) + row.saved[r])
  }

  // The last row takes the unwinder back to the caller's SP and saved registers.
  lemma UnwindsToCaller(c: Compact, rows: seq<Row>, m: Mem, sp: int, fp: int, caller: Caller)
    requires Says(c, rows)
    requires (c.mode == 2 && c.stack > 0 && FramelessStack(c, m, sp, caller))
             || (c.mode == 4 && FrameStack(c, m, fp, caller))
    ensures |rows| == 2 && CfaOf(rows[1], sp, fp) == caller.sp
    ensures forall r :: r in SavedBy(c) ==> r in rows[1].saved && Restored(rows[1], r, m, sp, fp) == caller.reg(r)
    ensures c.mode == 4 ==> forall r :: r == 29 || r == 30 ==>
              r in rows[1].saved && Restored(rows[1], r, m, sp, fp) == caller.reg(r)
  {
    hide SavedBy, Load64;
    forall r | r in SavedBy(c)
      ensures r in rows[1].saved && Restored(rows[1], r, m, sp, fp) == caller.reg(r)
    {
      var k :| 0 <= k < |SavedBy(c)| && SavedBy(c)[k] == r;
      if c.mode == 2 {
        assert CfaOf(rows[1], sp, fp) + rows[1].saved[r] == caller.sp - 8 * (k + 1);
      } else {
        assert CfaOf(rows[1], sp, fp) + rows[1].saved[r] == fp - 8 * (k + 1);
      }
    }
  }
}
