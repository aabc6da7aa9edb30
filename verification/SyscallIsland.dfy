// The island that syscall_gate.c puts in place of `svc #0x80`: it builds a
// register frame on the guest stack, calls the dispatcher with it, and resumes
// the guest from the frame as the dispatcher left it.
module SyscallIsland {
  import opened Bits
  import opened Memory
  import opened A64
  import opened Machine

  const ISLAND_WORDS: nat := 96
  const FRAME: nat := 192

  // Guest state; pc is an address in the island, in words from its start.
  datatype Guest = Guest(pc: int, x: Regs, sp: U64, nzcv: Flags, mem: Mem)

  // The two 64-bit literals at the end of the island.
  datatype Literals = Literals(dispatcher: U64, resume: U64)

  function LiteralAt(l: Literals, word: int): U64 {
    if word == ISLAND_WORDS - 4 then l.dispatcher else if word == ISLAND_WORDS - 2 then l.resume else 0
  }

  function Store64(m: Mem, a: int, v: U64): Mem {
    Store(m, a, 8, v)
  }

  // One instruction that stays in the island: all but the call and the final jump.
  function GuestStep(i: Instr, l: Literals, g: Guest): Guest {
    var n := g.(pc := g.pc + 1);
    match i
    case SubSpImm(_, imm) => n.(sp := (g.sp - imm) % TWO64)
    case AddSpImm(rd, imm) =>
      if rd == 31 then n.(sp := (g.sp + imm) % TWO64) else n.(x := SetX(g.x, rd, (g.sp + imm) % TWO64))
    case StpSp(rt, rt2, imm) =>
      n.(mem := Store64(Store64(g.mem, g.sp + imm, X(g.x, rt)), g.sp + imm + 8, X(g.x, rt2)))
    case LdpSp(rt, rt2, imm) =>
      n.(x := SetX(SetX(g.x, rt, Load64(g.mem, g.sp + imm)), rt2, Load64(g.mem, g.sp + imm + 8)))
    case StrSp(rt, imm) => n.(mem := Store64(g.mem, g.sp + imm, X(g.x, rt)))
    case LdrSp(rt, imm) => n.(x := SetX(g.x, rt, Load64(g.mem, g.sp + imm)))
    case MrsNzcv(rt) => n.(x := SetX(g.x, rt, FlagWord(g.nzcv)))
    case MsrNzcv(rt) => n.(nzcv := WordFlags(X(g.x, rt)))
    case LdrLit(rt, offset) => n.(x := SetX(g.x, rt, LiteralAt(l, g.pc + offset)))
    case _ => n
  }

  function GuestRun(code: seq<Instr>, l: Literals, g: Guest): Guest
    decreases |code|
  {
    if code == [] then g else GuestRun(code[1..], l, GuestStep(code[0], l, g))
  }

  lemma {:induction false} RunJoin(a: seq<Instr>, b: seq<Instr>, l: Literals, g: Guest)
    ensures GuestRun(a + b, l, g) == GuestRun(b, l, GuestRun(a, l, g))
    decreases |a|
  {
    if a == [] {
      assert a + b == b;
    } else {
      assert (a + b)[1..] == a[1..] + b;
      RunJoin(a[1..], b, l, GuestStep(a[0], l, g));
    }
  }

  lemma RunSnoc(a: seq<Instr>, i: Instr, l: Literals, g: Guest)
    ensures GuestRun(a + [i], l, g) == GuestStep(i, l, GuestRun(a, l, g))
  {
    RunJoin(a, [i], l, g);
    assert [i][1..] == [];
    assert GuestRun([i], l, GuestRun(a, l, g)) == GuestRun([], l, GuestStep(i, l, GuestRun(a, l, g)));
  }

  // stp x(2j), x(2j+1), [sp, #16j] for j below n
  function StorePairs(n: nat): seq<Instr>
    requires n <= 9
  {
    seq(n, j requires 0 <= j < n => StpSp(2 * j, 2 * j + 1, 16 * j))
  }

  // ldp x(2j+1), x(2j+2), [sp, #16j+8] for j below n
  function LoadPairs(n: nat): seq<Instr>
    requires n <= 7
  {
    seq(n, j requires 0 <= j < n => LdpSp(2 * j + 1, 2 * j + 2, 16 * j + 8))
  }

  function StoreRest(): seq<Instr> {
    [StrSp(18, 144), StrSp(30, 152), MrsNzcv(16), StrSp(16, 160)]
  }

  function StoreResume(): seq<Instr> {
    [LdrLit(16, ISLAND_WORDS - 2 - 14), StrSp(16, 168), AddSpImm(0, 0), LdrLit(16, ISLAND_WORDS - 4 - 17)]
  }

  // Everything before the call of the dispatcher.
  function Front(): seq<Instr> {
    [SubSpImm(31, FRAME)] + StorePairs(9) + StoreRest() + StoreResume()
  }

  function LoadRest(): seq<Instr> {
    [LdrSp(15, 120), LdrSp(17, 136), LdrSp(18, 144), LdrSp(30, 152)]
  }

  function LoadResume(): seq<Instr> {
    [LdrSp(16, 160), MsrNzcv(16), LdrSp(0, 0), LdrSp(16, 168)]
  }

  // Everything between the call and the jump to the guest.
  function Back(): seq<Instr> {
    LoadPairs(7) + LoadRest() + LoadResume() + [AddSpImm(31, FRAME)]
  }

  function Code(): seq<Instr> {
    Front() + [Blr(16)] + Back() + [Br(16)]
  }

  // --- The frame ---

  // base[k] = vals[k], 64 bits each, in order.
  function WriteSlots(m: Mem, base: int, vals: seq<U64>): Mem {
    if vals == [] then m
    else Store64(WriteSlots(m, base, vals[..|vals| - 1]), base + 8 * (|vals| - 1), vals[|vals| - 1])
  }

  function Slot(m: Mem, base: int, k: int): U64 {
    Load64(m, base + 8 * k)
  }

  lemma WriteOne(m: Mem, base: int, vals: seq<U64>, v: U64)
    ensures WriteSlots(m, base, vals + [v]) == Store64(WriteSlots(m, base, vals), base + 8 * |vals|, v)
  {
    assert (vals + [v])[..|vals|] == vals;
  }

  lemma {:induction false} SlotWritten(m: Mem, base: int, vals: seq<U64>, k: nat)
    requires k < |vals|
    ensures Slot(WriteSlots(m, base, vals), base, k) == vals[k]
    decreases |vals|
  {
    var n := |vals| - 1;
    var m1 := WriteSlots(m, base, vals[..n]);
    if k == n {
      Load64Stored(m1, base + 8 * n, vals[n]);
    } else {
      SlotWritten(m, base, vals[..n], k);
      LoadElsewhere(m1, base + 8 * n, 8, vals[n], base + 8 * k, 8);
    }
  }

  lemma {:induction false} SlotsFrame(m: Mem, base: int, vals: seq<U64>, b: int)
    requires b < base || base + 8 * |vals| <= b
    ensures Byte(WriteSlots(m, base, vals), b) == Byte(m, b)
    decreases |vals|
  {
    if vals != [] {
      var n := |vals| - 1;
      SlotsFrame(m, base, vals[..n], b);
      StoreElsewhere(WriteSlots(m, base, vals[..n]), base + 8 * n, 8, vals[n], b);
    }
  }

  // struct syscall_gate_state as the island fills it: x0..x18, x30, nzcv, pc.
  function FrameOf(g: Guest, l: Literals): seq<U64> {
    g.x[..19] + [g.x[30], FlagWord(g.nzcv), l.resume]
  }

  lemma WriteTwo(m: Mem, base: int, vals: seq<U64>, v: U64, w: U64)
    ensures WriteSlots(m, base, vals + [v, w]) ==
            Store64(Store64(WriteSlots(m, base, vals), base + 8 * |vals|, v), base + 8 * |vals| + 8, w)
  {
    WriteOne(m, base, vals, v);
    WriteOne(m, base, vals + [v], w);
    assert vals + [v] + [w] == vals + [v, w];
  }

  lemma {:induction false} StoreRegisters(n: nat, l: Literals, g: Guest)
    requires n <= 9
    ensures GuestRun(StorePairs(n), l, g) == g.(pc := g.pc + n, mem := WriteSlots(g.mem, g.sp, g.x[..2 * n]))
    decreases n
  {
    hide GuestRun, WriteSlots;
    if n == 0 {
      NothingRun(l, g);
      assert g.x[..0] == [];
    } else {
      var j := n - 1;
      StoreRegisters(j, l, g);
      assert StorePairs(n) == StorePairs(j) + [StpSp(2 * j, 2 * j + 1, 16 * j)];
      RunSnoc(StorePairs(j), StpSp(2 * j, 2 * j + 1, 16 * j), l, g);
      WriteTwo(g.mem, g.sp, g.x[..2 * j], g.x[2 * j], g.x[2 * j + 1]);
      assert g.x[..2 * j] + [g.x[2 * j], g.x[2 * j + 1]] == g.x[..2 * n];
    }
  }

  lemma NothingRun(l: Literals, g: Guest)
    ensures GuestRun([], l, g) == g
    ensures WriteSlots(g.mem, g.sp, []) == g.mem
  {
  }

  lemma Run4(c: seq<Instr>, l: Literals, g: Guest)
    requires |c| == 4
    ensures GuestRun(c, l, g) == GuestStep(c[3], l, GuestStep(c[2], l, GuestStep(c[1], l, GuestStep(c[0], l, g))))
  {
    hide GuestStep;
    NothingRun(l, g);
    assert c[..0] == [] && c[..4] == c;
    assert c[..1] == c[..0] + [c[0]] && c[..2] == c[..1] + [c[1]];
    assert c[..3] == c[..2] + [c[2]] && c[..4] == c[..3] + [c[3]];
    RunSnoc(c[..0], c[0], l, g);
    RunSnoc(c[..1], c[1], l, g);
    RunSnoc(c[..2], c[2], l, g);
    RunSnoc(c[..3], c[3], l, g);
  }

  lemma StepStr(rt: Reg, imm: int, l: Literals, g: Guest)
    requires rt < 31
    ensures GuestStep(StrSp(rt, imm), l, g) == g.(pc := g.pc + 1, mem := Store64(g.mem, g.sp + imm, g.x[rt]))
  {
    hide Store64;
  }

  lemma StepLit(rt: Reg, offset: int, l: Literals, g: Guest)
    requires rt < 31
    ensures GuestStep(LdrLit(rt, offset), l, g) == g.(pc := g.pc + 1, x := g.x[rt := LiteralAt(l, g.pc + offset)])
  {
    hide LiteralAt;
  }

  lemma StepMrs(rt: Reg, l: Literals, g: Guest)
    requires rt < 31
    ensures GuestStep(MrsNzcv(rt), l, g) == g.(pc := g.pc + 1, x := g.x[rt := FlagWord(g.nzcv)])
  {
    hide FlagWord;
  }

  lemma StepMovSp(rd: Reg, l: Literals, g: Guest)
    requires rd < 31
    ensures GuestStep(AddSpImm(rd, 0), l, g) == g.(pc := g.pc + 1, x := g.x[rd := g.sp])
  {
  }

  lemma RestRuns(l: Literals, h: Guest)
    requires h.pc == 10
    ensures GuestRun(StoreRest(), l, h) ==
            h.(pc := 14, x := h.x[16 := FlagWord(h.nzcv)],
               mem := Store64(Store64(Store64(h.mem, h.sp + 144, h.x[18]), h.sp + 152, h.x[30]), h.sp + 160, FlagWord(h.nzcv)))
  {
    hide FlagWord, Store64, GuestStep;
    Run4(StoreRest(), l, h);
    hide GuestRun;
    StepStr(18, 144, l, h);
    var h1 := GuestStep(StrSp(18, 144), l, h);
    StepStr(30, 152, l, h1);
    var h2 := GuestStep(StrSp(30, 152), l, h1);
    StepMrs(16, l, h2);
    StepStr(16, 160, l, GuestStep(MrsNzcv(16), l, h2));
  }

  lemma ResumeRuns(l: Literals, h: Guest)
    requires h.pc == 14
    ensures GuestRun(StoreResume(), l, h) ==
            h.(pc := 18, x := h.x[16 := l.resume][0 := h.sp][16 := l.dispatcher],
               mem := Store64(h.mem, h.sp + 168, l.resume))
  {
    hide Store64, GuestStep;
    Run4(StoreResume(), l, h);
    hide GuestRun;
    StepLit(16, ISLAND_WORDS - 2 - 14, l, h);
    var h1 := GuestStep(LdrLit(16, ISLAND_WORDS - 2 - 14), l, h);
    StepStr(16, 168, l, h1);
    var h2 := GuestStep(StrSp(16, 168), l, h1);
    StepMovSp(0, l, h2);
    StepLit(16, ISLAND_WORDS - 4 - 17, l, GuestStep(AddSpImm(0, 0), l, h2));
  }

  lemma FrameWrites(m: Mem, base: int, g: Guest, l: Literals)
    ensures WriteSlots(m, base, FrameOf(g, l)) ==
            Store64(Store64(Store64(Store64(WriteSlots(m, base, g.x[..18]), base + 144, g.x[18]), base + 152, g.x[30]),
                            base + 160, FlagWord(g.nzcv)), base + 168, l.resume)
  {
    hide WriteSlots, FlagWord;
    var f := g.x[..18];
    WriteTwo(m, base, f, g.x[18], g.x[30]);
    WriteTwo(m, base, f + [g.x[18], g.x[30]], FlagWord(g.nzcv), l.resume);
    assert f + [g.x[18], g.x[30]] + [FlagWord(g.nzcv), l.resume] == FrameOf(g, l);
  }

  lemma LowerSp(l: Literals, g: Guest)
    requires g.pc == 0 && FRAME <= g.sp
    ensures GuestStep(SubSpImm(31, FRAME), l, g) == g.(pc := 1, sp := g.sp - FRAME)
  {
  }

  // What the dispatcher is called with: SP lowered by the frame, x0 pointing at
  // the frame, x16 the dispatcher's address, and the frame filled in.
  lemma FrontBuildsFrame(l: Literals, g: Guest)
    requires g.pc == 0 && FRAME <= g.sp
    ensures GuestRun(Front(), l, g) ==
            Guest(18, g.x[0 := g.sp - FRAME][16 := l.dispatcher], g.sp - FRAME, g.nzcv,
                  WriteSlots(g.mem, g.sp - FRAME, FrameOf(g, l)))
  {
    hide GuestStep, GuestRun, WriteSlots, FlagWord, StorePairs, StoreRest, StoreResume;
    var base := g.sp - FRAME;
    var g1 := g.(pc := 1, sp := base);
    LowerSp(l, g);
    NothingRun(l, g);
    RunSnoc([], SubSpImm(31, FRAME), l, g);
    assert [] + [SubSpImm(31, FRAME)] == [SubSpImm(31, FRAME)];
    RunJoin([SubSpImm(31, FRAME)], StorePairs(9), l, g);
    RunJoin([SubSpImm(31, FRAME)] + StorePairs(9), StoreRest(), l, g);
    RunJoin([SubSpImm(31, FRAME)] + StorePairs(9) + StoreRest(), StoreResume(), l, g);
    StoreRegisters(9, l, g1);
    var g2 := g1.(pc := 10, mem := WriteSlots(g.mem, base, g.x[..18]));
    RestRuns(l, g2);
    ResumeRuns(l, GuestRun(StoreRest(), l, g2));
    FrameWrites(g.mem, base, g, l);
    assert g.x[16 := FlagWord(g.nzcv)][16 := l.resume][0 := base][16 := l.dispatcher]
        == g.x[0 := base][16 := l.dispatcher];
  }

  // x1..x(2n) from their slots.
  function Reloaded(g: Guest, n: nat): Regs {
    seq<U64>(31, r requires 0 <= r < 31 => if 1 <= r <= 2 * n then Slot(g.mem, g.sp, r) else g.x[r])
  }

  lemma {:induction false} LoadRegisters(n: nat, l: Literals, g: Guest)
    requires n <= 7
    ensures GuestRun(LoadPairs(n), l, g) == g.(pc := g.pc + n, x := Reloaded(g, n))
    decreases n
  {
    hide GuestRun, Load64;
    if n == 0 {
      NothingRun(l, g);
      assert Reloaded(g, 0) == g.x;
    } else {
      var j := n - 1;
      LoadRegisters(j, l, g);
      assert LoadPairs(n) == LoadPairs(j) + [LdpSp(2 * j + 1, 2 * j + 2, 16 * j + 8)];
      RunSnoc(LoadPairs(j), LdpSp(2 * j + 1, 2 * j + 2, 16 * j + 8), l, g);
      assert Reloaded(g, n) == Reloaded(g, j)[2 * j + 1 := Slot(g.mem, g.sp, 2 * j + 1)][2 * j + 2 := Slot(g.mem, g.sp, 2 * j + 2)];
    }
  }

  lemma LoadStep(rt: Reg, imm: int, l: Literals, h: Guest)
    requires rt < 31
    ensures GuestStep(LdrSp(rt, imm), l, h) == h.(pc := h.pc + 1, x := h.x[rt := Load64(h.mem, h.sp + imm)])
  {
  }

  lemma LoadRestRuns(l: Literals, h: Guest)
    ensures GuestRun(LoadRest(), l, h) ==
            h.(pc := h.pc + 4, x := h.x[15 := Slot(h.mem, h.sp, 15)][17 := Slot(h.mem, h.sp, 17)]
                                       [18 := Slot(h.mem, h.sp, 18)][30 := Slot(h.mem, h.sp, 19)])
  {
    hide GuestRun, GuestStep, Load64;
    Run4(LoadRest(), l, h);
    LoadStep(15, 120, l, h);
    var h1 := GuestStep(LdrSp(15, 120), l, h);
    LoadStep(17, 136, l, h1);
    var h2 := GuestStep(LdrSp(17, 136), l, h1);
    LoadStep(18, 144, l, h2);
    LoadStep(30, 152, l, GuestStep(LdrSp(18, 144), l, h2));
  }

  lemma LoadResumeRuns(l: Literals, h: Guest)
    ensures GuestRun(LoadResume(), l, h) ==
            h.(pc := h.pc + 4, nzcv := WordFlags(Slot(h.mem, h.sp, 20)),
               x := h.x[16 := Slot(h.mem, h.sp, 20)][0 := Slot(h.mem, h.sp, 0)][16 := Slot(h.mem, h.sp, 21)])
  {
    hide GuestRun, Load64, WordFlags;
    Run4(LoadResume(), l, h);
    LoadStep(16, 160, l, h);
    var h1 := GuestStep(LdrSp(16, 160), l, h);
    var h2 := GuestStep(MsrNzcv(16), l, h1);
    assert h2 == h1.(pc := h.pc + 2, nzcv := WordFlags(Slot(h.mem, h.sp, 20)));
    LoadStep(0, 0, l, h2);
    LoadStep(16, 168, l, GuestStep(LdrSp(0, 0), l, h2));
  }

  // The guest's registers as the frame at `base` has them.
  function FromFrame(m: Mem, base: int, x: Regs): Regs {
    seq<U64>(31, r requires 0 <= r < 31 => FrameReg(m, base, x, r))
  }

  function FrameReg(m: Mem, base: int, x: Regs, r: int): U64
    requires 0 <= r < 31
  {
    if r == 16 then Slot(m, base, 21)
    else if r <= 18 then Slot(m, base, r)
    else if r == 30 then Slot(m, base, 19)
    else x[r]
  }

  lemma BackRestores(l: Literals, g: Guest)
    requires g.sp + FRAME < TWO64
    ensures GuestRun(Back(), l, g) ==
            Guest(g.pc + 16, FromFrame(g.mem, g.sp, g.x), g.sp + FRAME, WordFlags(Slot(g.mem, g.sp, 20)), g.mem)
  {
    hide GuestRun, Load64, WordFlags, LoadPairs, LoadRest, LoadResume;
    var g1 := g.(pc := g.pc + 7, x := Reloaded(g, 7));
    LoadRegisters(7, l, g);
    LoadRestRuns(l, g1);
    var g2 := GuestRun(LoadRest(), l, g1);
    LoadResumeRuns(l, g2);
    var g3 := GuestRun(LoadResume(), l, g2);
    RunJoin(LoadPairs(7), LoadRest(), l, g);
    RunJoin(LoadPairs(7) + LoadRest(), LoadResume(), l, g);
    RunSnoc(LoadPairs(7) + LoadRest() + LoadResume(), AddSpImm(31, FRAME), l, g);
    assert g3.x == FromFrame(g.mem, g.sp, g.x);
  }

  // --- Control ---

  // After a step control is in the island, or at a target outside it.
  datatype Control = Inside(g: Guest) | Left(target: U64, g: Guest)

  // An address that an island of ISLAND_WORDS words can start at.
  predicate IslandAddress(at: int) {
    0 <= at && at + 4 * ISLAND_WORDS <= TWO64
  }

  // The instruction at pc of the island at address `at`; BLR leaves its return address
  // in x30.
  function IslandStep(l: Literals, at: int, g: Guest): Control
    requires IslandAddress(at) && 0 <= g.pc < |Code()|
  {
    CodeShape();
    match Code()[g.pc]
    case Blr(rn) => Left(X(g.x, rn), g.(x := g.x[30 := at + 4 * (g.pc + 1)]))
    case Br(rn) => Left(X(g.x, rn), g)
    case i => Inside(GuestStep(i, l, g))
  }

  // At most n steps, until control leaves the island.
  function IslandRun(l: Literals, at: int, g: Guest, n: nat): Control
    requires IslandAddress(at)
    decreases n
  {
    if n == 0 || !(0 <= g.pc < |Code()|) then Inside(g)
    else
      match IslandStep(l, at, g)
      case Left(t, g') => Left(t, g')
      case Inside(g') => IslandRun(l, at, g', n - 1)
  }

  lemma CodeShape()
    ensures |Front()| == 18 && |Back()| == 16 && |Code()| == 36
    ensures Code()[18] == Blr(16) && Code()[35] == Br(16)
    ensures forall j :: 0 <= j < 36 && j != 18 && j != 35 ==> !Code()[j].Blr? && !Code()[j].Br?
    ensures Code()[0..18] == Front() && Code()[19..35] == Back()
  {
    PairsShape(9);
    PairsShape(7);
    hide StorePairs, LoadPairs;
    var (f, b) := (Front(), Back());
    assert Code() == f + [Blr(16)] + b + [Br(16)];
    assert forall j :: 0 <= j < 18 ==> !f[j].Blr? && !f[j].Br?;
    assert forall j :: 0 <= j < 16 ==> !b[j].Blr? && !b[j].Br?;
  }

  lemma {:induction false} PairsShape(n: nat)
    requires n <= 9
    ensures |StorePairs(n)| == n && forall j :: 0 <= j < n ==> StorePairs(n)[j].StpSp?
    ensures n <= 7 ==> |LoadPairs(n)| == n && forall j :: 0 <= j < n ==> LoadPairs(n)[j].LdpSp?
  {
    if n > 0 {
      PairsShape(n - 1);
    }
  }

  // A stretch without calls and jumps runs straight through.
  lemma {:induction false} RunsThrough(l: Literals, at: int, g: Guest, n: nat, more: nat)
    requires IslandAddress(at) && 0 <= g.pc && g.pc + n <= |Code()|
    requires forall j :: g.pc <= j < g.pc + n ==> !Code()[j].Blr? && !Code()[j].Br?
    ensures var h := GuestRun(Code()[g.pc..g.pc + n], l, g);
            h.pc == g.pc + n && IslandRun(l, at, g, n + more) == IslandRun(l, at, h, more)
    decreases n
  {
    hide Code, Front, Back, GuestStep, IslandStep;
    var part := Code()[g.pc..g.pc + n];
    if n > 0 {
      var g' := GuestStep(Code()[g.pc], l, g);
      StaysInside(l, at, g);
      assert part[0] == Code()[g.pc] && part[1..] == Code()[g'.pc..g'.pc + (n - 1)];
      RunsThrough(l, at, g', n - 1, more);
    } else {
      assert part == [];
    }
  }

  lemma StaysInside(l: Literals, at: int, g: Guest)
    requires IslandAddress(at) && 0 <= g.pc < |Code()| && !Code()[g.pc].Blr? && !Code()[g.pc].Br?
    ensures IslandStep(l, at, g) == Inside(GuestStep(Code()[g.pc], l, g))
    ensures GuestStep(Code()[g.pc], l, g).pc == g.pc + 1
  {
    hide Code, Store64, Load64, FlagWord, WordFlags;
    StepAdvances(Code()[g.pc], l, g);
    hide GuestStep;
  }

  lemma StepAdvances(i: Instr, l: Literals, g: Guest)
    ensures GuestStep(i, l, g).pc == g.pc + 1
  {
  }

  lemma Leaves(l: Literals, at: int, h: Guest, n: nat)
    requires IslandAddress(at) && (h.pc == 18 || h.pc == 35) && n > 0
    ensures IslandRun(l, at, h, n) == Left(h.x[16], if h.pc == 18 then h.(x := h.x[30 := at + 4 * 19]) else h)
  {
    CodeShape();
    hide Code;
  }

  // From its first word the island calls the dispatcher.
  lemma IslandCalls(l: Literals, at: int, g: Guest)
    requires IslandAddress(at) && g.pc == 0
    ensures var f := GuestRun(Front(), l, g);
            IslandRun(l, at, g, 19) == Left(f.x[16], f.(x := f.x[30 := at + 4 * 19]))
  {
    hide Code, Front, Back, IslandRun, IslandStep, GuestRun;
    CodeShape();
    RunsThrough(l, at, g, 18, 1);
    Leaves(l, at, GuestRun(Front(), l, g), 1);
  }

  // From the word after the call it jumps to what it has reloaded into x16.
  lemma IslandJumps(l: Literals, at: int, back: Guest)
    requires IslandAddress(at) && back.pc == 19
    ensures var r := GuestRun(Back(), l, back);
            IslandRun(l, at, back, 17) == Left(r.x[16], r)
  {
    hide Code, Front, Back, IslandRun, IslandStep, GuestRun;
    CodeShape();
    RunsThrough(l, at, back, 16, 1);
    Leaves(l, at, GuestRun(Back(), l, back), 1);
  }

  // The AAPCS64 contract of the call: it returns to its link address with SP and the
  // callee-saved registers as they were.
  predicate Conforms(at: int, called: Guest, back: Guest) {
    && at + 4 * back.pc == called.x[30]
    && back.sp == called.sp && forall r :: 19 <= r <= 29 ==> back.x[r] == called.x[r]
  }

  // For every guest state and every conforming dispatcher, whatever it did to memory:
  // the island enters the dispatcher with the guest's registers in the frame it passes,
  // having written only the 192 bytes below SP. When the dispatcher returns, the island
  // hands the guest back its SP, the registers and flags of the frame as the dispatcher
  // left it and its callee-saved registers, and jumps to the frame's pc with that address
  // in x16: the word after the svc, unless the dispatcher changed it.
  lemma IslandReturns(l: Literals, at: int, g: Guest, back: Guest) returns (called: Guest, r: Guest)
    requires IslandAddress(at) && g.pc == 0 && FRAME <= g.sp
    requires IslandRun(l, at, g, 19).Left? ==> Conforms(at, IslandRun(l, at, g, 19).g, back)
    ensures IslandRun(l, at, g, 19) == Left(l.dispatcher, called)
    ensures var base := g.sp - FRAME;
            && (forall b :: b < base || g.sp <= b ==> Byte(called.mem, b) == Byte(g.mem, b))
            && (forall k :: 0 <= k < 19 ==> Slot(called.mem, base, k) == g.x[k])
            && Slot(called.mem, base, 19) == g.x[30] && Slot(called.mem, base, 20) == FlagWord(g.nzcv)
            && Slot(called.mem, base, 21) == l.resume
            && called.x[0] == base == called.sp
    ensures var base := g.sp - FRAME;
            && IslandRun(l, at, back, 17) == Left(Slot(back.mem, base, 21), r)
            && (Slot(back.mem, base, 21) == Slot(called.mem, base, 21) ==>
                  IslandRun(l, at, back, 17) == Left(l.resume, r) && r.x[16] == l.resume)
            && r.sp == g.sp && r.mem == back.mem && r.nzcv == WordFlags(Slot(back.mem, base, 20))
            && (forall k :: 0 <= k <= 15 || k == 17 || k == 18 ==> r.x[k] == Slot(back.mem, base, k))
            && r.x[30] == Slot(back.mem, base, 19)
            && r.x[16] == Slot(back.mem, base, 21)
            && (forall k :: 19 <= k <= 29 ==> r.x[k] == g.x[k])
  {
    hide GuestRun, WordFlags, FlagWord, WriteSlots, Load64, IslandRun, Code, Front, Back;
    var base := g.sp - FRAME;
    IslandCalls(l, at, g);
    FrontBuildsFrame(l, g);
    called := IslandRun(l, at, g, 19).g;
    IslandJumps(l, at, back);
    BackRestores(l, back);
    r := GuestRun(Back(), l, back);
    FrameHolds(l, g, base);
  }

  lemma FrameHolds(l: Literals, g: Guest, base: int)
    ensures var m := WriteSlots(g.mem, base, FrameOf(g, l));
            && (forall b :: b < base || base + FRAME <= b ==> Byte(m, b) == Byte(g.mem, b))
            && (forall k :: 0 <= k < 19 ==> Slot(m, base, k) == g.x[k])
            && Slot(m, base, 19) == g.x[30] && Slot(m, base, 20) == FlagWord(g.nzcv) && Slot(m, base, 21) == l.resume
  {
    hide WriteSlots, FlagWord, Load64;
    var f := FrameOf(g, l);
    forall b | b < base || base + FRAME <= b
      ensures Byte(WriteSlots(g.mem, base, f), b) == Byte(g.mem, b)
    {
      SlotsFrame(g.mem, base, f, b);
    }
    forall k | 0 <= k < 22
      ensures Slot(WriteSlots(g.mem, base, f), base, k) == f[k]
    {
      SlotWritten(g.mem, base, f, k);
    }
  }

  // --- Results ---

  const CARRY: nat := 0x2000_0000

  // set_success and set_failure on the frame's x0 and nzcv words.
  function ClearCarry(nzcv: U64): U64 {
    nzcv - (nzcv / CARRY) % 2 * CARRY
  }

  function SetCarry(nzcv: U64): U64 {
    nzcv + (1 - (nzcv / CARRY) % 2) * CARRY
  }

  // A dispatcher that ends in set_failure or set_success reports through the
  // guest's carry flag and leaves N, Z and V as they were.
  lemma CarryReports(f: Flags)
    ensures WordFlags(SetCarry(FlagWord(f))) == f.(c := true)
    ensures WordFlags(ClearCarry(FlagWord(f))) == f.(c := false)
  {
    hide WordFlags;
    CarryMoves(f);
    FlagsSurvive(f.(c := true));
    FlagsSurvive(f.(c := false));
  }

  lemma CarryBit(f: Flags)
    ensures (FlagWord(f) / CARRY) % 2 == Bit(f.c)
  {
    var hi := 2 * Bit(f.n) + Bit(f.z);
    DivModUnique(FlagWord(f), CARRY, 2 * hi + Bit(f.c), Bit(f.v) * 0x1000_0000);
    DivModUnique(2 * hi + Bit(f.c), 2, hi, Bit(f.c));
    hide FlagWord;
  }

  lemma CarryMoves(f: Flags)
    ensures SetCarry(FlagWord(f)) == FlagWord(f.(c := true))
    ensures ClearCarry(FlagWord(f)) == FlagWord(f.(c := false))
  {
    CarryBit(f);
  }

  // --- The emitted words ---

  function Low(v: U64): U32 { v % TWO32 }
  function High(v: U64): U32 { v / TWO32 }

  lemma CodeFits(j: nat)
    requires j < |Code()|
    ensures |Code()| == 36 && FieldsFit(Code()[j])
    ensures Masked(Code()[j]) == Code()[j] && !Code()[j].Other?
  {
    assert |Front()| == 18 && |Back()| == 16;
    var i := Code()[j];
    if j < 18 {
      assert i == Front()[j];
    } else if 18 < j < 35 {
      assert i == Back()[j - 19];
    }
  }

  // emit_island: 36 instructions, NOPs up to word 92, then the two literals.
  function IslandWords(l: Literals): seq<U32> {
    seq(ISLAND_WORDS, j requires 0 <= j < ISLAND_WORDS =>
      if j < 36 then (CodeFits(j); Encode(Code()[j]))
      else if j < ISLAND_WORDS - 4 then ENC_NOP
      else if j == ISLAND_WORDS - 4 then Low(l.dispatcher)
      else if j == ISLAND_WORDS - 3 then High(l.dispatcher)
      else if j == ISLAND_WORDS - 2 then Low(l.resume)
      else High(l.resume))
  }

  // The words decode to the instructions.
  lemma WordsDecode(l: Literals, j: nat)
    requires j < 36
    ensures |Code()| == 36 && Decode(IslandWords(l)[j]) == Code()[j]
  {
    CodeFits(j);
    DecodeEncode(Code()[j]);
    hide Decode, Encode, Code;
  }

  // The literal pairs hold the two addresses that the PC-relative loads read.
  lemma LiteralsStored(l: Literals)
    ensures IslandWords(l)[92] + TWO32 * IslandWords(l)[93] == l.dispatcher
    ensures IslandWords(l)[94] + TWO32 * IslandWords(l)[95] == l.resume
  {
    hide Encode, Code, Low, High;
    Halves(l.dispatcher);
    Halves(l.resume);
  }

  lemma Halves(v: U64)
    ensures Low(v) + TWO32 * High(v) == v
  {
  }

  // What lies at each place of the island.
  lemma WordOf(l: Literals, j: nat)
    requires j < ISLAND_WORDS
    ensures |IslandWords(l)| == ISLAND_WORDS && |Code()| == 36
    ensures j < 36 ==> FieldsFit(Code()[j]) && IslandWords(l)[j] == Encode(Code()[j])
    ensures 36 <= j < ISLAND_WORDS - 4 ==> IslandWords(l)[j] == ENC_NOP
  {
    CodeFits(0);
    hide Encode, Code, Low, High;
    if j < 36 {
      CodeFits(j);
    }
  }

  lemma LastWords(l: Literals)
    ensures |IslandWords(l)| == ISLAND_WORDS
    ensures IslandWords(l)[ISLAND_WORDS - 4] == Low(l.dispatcher) && IslandWords(l)[ISLAND_WORDS - 3] == High(l.dispatcher)
    ensures IslandWords(l)[ISLAND_WORDS - 2] == Low(l.resume) && IslandWords(l)[ISLAND_WORDS - 1] == High(l.resume)
  {
    hide Encode, Code, Low, High;
  }

  method EmitIsland(island: array<U32>, at: nat, l: Literals)
    requires at + ISLAND_WORDS <= island.Length
    modifies island
    ensures island[at..at + ISLAND_WORDS] == IslandWords(l)
    ensures forall j :: 0 <= j < island.Length && (j < at || at + ISLAND_WORDS <= j) ==> island[j] == old(island[j])
  {
    hide Encode, Code, IslandWords, Low, High, FieldsFit;
    ghost var words := IslandWords(l);
    WordOf(l, 0);
    LastWords(l);
    var code := Code();
    var p := 0;
    while p < |code|
      invariant 0 <= p <= |code| == 36
      invariant forall j :: 0 <= j < p ==> island[at + j] == words[j]
      invariant forall j :: 0 <= j < island.Length && (j < at || at + p <= j) ==> island[j] == old(island[j])
    {
      WordOf(l, p);
      island[at + p] := Encode(code[p]);
      p := p + 1;
    }
    while p < ISLAND_WORDS - 4
      invariant 36 <= p <= ISLAND_WORDS - 4
      invariant forall j :: 0 <= j < p ==> island[at + j] == words[j]
      invariant forall j :: 0 <= j < island.Length && (j < at || at + p <= j) ==> island[j] == old(island[j])
    {
      WordOf(l, p);
      island[at + p] := ENC_NOP;
      p := p + 1;
    }
    island[at + p], island[at + p + 1] := Low(l.dispatcher), High(l.dispatcher);
    island[at + p + 2], island[at + p + 3] := Low(l.resume), High(l.resume);
  }
}
