// One A64 core running an instruction sequence: registers, stack pointer,
// flags, a local exclusive monitor, and memory shared with other cores.
module Machine {
  import opened Bits
  import opened Options
  import opened Memory
  import opened A64
  import opened Lse

  datatype Flags = Flags(n: bool, z: bool, c: bool, v: bool)

  type Regs = s: seq<U64> | |s| == 31 witness seq(31, i => 0)

  datatype Cell = Cell(addr: int, bytes: nat)

  datatype Cpu = Cpu(pc: int, x: Regs, sp: U64, nzcv: Flags, monitor: Option<Cell>)

  function X(x: Regs, r: Reg): U64 {
    if r == 31 then 0 else x[r]
  }

  function SetX(x: Regs, r: Reg, v: U64): Regs {
    if r == 31 then x else x[r := v]
  }

  function Bit(b: bool): nat {
    if b then 1 else 0
  }

  // NZCV as MRS reads it and MSR writes it: bits 31..28.
  function FlagWord(f: Flags): U64 {
    Bit(f.n) * 0x8000_0000 + Bit(f.z) * 0x4000_0000 + Bit(f.c) * 0x2000_0000 + Bit(f.v) * 0x1000_0000
  }

  function WordFlags(w: U64): Flags {
    Flags((w / 0x8000_0000) % 2 == 1, (w / 0x4000_0000) % 2 == 1, (w / 0x2000_0000) % 2 == 1, (w / 0x1000_0000) % 2 == 1)
  }

  lemma FlagsSurvive(f: Flags)
    ensures WordFlags(FlagWord(f)) == f
  {
  }

  // The part of a register an operation of this width reads.
  function View(is64: bool, v: U64): U64 {
    if is64 then v else v % TWO32
  }

  function WidthOf(is64: bool): nat {
    if is64 then TWO64 else TWO32
  }

  function AluValue(op: AluOp, is64: bool, a: U64, b: U64): U64 {
    if op == ADD then (View(is64, a) + View(is64, b)) % WidthOf(is64)
    else
      BitwiseFits(BitOpOf(op), is64, a, b);
      Bitwise(BitOpOf(op), View(is64, a), View(is64, b))
  }

  function BitOpOf(op: AluOp): BitOp
    requires op != ADD
  {
    match op
    case BIC => AndNot
    case EOR => Xor
    case ORR => Or
  }

  lemma BitwiseFits(op: BitOp, is64: bool, a: U64, b: U64)
    ensures Bitwise(op, View(is64, a), View(is64, b)) < WidthOf(is64)
  {
    Pow2Values();
    BitwiseBound(op, if is64 then 64 else 32, View(is64, a), View(is64, b));
  }

  // The flags SUBS sets for a - b at width w.
  function CmpFlags(w: nat, a: nat, b: nat): Flags
    requires a < w && b < w
  {
    var r := (a - b) % w;
    Flags(r >= w / 2, r == 0, a >= b, (a >= w / 2) != (b >= w / 2) && (r >= w / 2) != (a >= w / 2))
  }

  // ConditionHolds of the architecture, for all sixteen conditions.
  predicate Holds(cond: Reg, f: Flags) {
    var base :=
      match cond / 2 % 8
      case 0 => f.z
      case 1 => f.c
      case 2 => f.n
      case 3 => f.v
      case 4 => f.c && !f.z
      case 5 => f.n == f.v
      case 6 => f.n == f.v && !f.z
      case _ => true;
    if cond % 2 == 1 && cond % 16 != 15 then !base else base
  }

  // After a compare, the conditions the islands use mean what they say.
  lemma CompareMeans(w: nat, a: nat, b: nat)
    requires a < w && b < w && w % 2 == 0
    ensures var f := CmpFlags(w, a, b);
            && (Holds(EQ, f) <==> a == b) && (Holds(NE, f) <==> a != b)
            && (Holds(LO, f) <==> a < b) && (Holds(HI, f) <==> a > b)
            && (Holds(LT, f) <==> Signed(a, w) < Signed(b, w))
            && (Holds(GT, f) <==> Signed(a, w) > Signed(b, w))
  {
    if a >= b {
      DivModUnique(a - b, w, 0, a - b);
    } else {
      DivModUnique(a - b, w, -1, a - b + w);
    }
  }

  datatype Local = Local(x: Regs, nzcv: Flags)

  // Instructions that touch registers and flags alone.
  function LocalStep(i: Instr, l: Local): Local {
    match i
    case Alu(op, is64, rd, rn, rm) => l.(x := SetX(l.x, rd, AluValue(op, is64, X(l.x, rn), X(l.x, rm))))
    case Cmp(is64, rn, rm) =>
      l.(nzcv := CmpFlags(WidthOf(is64), View(is64, X(l.x, rn)), View(is64, X(l.x, rm))))
    case Csel(is64, rd, rn, rm, cond) =>
      l.(x := SetX(l.x, rd, View(is64, X(l.x, if Holds(cond, l.nzcv) then rn else rm))))
    case Sxtb(rd, rn) => l.(x := SetX(l.x, rd, Signed(X(l.x, rn) % 0x100, 0x100) % TWO32))
    case Sxth(rd, rn) => l.(x := SetX(l.x, rd, Signed(X(l.x, rn) % 0x1_0000, 0x1_0000) % TWO32))
    case MrsNzcv(rt) => l.(x := SetX(l.x, rt, FlagWord(l.nzcv)))
    case MsrNzcv(rt) => l.(nzcv := WordFlags(X(l.x, rt)))
    case _ => l
  }

  function RunLocal(code: seq<Instr>, l: Local): Local {
    if code == [] then l else RunLocal(code[1..], LocalStep(code[0], l))
  }

  // The base register of a load or store: register 31 is the stack pointer.
  function Base(p: Cpu, rn: Reg): U64 {
    if rn == 31 then p.sp else p.x[rn]
  }

  // One instruction. A store-exclusive succeeds when the monitor still covers
  // its cell and `ok` grants it; hardware may refuse for reasons of its own.
  function Step(i: Instr, p: Cpu, m: Mem, ok: bool): (Cpu, Mem) {
    match i
    case StrPre(rt) =>
      var sp := (p.sp - 16) % TWO64;
      (p.(pc := p.pc + 1, sp := sp), Store(m, sp, 8, X(p.x, rt)))
    case LdrPost(rt) =>
      (p.(pc := p.pc + 1, x := SetX(p.x, rt, Load64(m, p.sp)), sp := (p.sp + 16) % TWO64), m)
    case Ldxr(size, _, rt, rn) =>
      var a := Base(p, rn);
      (p.(pc := p.pc + 1, x := SetX(p.x, rt, LoadSized(m, a, size)), monitor := Some(Cell(a, Bytes(size)))), m)
    case Stxr(size, _, rs, rt, rn) =>
      var cell := Cell(Base(p, rn), Bytes(size));
      if ok && p.monitor == Some(cell)
      then (p.(pc := p.pc + 1, x := SetX(p.x, rs, 0), monitor := None), Store(m, cell.addr, cell.bytes, X(p.x, rt)))
      else (p.(pc := p.pc + 1, x := SetX(p.x, rs, 1), monitor := None), m)
    case Clrex => (p.(pc := p.pc + 1, monitor := None), m)
    case BCond(cond, offset) => (p.(pc := p.pc + if Holds(cond, p.nzcv) then offset else 1), m)
    case CbnzW(rt, offset) => (p.(pc := p.pc + if X(p.x, rt) % TWO32 != 0 then offset else 1), m)
    case B(offset) => (p.(pc := p.pc + offset), m)
    case _ =>
      var l := LocalStep(i, Local(p.x, p.nzcv));
      (p.(pc := p.pc + 1, x := l.x, nzcv := l.nzcv), m)
  }

  function Displacement(i: Instr, p: Cpu): int {
    match i
    case BCond(cond, offset) => if Holds(cond, p.nzcv) then offset else 1
    case CbnzW(rt, offset) => if X(p.x, rt) % TWO32 != 0 then offset else 1
    case B(offset) => offset
    case _ => 1
  }

  lemma StepMoves(i: Instr, p: Cpu, m: Mem, ok: bool)
    ensures Step(i, p, m, ok).0.pc == p.pc + Displacement(i, p)
  {
  }

  function Load64(m: Mem, a: int): U64 {
    Pow2Values();
    LoadBound(m, a, 8);
    Load(m, a, 8)
  }

  lemma Load64Stored(m: Mem, a: int, v: U64)
    ensures Load64(Store(m, a, 8, v), a) == v
  {
    LoadStored(m, a, 8, v);
    Pow2Values();
  }

  function LoadSized(m: Mem, a: int, size: nat): (v: U64)
    ensures v < Span(size)
  {
    SpanIsPow2(size);
    LoadBound(m, a, Bytes(size));
    Load(m, a, Bytes(size))
  }
}
