// emit_island of isa_emul.c as instruction sequences, and what holds of a core
// at each of its instructions.
module Island {
  import opened Bits
  import opened Memory
  import opened A64
  import opened Lse
  import opened Machine

  // pick_scratch: registers 16 down to 9, then 17 up to 28, then 8.
  function PickDown(used: set<Reg>, r: Reg): (s: Reg)
    requires 8 <= r <= 16
    ensures 8 <= s <= r
    ensures s > 8 ==> s !in used
    ensures s == 8 ==> forall k: Reg :: 9 <= k <= r ==> k in used
  {
    if r == 8 then 8 else if r !in used then r else PickDown(used, r - 1)
  }

  function PickUp(used: set<Reg>, r: int): (s: Reg)
    requires 17 <= r <= 29
    ensures s == 8 || (17 <= s <= 28 && s !in used)
    decreases 29 - r
  {
    if r == 29 then 8 else if r !in used then r else PickUp(used, r + 1)
  }

  function PickScratch(used: set<Reg>): (s: Reg)
    ensures (exists k: Reg :: 9 <= k <= 16 && k !in used) ==> s !in used && 9 <= s <= 16
  {
    var s := PickDown(used, 16);
    if s > 8 then s else PickUp(used, 17)
  }

  // An LSE instruction with the scratch registers its island uses.
  datatype Plan = Plan(d: Lse, s1: Reg, s2: Reg, s3: Reg) {
    // The scratch registers are distinct, are no operand, and none is x31.
    predicate Ok() {
      && s1 < 31 && s2 < 31 && s3 < 31
      && s1 != s2 && s1 != s3 && s2 != s3
      && d.rs != s1 && d.rs != s2 && d.rs != s3
      && d.rt != s1 && d.rt != s2 && d.rt != s3
      && d.rn != s1 && d.rn != s2 && d.rn != s3
    }
  }

  function PlanFor(d: Lse): Plan {
    var used := {31, d.rs, d.rt, d.rn};
    var s1 := PickScratch(used);
    var s2 := PickScratch(used + {s1});
    Plan(d, s1, s2, PickScratch(used + {s1, s2}))
  }

  // The register choice always works out: the fallback to x8 is never taken.
  lemma PlanOk(d: Lse)
    ensures PlanFor(d).Ok()
    ensures 9 <= PlanFor(d).s1 <= 16 && 9 <= PlanFor(d).s2 <= 16 && 9 <= PlanFor(d).s3 <= 16
  {
    var used: set<Reg> := {31, d.rs, d.rt, d.rn};
    FreeIsPicked(used, if 16 !in used then 16 else if 15 !in used then 15 else if 14 !in used then 14 else 13);
    used := used + {PlanFor(d).s1};
    FreeIsPicked(used, if 16 !in used then 16 else if 15 !in used then 15 else if 14 !in used then 14
                       else if 13 !in used then 13 else 12);
    used := {31, d.rs, d.rt, d.rn} + {PlanFor(d).s1, PlanFor(d).s2};
    FreeIsPicked(used, if 16 !in used then 16 else if 15 !in used then 15 else if 14 !in used then 14
                       else if 13 !in used then 13 else if 12 !in used then 12 else 11);
  }

  lemma FreeIsPicked(used: set<Reg>, k: Reg)
    requires 9 <= k <= 16 && k !in used
    ensures PickScratch(used) !in used && 9 <= PickScratch(used) <= 16
  {
  }

  function Saves(k: Plan): seq<Reg> {
    if k.d.op == CAS then [k.s1, k.s2] else [k.s1, k.s2, k.s3]
  }

  function LoadReg(k: Plan): Reg { if k.d.op == CAS then k.s2 else k.s1 }
  function NewReg(k: Plan): Reg { if k.d.op == CAS then k.d.rt else k.s2 }
  function StatusReg(k: Plan): Reg { if k.d.op == CAS then k.s1 else k.s3 }
  function DestReg(k: Plan): Reg { if k.d.op == CAS then k.d.rs else k.d.rt }
  predicate IsX(k: Plan) { k.d.size == 3 }

  // The computation between the load-exclusive and the store-exclusive.
  function Body(k: Plan): seq<Instr> {
    var was, next, is64 := k.s1, k.s2, IsX(k);
    match k.d.op
    case LDADD => [Alu(ADD, is64, next, was, k.d.rs)]
    case LDCLR => [Alu(BIC, is64, next, was, k.d.rs)]
    case LDEOR => [Alu(EOR, is64, next, was, k.d.rs)]
    case LDSET => [Alu(ORR, is64, next, was, k.d.rs)]
    case SWP => [Mov(is64, next, k.d.rs)]
    case LDUMAX => [Cmp(is64, was, k.d.rs), Csel(is64, next, k.d.rs, was, LO)]
    case LDUMIN => [Cmp(is64, was, k.d.rs), Csel(is64, next, k.d.rs, was, HI)]
    case LDSMAX => SignedCompare(k) + [Csel(is64, next, k.d.rs, was, LT)]
    case LDSMIN => SignedCompare(k) + [Csel(is64, next, k.d.rs, was, GT)]
    case CAS => [Cmp(is64, k.s2, k.d.rs)]
  }

  function SignedCompare(k: Plan): seq<Instr> {
    if k.d.size == 0 then [Sxtb(k.s2, k.s1), Sxtb(k.s3, k.d.rs), Cmp(false, k.s2, k.s3)]
    else if k.d.size == 1 then [Sxth(k.s2, k.s1), Sxth(k.s3, k.d.rs), Cmp(false, k.s2, k.s3)]
    else [Cmp(IsX(k), k.s1, k.d.rs)]
  }

  // CAS leaves the loop when the comparison failed, three words ahead.
  function Check(k: Plan): seq<Instr> {
    if k.d.op == CAS then [BCond(NE, 3)] else []
  }

  function After(k: Plan): seq<Instr> {
    (if k.d.op == CAS then [Clrex] else [])
    + if DestReg(k) != 31 then [Mov(IsX(k), DestReg(k), LoadReg(k))] else []
  }

  function Pushes(rs: seq<Reg>): seq<Instr> {
    seq(|rs|, i requires 0 <= i < |rs| => StrPre(rs[i]))
  }

  function Pops(rs: seq<Reg>): seq<Instr> {
    seq(|rs|, i requires 0 <= i < |rs| => LdrPost(rs[|rs| - 1 - i]))
  }

  function Prologue(k: Plan): seq<Instr> {
    Pushes(Saves(k)) + [MrsNzcv(k.s1), StrPre(k.s1)]
  }

  function Loop(k: Plan): seq<Instr> {
    [Ldxr(k.d.size, k.d.acquire, LoadReg(k), k.d.rn)] + Body(k) + Check(k)
    + [Stxr(k.d.size, k.d.release, StatusReg(k), NewReg(k), k.d.rn),
       CbnzW(StatusReg(k), -(2 + |Body(k)| + |Check(k)|))]
  }

  function Epilogue(k: Plan): seq<Instr> {
    [LdrPost(k.s1), MsrNzcv(k.s1)] + Pops(Saves(k))
  }

  function Straight(k: Plan): seq<Instr> {
    Prologue(k) + Loop(k) + After(k) + Epilogue(k)
  }

  // The whole island; ret is the return address, in words from its start.
  function IslandCode(k: Plan, ret: int): seq<Instr> {
    Straight(k) + [B(ret - |Straight(k)|)]
  }

  // No island exceeds the 24 words the patcher reserves for it.
  lemma IslandFits(k: Plan, ret: int)
    ensures 15 <= |IslandCode(k, ret)| <= 20
  {
  }

  datatype Phase =
    | Push(i: nat) | ReadFlags | PushFlags | LoadExclusive | Compute(j: nat) | Branch
    | StoreExclusive | Retry | Finish(j: nat) | PopFlags | WriteFlags | Pop(i: nat) | Return

  function LoopAt(k: Plan): nat { |Saves(k)| + 2 }
  function StoreAt(k: Plan): nat { LoopAt(k) + 1 + |Body(k)| + |Check(k)| }
  function PopAt(k: Plan): nat { StoreAt(k) + 2 + |After(k)| }
  function ReturnAt(k: Plan): nat { PopAt(k) + 2 + |Saves(k)| }

  function PhaseOf(k: Plan, pc: nat): Phase
    requires pc <= ReturnAt(k)
  {
    if pc < |Saves(k)| then Push(pc)
    else if pc == |Saves(k)| then ReadFlags
    else if pc == |Saves(k)| + 1 then PushFlags
    else if pc == LoopAt(k) then LoadExclusive
    else if pc <= LoopAt(k) + |Body(k)| then Compute(pc - LoopAt(k) - 1)
    else if pc < StoreAt(k) then Branch
    else if pc == StoreAt(k) then StoreExclusive
    else if pc == StoreAt(k) + 1 then Retry
    else if pc < PopAt(k) then Finish(pc - StoreAt(k) - 2)
    else if pc == PopAt(k) then PopFlags
    else if pc == PopAt(k) + 1 then WriteFlags
    else if pc < ReturnAt(k) then Pop(ReturnAt(k) - 1 - pc)
    else Return
  }

  function InstrOf(k: Plan, ret: int, ph: Phase): Instr
    requires ph.Push? || ph.Pop? ==> ph.i < |Saves(k)|
    requires ph.Compute? ==> ph.j < |Body(k)|
    requires ph.Finish? ==> ph.j < |After(k)|
  {
    match ph
    case Push(i) => StrPre(Saves(k)[i])
    case ReadFlags => MrsNzcv(k.s1)
    case PushFlags => StrPre(k.s1)
    case LoadExclusive => Ldxr(k.d.size, k.d.acquire, LoadReg(k), k.d.rn)
    case Compute(j) => Body(k)[j]
    case Branch => BCond(NE, 3)
    case StoreExclusive => Stxr(k.d.size, k.d.release, StatusReg(k), NewReg(k), k.d.rn)
    case Retry => CbnzW(StatusReg(k), -(2 + |Body(k)| + |Check(k)|))
    case Finish(j) => After(k)[j]
    case PopFlags => LdrPost(k.s1)
    case WriteFlags => MsrNzcv(k.s1)
    case Pop(i) => LdrPost(Saves(k)[i])
    case Return => B(ret - ReturnAt(k))
  }

  lemma PrologueAt(k: Plan, ret: int, pc: nat)
    requires pc < LoopAt(k)
    ensures |Prologue(k)| == LoopAt(k) && Prologue(k)[pc] == InstrOf(k, ret, PhaseOf(k, pc))
  {
  }

  lemma JoinAt(i: Instr, body: seq<Instr>, check: seq<Instr>, last: seq<Instr>, k: nat)
    requires k < 1 + |body| + |check| + |last|
    ensures ([i] + body + check + last)[k] ==
            if k == 0 then i
            else if k <= |body| then body[k - 1]
            else if k <= |body| + |check| then check[k - 1 - |body|]
            else last[k - 1 - |body| - |check|]
  {
  }

  lemma LoopPartAt(k: Plan, ret: int, pc: nat)
    requires LoopAt(k) <= pc < StoreAt(k) + 2
    ensures |Loop(k)| == StoreAt(k) + 2 - LoopAt(k)
    ensures Loop(k)[pc - LoopAt(k)] == InstrOf(k, ret, PhaseOf(k, pc))
  {
    var body, check := Body(k), Check(k);
    JoinAt(Ldxr(k.d.size, k.d.acquire, LoadReg(k), k.d.rn), body, check,
           [Stxr(k.d.size, k.d.release, StatusReg(k), NewReg(k), k.d.rn), CbnzW(StatusReg(k), -(2 + |body| + |check|))],
           pc - LoopAt(k));
  }

  lemma EpilogueAt(k: Plan, ret: int, pc: nat)
    requires PopAt(k) <= pc < ReturnAt(k)
    ensures |Epilogue(k)| == ReturnAt(k) - PopAt(k)
    ensures Epilogue(k)[pc - PopAt(k)] == InstrOf(k, ret, PhaseOf(k, pc))
  {
  }

  lemma PartsAt(a: seq<Instr>, b: seq<Instr>, c: seq<Instr>, e: seq<Instr>, i: Instr, k: nat)
    requires k <= |a| + |b| + |c| + |e|
    ensures (a + b + c + e + [i])[k] ==
            if k < |a| then a[k]
            else if k < |a| + |b| then b[k - |a|]
            else if k < |a| + |b| + |c| then c[k - |a| - |b|]
            else if k < |a| + |b| + |c| + |e| then e[k - |a| - |b| - |c|]
            else i
  {
  }

  // The emitted sequence has each phase's instruction at that phase's address.
  lemma CodeAt(k: Plan, ret: int, pc: nat)
    requires pc <= ReturnAt(k)
    ensures |IslandCode(k, ret)| == ReturnAt(k) + 1
    ensures IslandCode(k, ret)[pc] == InstrOf(k, ret, PhaseOf(k, pc))
  {
    PrologueAt(k, ret, 0);
    LoopPartAt(k, ret, LoopAt(k));
    EpilogueAt(k, ret, PopAt(k));
    PartsAt(Prologue(k), Loop(k), After(k), Epilogue(k), B(ret - ReturnAt(k)), pc);
    if pc < LoopAt(k) {
      PrologueAt(k, ret, pc);
    } else if pc < StoreAt(k) + 2 {
      LoopPartAt(k, ret, pc);
    } else if PopAt(k) <= pc < ReturnAt(k) {
      EpilogueAt(k, ret, pc);
    }
  }

  predicate PhaseOk(k: Plan, ph: Phase) {
    && (ph.Push? || ph.Pop? ==> ph.i < |Saves(k)|)
    && (ph.Compute? ==> ph.j < |Body(k)|)
    && (ph.Finish? ==> ph.j < |After(k)|)
    && (ph.Branch? ==> k.d.op == CAS)
  }

  function PcOf(k: Plan, ph: Phase): nat
    requires PhaseOk(k, ph)
  {
    match ph
    case Push(i) => i
    case ReadFlags => |Saves(k)|
    case PushFlags => |Saves(k)| + 1
    case LoadExclusive => LoopAt(k)
    case Compute(j) => LoopAt(k) + 1 + j
    case Branch => StoreAt(k) - 1
    case StoreExclusive => StoreAt(k)
    case Retry => StoreAt(k) + 1
    case Finish(j) => StoreAt(k) + 2 + j
    case PopFlags => PopAt(k)
    case WriteFlags => PopAt(k) + 1
    case Pop(i) => ReturnAt(k) - 1 - i
    case Return => ReturnAt(k)
  }

  lemma PhaseAt(k: Plan, pc: nat)
    requires pc <= ReturnAt(k)
    ensures PhaseOk(k, PhaseOf(k, pc)) && PcOf(k, PhaseOf(k, pc)) == pc
  {
  }

  lemma PcAt(k: Plan, ph: Phase)
    requires PhaseOk(k, ph)
    ensures PcOf(k, ph) <= ReturnAt(k) && PhaseOf(k, PcOf(k, ph)) == ph
  {
  }

  // Where control goes from a phase other than Return, given whether the
  // phase's own branch, if it has one, is taken.
  function NextPhase(k: Plan, ph: Phase, taken: bool): (n: Phase)
    requires PhaseOk(k, ph) && ph != Return
    ensures PhaseOk(k, n)
  {
    match ph
    case Push(i) => if i + 1 < |Saves(k)| then Push(i + 1) else ReadFlags
    case ReadFlags => PushFlags
    case PushFlags => LoadExclusive
    case LoadExclusive => Compute(0)
    case Compute(j) =>
      if j + 1 < |Body(k)| then Compute(j + 1) else if k.d.op == CAS then Branch else StoreExclusive
    case Branch => if taken then Finish(0) else StoreExclusive
    case StoreExclusive => Retry
    case Retry => if taken then LoadExclusive else if |After(k)| > 0 then Finish(0) else PopFlags
    case Finish(j) => if j + 1 < |After(k)| then Finish(j + 1) else PopFlags
    case PopFlags => WriteFlags
    case WriteFlags => Pop(|Saves(k)| - 1)
    case Pop(i) => if i > 0 then Pop(i - 1) else Return
  }

  predicate Taken(k: Plan, ph: Phase, p: Cpu) {
    (ph.Branch? && Holds(NE, p.nzcv)) || (ph.Retry? && X(p.x, StatusReg(k)) % TWO32 != 0)
  }

  // Instructions that only compute.
  predicate Computes(i: Instr) {
    i.Alu? || i.Cmp? || i.Csel? || i.Sxtb? || i.Sxth? || i.MrsNzcv? || i.MsrNzcv?
  }

  lemma BodyOnlyComputes(k: Plan, j: nat)
    requires j < |Body(k)|
    ensures Computes(Body(k)[j])
  {
  }

  // Executing a phase's instruction leads to the next phase.
  lemma Control(k: Plan, ret: int, ph: Phase, p: Cpu, m: Mem, ok: bool)
    requires PhaseOk(k, ph) && ph != Return && p.pc == PcOf(k, ph)
    ensures Step(InstrOf(k, ret, ph), p, m, ok).0.pc == PcOf(k, NextPhase(k, ph, Taken(k, ph, p)))
  {
    StepMoves(InstrOf(k, ret, ph), p, m, ok);
    Displaces(k, ret, ph, p);
  }

  lemma Displaces(k: Plan, ret: int, ph: Phase, p: Cpu)
    requires PhaseOk(k, ph) && ph != Return
    ensures PcOf(k, ph) + Displacement(InstrOf(k, ret, ph), p) == PcOf(k, NextPhase(k, ph, Taken(k, ph, p)))
  {
    match ph
    case Compute(j) => BodyOnlyComputes(k, j);
    case _ =>
  }
}
