// What holds of a core at every instruction of an LSE island, whatever other
// cores do to memory outside its stack window.
module IslandThread {
  import opened Bits
  import opened Options
  import opened Memory
  import opened A64
  import opened Lse
  import opened Machine
  import opened Island
  import opened IslandBody

  // The guest's state at the patched instruction; ret is the address of the
  // next guest instruction in words from the island.
  datatype Call = Call(k: Plan, x: Regs, sp: U64, nzcv: Flags, ret: int)

  const WINDOW: int := 64

  // The island moves SP, so an operand addressed through SP is out; the pushes
  // need room and must not hit the operand.
  predicate Admissible(c: Call) {
    && c.k.Ok() && c.k.d.size < 4
    && c.k.d.rn != 31
    && WINDOW <= c.sp
    && Disjoint(c.x[c.k.d.rn], Bytes(c.k.d.size), c.sp - WINDOW, WINDOW)
  }

  function CellOf(c: Call): Cell
    requires c.k.Ok() && c.k.d.rn != 31
  {
    Cell(c.x[c.k.d.rn], Bytes(c.k.d.size))
  }

  function SaveVals(c: Call): seq<U64> {
    seq(|Saves(c.k)|, i requires 0 <= i < |Saves(c.k)| => X(c.x, Saves(c.k)[i]))
  }

  // What lies on the stack, first push first.
  function Pushed(c: Call, ph: Phase): seq<U64> {
    var vals, k := SaveVals(c), |Saves(c.k)|;
    match ph
    case Push(i) => if i <= k then vals[..i] else vals
    case ReadFlags => vals
    case PushFlags => vals
    case WriteFlags => vals
    case Pop(i) => if i < k then vals[..i + 1] else vals
    case Return => []
    case _ => vals + [FlagWord(c.nzcv)]
  }

  predicate OnStack(m: Mem, sp: int, vals: seq<U64>) {
    forall i :: 0 <= i < |vals| ==> Load64(m, sp - 16 * (i + 1)) == vals[i]
  }

  // The guest's registers after the instruction, given the value it read.
  function Result(c: Call, was: U64): Regs {
    SetX(c.x, DestReg(c.k), was)
  }

  predicate MonitorOk(c: Call, p: Cpu, m: Mem, was: nat)
    requires c.k.Ok() && c.k.d.rn != 31
  {
    p.monitor == None || (p.monitor == Some(CellOf(c)) && LoadSized(m, c.x[c.k.d.rn], c.k.d.size) == was)
  }

  // lin is the value the instruction has read, once it has taken effect.
  predicate InLoop(c: Call, p: Cpu, l: Local, lin: Option<U64>, m: Mem)
    requires c.k.Ok() && c.k.d.rn != 31
  {
    var was := l.x[LoadReg(c.k)];
    && Computed(c.k, c.x, l, was)
    && MonitorOk(c, p, m, was)
    && lin == if Stores(c.k, c.x, was) then None else Some(was)
  }

  // The scratch registers still to be popped when the i-th save is next.
  function Unrestored(k: Plan, i: nat): set<Reg> {
    if i == 0 then {k.s1} else if i == 1 then {k.s1, k.s2} else {k.s1, k.s2, k.s3}
  }

  predicate At(c: Call, p: Cpu, lin: Option<U64>, m: Mem, ph: Phase)
    requires c.k.Ok() && c.k.d.rn != 31
  {
    var k, l := c.k, Local(p.x, p.nzcv);
    match ph
    case Push(i) => l == Local(c.x, c.nzcv) && lin == None
    case ReadFlags => l == Local(c.x, c.nzcv) && lin == None
    case PushFlags => l == Local(SetX(c.x, k.s1, FlagWord(c.nzcv)), c.nzcv) && lin == None
    case LoadExclusive => Agree(p.x, c.x, Scratch(k)) && lin == None
    case Compute(j) => j < |Body(k)| && InLoop(c, p, RunLocal(Body(k)[j..], l), lin, m)
    case Branch => k.d.op == CAS && InLoop(c, p, l, lin, m)
    case StoreExclusive => lin == None && InLoop(c, p, l, lin, m)
    case Retry =>
      && Agree(p.x, c.x, Scratch(k))
      && (p.x[StatusReg(k)] % TWO32 == 0 <==> lin.Some?)
      && (lin.Some? ==> p.x[LoadReg(k)] == lin.value < Span(k.d.size))
    case Finish(j) =>
      && j < |After(k)| && lin.Some?
      && Agree(RunLocal(After(k)[j..], l).x, Result(c, lin.value), Scratch(k))
    case PopFlags => lin.Some? && Agree(p.x, Result(c, lin.value), Scratch(k))
    case WriteFlags =>
      && lin.Some? && Agree(p.x, Result(c, lin.value), Scratch(k))
      && p.x[k.s1] == FlagWord(c.nzcv)
    case Pop(i) =>
      && i < |Saves(k)| && lin.Some? && p.nzcv == c.nzcv
      && Agree(p.x, Result(c, lin.value), Unrestored(k, i))
    case Return => lin.Some? && l == Local(Result(c, lin.value), c.nzcv)
  }

  // The invariant of a core that runs the island of c and is at phase ph.
  predicate Inv(c: Call, p: Cpu, lin: Option<U64>, m: Mem, ph: Phase) {
    && Admissible(c) && PhaseOk(c.k, ph)
    && p.sp == c.sp - 16 * |Pushed(c, ph)|
    && OnStack(m, c.sp, Pushed(c, ph))
    && At(c, p, lin, m, ph)
  }

  predicate Granted(c: Call, p: Cpu, ok: bool)
    requires c.k.Ok() && c.k.d.rn != 31
  {
    ok && p.monitor == Some(CellOf(c))
  }

  // When the instruction takes effect: at a store-exclusive that is granted,
  // or, for a CAS whose comparison will fail, at the load-exclusive.
  function NextLin(c: Call, p: Cpu, lin: Option<U64>, m: Mem, ok: bool, ph: Phase): Option<U64>
    requires c.k.Ok() && c.k.d.rn != 31
  {
    match ph
    case LoadExclusive =>
      var was := LoadSized(m, c.x[c.k.d.rn], c.k.d.size);
      if Stores(c.k, c.x, was) then None else Some(was)
    case StoreExclusive => if Granted(c, p, ok) then Some(p.x[LoadReg(c.k)]) else lin
    case _ => lin
  }

  function NextOf(c: Call, p: Cpu, m: Mem, ok: bool, ph: Phase): (Cpu, Mem)
    requires PhaseOk(c.k, ph)
  {
    Step(InstrOf(c.k, c.ret, ph), p, m, ok)
  }

  // The step from phase ph keeps the invariant, at the next phase.
  predicate Keeps(c: Call, p: Cpu, lin: Option<U64>, m: Mem, ok: bool, ph: Phase)
    requires c.k.Ok() && c.k.d.rn != 31 && PhaseOk(c.k, ph) && ph != Return
  {
    var (p', m') := NextOf(c, p, m, ok, ph);
    Inv(c, p', NextLin(c, p, lin, m, ok, ph), m', NextPhase(c.k, ph, Taken(c.k, ph, p)))
  }

  // A push extends what is on the stack.
  lemma PushOne(m: Mem, sp: int, vals: seq<U64>, v: U64)
    requires OnStack(m, sp, vals)
    ensures OnStack(Store(m, sp - 16 * |vals| - 16, 8, v), sp, vals + [v])
  {
    var a := sp - 16 * |vals| - 16;
    var m' := Store(m, a, 8, v);
    forall i | 0 <= i < |vals|
      ensures Load64(m', sp - 16 * (i + 1)) == vals[i]
    {
      LoadElsewhere(m, a, 8, v, sp - 16 * (i + 1), 8);
    }
    Load64Stored(m, a, v);
  }

  // The stack window and the monitored cell decide the invariant: a store
  // elsewhere, or one that clears the monitor, keeps it.
  lemma Undisturbed(c: Call, p: Cpu, lin: Option<U64>, m: Mem, p': Cpu, m': Mem, ph: Phase)
    requires Inv(c, p, lin, m, ph)
    requires forall b :: c.sp - WINDOW <= b < c.sp ==> Byte(m', b) == Byte(m, b)
    requires p' == p || p' == p.(monitor := None)
    requires p'.monitor == Some(CellOf(c)) ==> LoadSized(m', c.x[c.k.d.rn], c.k.d.size) == LoadSized(m, c.x[c.k.d.rn], c.k.d.size)
    ensures Inv(c, p', lin, m', ph)
  {
    PushedBound(c, ph);
    OnStackAgree(m, m', c.sp, Pushed(c, ph));
  }

  lemma OnStackAgree(m: Mem, m': Mem, sp: int, vals: seq<U64>)
    requires forall b :: sp - WINDOW <= b < sp ==> Byte(m', b) == Byte(m, b)
    requires OnStack(m, sp, vals) && |vals| <= 4
    ensures OnStack(m', sp, vals)
  {
    forall i | 0 <= i < |vals|
      ensures Load64(m', sp - 16 * (i + 1)) == vals[i]
    {
      LoadAgree(m, m', sp - 16 * (i + 1), 8);
    }
  }

  lemma PushedBound(c: Call, ph: Phase)
    ensures |Pushed(c, ph)| <= 4
  {
  }

  lemma PushStep(r: Reg, p: Cpu, m: Mem, ok: bool)
    requires p.sp >= 16
    ensures Step(StrPre(r), p, m, ok) == (p.(pc := p.pc + 1, sp := p.sp - 16), Store(m, p.sp - 16, 8, X(p.x, r)))
  {
  }

  lemma KeepPush(c: Call, p: Cpu, lin: Option<U64>, m: Mem, ok: bool, ph: Phase)
    requires Inv(c, p, lin, m, ph) && ph.Push?
    ensures Keeps(c, p, lin, m, ok, ph)
  {
    hide Step, OnStack, InLoop, RunLocal, Store, FlagWord;
    var vals, i := SaveVals(c), ph.i;
    PushOne(m, c.sp, vals[..i], vals[i]);
    PushStep(Saves(c.k)[i], p, m, ok);
    assert vals[..i] + [vals[i]] == vals[..i + 1];
    assert vals[..|vals|] == vals;
  }

  lemma KeepReadFlags(c: Call, p: Cpu, lin: Option<U64>, m: Mem, ok: bool, ph: Phase)
    requires Inv(c, p, lin, m, ph) && ph.ReadFlags?
    ensures Keeps(c, p, lin, m, ok, ph)
  {
  }

  lemma KeepPushFlags(c: Call, p: Cpu, lin: Option<U64>, m: Mem, ok: bool, ph: Phase)
    requires Inv(c, p, lin, m, ph) && ph.PushFlags?
    ensures Keeps(c, p, lin, m, ok, ph)
  {
    PushOne(m, c.sp, SaveVals(c), FlagWord(c.nzcv));
    PushStep(c.k.s1, p, m, ok);
  }

  lemma KeepLoad(c: Call, p: Cpu, lin: Option<U64>, m: Mem, ok: bool, ph: Phase)
    requires Inv(c, p, lin, m, ph) && ph.LoadExclusive?
    ensures Keeps(c, p, lin, m, ok, ph)
  {
    var k := c.k;
    var was := LoadSized(m, c.x[k.d.rn], k.d.size);
    var l := Local(p.x[LoadReg(k) := was], p.nzcv);
    LoadStep(c, p, m, ok);
    BodyComputes(k, c.x, l, was);
    assert Body(k)[0..] == Body(k);
  }

  lemma LoadStep(c: Call, p: Cpu, m: Mem, ok: bool)
    requires Admissible(c) && Agree(p.x, c.x, Scratch(c.k))
    ensures var was := LoadSized(m, c.x[c.k.d.rn], c.k.d.size);
            && Step(Ldxr(c.k.d.size, c.k.d.acquire, LoadReg(c.k), c.k.d.rn), p, m, ok) ==
               (p.(pc := p.pc + 1, x := p.x[LoadReg(c.k) := was], monitor := Some(CellOf(c))), m)
            && Loaded(c.k, c.x, Local(p.x[LoadReg(c.k) := was], p.nzcv), was)
  {
  }

  lemma ComputeStep(i: Instr, p: Cpu, m: Mem, ok: bool)
    requires Computes(i)
    ensures Step(i, p, m, ok).1 == m
    ensures var (p', l) := (Step(i, p, m, ok).0, LocalStep(i, Local(p.x, p.nzcv)));
            p' == p.(pc := p.pc + 1, x := l.x, nzcv := l.nzcv)
  {
  }

  // What follows the j-th instruction of the computation.
  lemma ComputedAt(c: Call, p: Cpu, lin: Option<U64>, m: Mem, j: nat, p': Cpu)
    requires Admissible(c) && j < |Body(c.k)| && At(c, p, lin, m, Compute(j)) && p'.monitor == p.monitor
    requires Local(p'.x, p'.nzcv) == LocalStep(Body(c.k)[j], Local(p.x, p.nzcv))
    ensures At(c, p', lin, m, NextPhase(c.k, Compute(j), false))
  {
    hide LocalStep, NewValue, Body;
    var (b, l) := (Body(c.k), Local(p.x, p.nzcv));
    RunTail(b, j, l);
    if j + 1 == |b| {
      assert b[j + 1..] == [];
    }
  }

  lemma KeepCompute(c: Call, p: Cpu, lin: Option<U64>, m: Mem, ok: bool, ph: Phase)
    requires Inv(c, p, lin, m, ph) && ph.Compute?
    ensures Keeps(c, p, lin, m, ok, ph)
  {
    hide OnStack, At, Body, LocalStep, Step;
    BodyOnlyComputes(c.k, ph.j);
    ComputeStep(Body(c.k)[ph.j], p, m, ok);
    ComputedAt(c, p, lin, m, ph.j, NextOf(c, p, m, ok, ph).0);
  }

  lemma BranchStep(c: Call, p: Cpu, m: Mem, ok: bool)
    requires c.k.d.op == CAS
    ensures NextOf(c, p, m, ok, Branch).1 == m
    ensures NextOf(c, p, m, ok, Branch).0 == p.(pc := NextOf(c, p, m, ok, Branch).0.pc)
  {
  }

  // A failed comparison leaves the loop; after a good one the value is stored.
  lemma BranchAt(c: Call, p: Cpu, lin: Option<U64>, m: Mem, pc: int)
    requires Admissible(c) && At(c, p, lin, m, Branch)
    ensures PhaseOk(c.k, Finish(0)) && c.k.d.op == CAS
    ensures At(c, p.(pc := pc), lin, m, if Taken(c.k, Branch, p) then Finish(0) else StoreExclusive)
  {
    hide NewValue, Stores, RunLocal;
    var l := Local(p.x, p.nzcv);
    AfterMoves(c.k, c.x, l, l.x[LoadReg(c.k)]);
    assert After(c.k)[0..] == After(c.k);
  }

  lemma KeepBranch(c: Call, p: Cpu, lin: Option<U64>, m: Mem, ok: bool, ph: Phase)
    requires Inv(c, p, lin, m, ph) && ph.Branch?
    ensures Keeps(c, p, lin, m, ok, ph)
  {
    hide OnStack, NextOf, At, After, Body, Taken;
    BranchStep(c, p, m, ok);
    BranchAt(c, p, lin, m, NextOf(c, p, m, ok, Branch).0.pc);
  }

  lemma RetryStep(c: Call, p: Cpu, m: Mem, ok: bool)
    ensures NextOf(c, p, m, ok, Retry).1 == m
    ensures NextOf(c, p, m, ok, Retry).0 == p.(pc := NextOf(c, p, m, ok, Retry).0.pc)
  {
  }

  lemma LeavesAt(c: Call, p: Cpu, lin: Option<U64>, m: Mem, pc: int)
    requires Admissible(c) && lin.Some? && At(c, p, lin, m, Retry)
    ensures !Taken(c.k, Retry, p)
    ensures At(c, p.(pc := pc), lin, m, if |After(c.k)| > 0 then Finish(0) else PopFlags)
  {
    hide RunLocal;
    AfterMoves(c.k, c.x, Local(p.x, p.nzcv), lin.value);
    assert After(c.k)[0..] == After(c.k);
  }

  lemma RetryLeaves(c: Call, p: Cpu, lin: Option<U64>, m: Mem, ok: bool)
    requires Inv(c, p, lin, m, Retry) && lin.Some?
    ensures Keeps(c, p, lin, m, ok, Retry)
  {
    hide OnStack, NextOf, At, After, Body, Taken;
    RetryStep(c, p, m, ok);
    LeavesAt(c, p, lin, m, NextOf(c, p, m, ok, Retry).0.pc);
  }

  lemma RetryRepeats(c: Call, p: Cpu, lin: Option<U64>, m: Mem, ok: bool)
    requires Inv(c, p, lin, m, Retry) && lin.None?
    ensures Keeps(c, p, lin, m, ok, Retry)
  {
    hide OnStack, NewValue, Stores, Body, After;
  }

  lemma KeepRetry(c: Call, p: Cpu, lin: Option<U64>, m: Mem, ok: bool, ph: Phase)
    requires Inv(c, p, lin, m, ph) && ph.Retry?
    ensures Keeps(c, p, lin, m, ok, ph)
  {
    hide Inv, Keeps;
    if lin.Some? {
      RetryLeaves(c, p, lin, m, ok);
    } else {
      RetryRepeats(c, p, lin, m, ok);
    }
  }

  lemma FinishStep(k: Plan, j: nat, p: Cpu, m: Mem, ok: bool)
    requires j < |After(k)|
    ensures Step(After(k)[j], p, m, ok).1 == m
    ensures var (p', l) := (Step(After(k)[j], p, m, ok).0, LocalStep(After(k)[j], Local(p.x, p.nzcv)));
            Local(p'.x, p'.nzcv) == l && p'.sp == p.sp
  {
  }

  lemma KeepFinish(c: Call, p: Cpu, lin: Option<U64>, m: Mem, ok: bool, ph: Phase)
    requires Inv(c, p, lin, m, ph) && ph.Finish?
    ensures Keeps(c, p, lin, m, ok, ph)
  {
    var a, j := After(c.k), ph.j;
    FinishStep(c.k, j, p, m, ok);
    var l := LocalStep(a[j], Local(p.x, p.nzcv));
    RunTail(a, j, Local(p.x, p.nzcv));
    RunTail(a, j, l);
  }

  lemma SaveCount(c: Call)
    ensures |SaveVals(c)| == |Saves(c.k)|
  {
  }

  lemma KeepPopFlags(c: Call, p: Cpu, lin: Option<U64>, m: Mem, ok: bool, ph: Phase)
    requires Inv(c, p, lin, m, ph) && ph.PopFlags?
    ensures Keeps(c, p, lin, m, ok, ph)
  {
    hide Step, OnStack, InLoop, RunLocal, FlagWord, SaveVals;
    var vals := SaveVals(c) + [FlagWord(c.nzcv)];
    SaveCount(c);
    PopStep(c, p, m, ok, vals, c.k.s1);
    assert vals[..|SaveVals(c)|] == SaveVals(c);
  }

  lemma KeepWriteFlags(c: Call, p: Cpu, lin: Option<U64>, m: Mem, ok: bool, ph: Phase)
    requires Inv(c, p, lin, m, ph) && ph.WriteFlags?
    ensures Keeps(c, p, lin, m, ok, ph)
  {
    FlagsSurvive(c.nzcv);
    assert SaveVals(c)[..|SaveVals(c)|] == SaveVals(c);
  }

  lemma RestoreOne(x: Regs, y: Regs, left: set<Reg>, r: Reg)
    requires Agree(x, y, left) && r < 31
    ensures Agree(x[r := y[r]], y, left - {r})
    ensures left == {r} ==> x[r := y[r]] == y
  {
  }

  lemma PopStep(c: Call, p: Cpu, m: Mem, ok: bool, vals: seq<U64>, r: Reg)
    requires r < 31 && 0 < |vals| <= 4 && WINDOW <= c.sp && p.sp == c.sp - 16 * |vals|
    requires OnStack(m, c.sp, vals)
    ensures var i := |vals| - 1;
            && Step(LdrPost(r), p, m, ok) == (p.(pc := p.pc + 1, x := p.x[r := vals[i]], sp := p.sp + 16), m)
            && OnStack(m, c.sp, vals[..i])
  {
    assert Load64(m, c.sp - 16 * |vals|) == vals[|vals| - 1];
  }

  lemma KeepPop(c: Call, p: Cpu, lin: Option<U64>, m: Mem, ok: bool, ph: Phase)
    requires Inv(c, p, lin, m, ph) && ph.Pop?
    ensures Keeps(c, p, lin, m, ok, ph)
  {
    var vals, i, y := SaveVals(c), ph.i, Result(c, lin.value);
    var r := Saves(c.k)[i];
    PopStep(c, p, m, ok, vals[..i + 1], r);
    assert vals[..i + 1][..i] == vals[..i];
    assert y[r] == vals[i];
    RestoreOne(p.x, y, Unrestored(c.k, i), r);
    assert i > 0 ==> Unrestored(c.k, i) - {r} == Unrestored(c.k, i - 1);
  }

  // A granted store-exclusive replaces the value that was loaded, which the
  // cell still holds, by the operation's result on it.
  lemma StoreGranted(c: Call, p: Cpu, lin: Option<U64>, m: Mem)
    requires Inv(c, p, lin, m, StoreExclusive) && p.monitor == Some(CellOf(c))
    ensures var was := p.x[LoadReg(c.k)];
            && was == LoadSized(m, c.x[c.k.d.rn], c.k.d.size)
            && Stores(c.k, c.x, was)
            && Store(m, c.x[c.k.d.rn], Bytes(c.k.d.size), X(p.x, NewReg(c.k)))
               == Store(m, c.x[c.k.d.rn], Bytes(c.k.d.size), NewValue(c.k, c.x, was))
  {
    SpanIsPow2(c.k.d.size);
    StoreMod(m, c.x[c.k.d.rn], Bytes(c.k.d.size), X(p.x, NewReg(c.k)));
  }

  // A store to the operand leaves the saved registers alone.
  lemma StackKept(c: Call, m: Mem, v: nat, ph: Phase)
    requires Admissible(c) && PhaseOk(c.k, ph) && OnStack(m, c.sp, Pushed(c, ph))
    ensures OnStack(Store(m, c.x[c.k.d.rn], Bytes(c.k.d.size), v), c.sp, Pushed(c, ph))
  {
    var a, n := c.x[c.k.d.rn], Bytes(c.k.d.size);
    var m' := Store(m, a, n, v);
    forall b | c.sp - WINDOW <= b < c.sp
      ensures Byte(m', b) == Byte(m, b)
    {
      StoreElsewhere(m, a, n, v, b);
    }
    PushedBound(c, ph);
    OnStackAgree(m, m', c.sp, Pushed(c, ph));
  }

  lemma StoreStep(c: Call, p: Cpu, m: Mem, ok: bool)
    requires Admissible(c) && Agree(p.x, c.x, Scratch(c.k))
    ensures var (a, n, v) := (c.x[c.k.d.rn], Bytes(c.k.d.size), X(p.x, NewReg(c.k)));
            Step(Stxr(c.k.d.size, c.k.d.release, StatusReg(c.k), NewReg(c.k), c.k.d.rn), p, m, ok) ==
            if Granted(c, p, ok)
            then (p.(pc := p.pc + 1, x := p.x[StatusReg(c.k) := 0], monitor := None), Store(m, a, n, v))
            else (p.(pc := p.pc + 1, x := p.x[StatusReg(c.k) := 1], monitor := None), m)
  {
  }

  lemma StoredAt(c: Call, p: Cpu, lin: Option<U64>, m: Mem, ok: bool)
    requires Admissible(c) && At(c, p, lin, m, StoreExclusive)
    ensures var (p', m') := NextOf(c, p, m, ok, StoreExclusive);
            && At(c, p', NextLin(c, p, lin, m, ok, StoreExclusive), m', Retry) && p'.sp == p.sp
            && m' == if Granted(c, p, ok)
                     then Store(m, c.x[c.k.d.rn], Bytes(c.k.d.size), X(p.x, NewReg(c.k)))
                     else m
  {
    hide NewValue, Stores, RunLocal, Step, Store;
    StoreStep(c, p, m, ok);
  }

  lemma KeepStore(c: Call, p: Cpu, lin: Option<U64>, m: Mem, ok: bool, ph: Phase)
    requires Inv(c, p, lin, m, ph) && ph.StoreExclusive?
    ensures Keeps(c, p, lin, m, ok, ph)
  {
    hide OnStack, At, NextOf, NextLin, Granted;
    StackKept(c, m, X(p.x, NewReg(c.k)), ph);
    StoredAt(c, p, lin, m, ok);
  }

  // The island ends at the instruction after the patched one, with the guest's
  // registers as the instruction leaves them and SP and NZCV as they were.
  lemma KeepReturn(c: Call, p: Cpu, lin: Option<U64>, m: Mem, ok: bool)
    requires Inv(c, p, lin, m, Return) && p.pc == PcOf(c.k, Return)
    ensures lin.Some?
    ensures NextOf(c, p, m, ok, Return) == (Cpu(c.ret, Result(c, lin.value), c.sp, c.nzcv, p.monitor), m)
  {
  }

  // Every instruction of the island keeps the invariant.
  lemma StepKeeps(c: Call, p: Cpu, lin: Option<U64>, m: Mem, ok: bool, ph: Phase)
    requires Inv(c, p, lin, m, ph) && ph != Return
    ensures Keeps(c, p, lin, m, ok, ph)
  {
    match ph
    case Push(_) => KeepPush(c, p, lin, m, ok, ph);
    case ReadFlags => KeepReadFlags(c, p, lin, m, ok, ph);
    case PushFlags => KeepPushFlags(c, p, lin, m, ok, ph);
    case LoadExclusive => KeepLoad(c, p, lin, m, ok, ph);
    case Compute(_) => KeepCompute(c, p, lin, m, ok, ph);
    case Branch => KeepBranch(c, p, lin, m, ok, ph);
    case StoreExclusive => KeepStore(c, p, lin, m, ok, ph);
    case Retry => KeepRetry(c, p, lin, m, ok, ph);
    case Finish(_) => KeepFinish(c, p, lin, m, ok, ph);
    case PopFlags => KeepPopFlags(c, p, lin, m, ok, ph);
    case WriteFlags => KeepWriteFlags(c, p, lin, m, ok, ph);
    case Pop(_) => KeepPop(c, p, lin, m, ok, ph);
  }

  // The register value a push phase spills.
  function Spilled(c: Call, p: Cpu, ph: Phase): U64
    requires PhaseOk(c.k, ph)
  {
    match ph
    case Push(i) => X(p.x, Saves(c.k)[i])
    case _ => X(p.x, c.k.s1)
  }

  predicate Spills(ph: Phase) {
    ph.Push? || ph.PushFlags?
  }

  lemma SpillWrites(c: Call, p: Cpu, lin: Option<U64>, m: Mem, ok: bool, ph: Phase)
    requires Inv(c, p, lin, m, ph) && Spills(ph)
    ensures c.sp - WINDOW <= p.sp - 16 && p.sp - 8 <= c.sp
    ensures NextOf(c, p, m, ok, ph).1 == Store(m, p.sp - 16, 8, Spilled(c, p, ph))
  {
    match ph
    case Push(i) => PushStep(Saves(c.k)[i], p, m, ok);
    case PushFlags => PushStep(c.k.s1, p, m, ok);
  }

  // What any other step does to memory: nothing, or the operation itself.
  lemma StepWrites(c: Call, p: Cpu, lin: Option<U64>, m: Mem, ok: bool, ph: Phase)
    requires Inv(c, p, lin, m, ph) && !Spills(ph)
    ensures NextOf(c, p, m, ok, ph).1 ==
            if ph.StoreExclusive? && Granted(c, p, ok)
            then Store(m, c.x[c.k.d.rn], Bytes(c.k.d.size), NewValue(c.k, c.x, p.x[LoadReg(c.k)]))
            else m
  {
    hide OnStack, RunLocal, LocalStep, Pushed, NewValue, Stores;
    match ph
    case StoreExclusive =>
      StoreStep(c, p, m, ok);
      if Granted(c, p, ok) {
        StoreGranted(c, p, lin, m);
      }
    case Compute(j) => BodyOnlyComputes(c.k, j); ComputeStep(Body(c.k)[j], p, m, ok);
    case Finish(j) => FinishStep(c.k, j, p, m, ok);
    case _ =>
  }
}
