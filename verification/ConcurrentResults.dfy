// Consequences of linearizability: progress, the effect of an island running
// alone, and conservation under concurrent additions.
module ConcurrentResults {
  import opened Bits
  import opened Options
  import opened Memory
  import opened Lse
  import opened Machine
  import opened Island
  import opened IslandBody
  import opened IslandThread
  import opened Concurrent

  // --- Progress ---

  function LoopLength(k: Plan): nat {
    StoreAt(k) + 2 - LoopAt(k)
  }

  // Will the current pass through the loop fail even without interference?
  predicate MustRetry(c: Call, p: Cpu, ph: Phase)
    requires Admissible(c)
  {
    match ph
    case Compute(_) => p.monitor != Some(CellOf(c))
    case Branch => p.monitor != Some(CellOf(c))
    case StoreExclusive => p.monitor != Some(CellOf(c))
    case Retry => p.x[StatusReg(c.k)] % TWO32 != 0
    case _ => false
  }

  // An upper bound on the instructions left for a core that runs undisturbed.
  function Rank(c: Call, p: Cpu, ph: Phase): (r: nat)
    requires Admissible(c) && PhaseOk(c.k, ph)
    ensures r > 0
  {
    PcAt(c.k, ph);
    ReturnAt(c.k) + 1 - PcOf(c.k, ph) + if MustRetry(c, p, ph) then LoopLength(c.k) else 0
  }

  lemma RankBound(c: Call, p: Cpu, ph: Phase)
    requires Admissible(c) && PhaseOk(c.k, ph)
    ensures Rank(c, p, ph) <= 28
  {
  }

  // Control only moves forward, except for the retry, which goes back one loop.
  lemma Forward(k: Plan, ph: Phase, taken: bool)
    requires PhaseOk(k, ph) && ph != Return
    ensures var n := NextPhase(k, ph, taken);
            if ph.Retry? && taken then n == LoadExclusive && PcOf(k, ph) == PcOf(k, n) + LoopLength(k) - 1
            else PcOf(k, n) > PcOf(k, ph)
  {
  }

  // A pass that can succeed stays so while nobody interferes.
  lemma NoNewRetry(c: Call, p: Cpu, lin: Option<U64>, m: Mem, ph: Phase)
    requires Inv(c, p, lin, m, ph) && ph != Return && !MustRetry(c, p, ph)
    ensures !MustRetry(c, NextOf(c, p, m, true, ph).0, NextPhase(c.k, ph, Taken(c.k, ph, p)))
  {
    hide OnStack, NewValue, Stores, RunLocal, LocalStep, Pushed;
    match ph
    case Compute(j) =>
      BodyOnlyComputes(c.k, j);
      ComputeStep(Body(c.k)[j], p, m, true);
    case LoadExclusive => LoadStep(c, p, m, true);
    case StoreExclusive => StoreStep(c, p, m, true);
    case _ =>
  }

  lemma RankDrops(c: Call, p: Cpu, lin: Option<U64>, m: Mem, ph: Phase)
    requires Inv(c, p, lin, m, ph) && ph != Return
    ensures Rank(c, NextOf(c, p, m, true, ph).0, NextPhase(c.k, ph, Taken(c.k, ph, p))) < Rank(c, p, ph)
  {
    Forward(c.k, ph, Taken(c.k, ph, p));
    PcAt(c.k, ph);
    PcAt(c.k, NextPhase(c.k, ph, Taken(c.k, ph, p)));
    if !MustRetry(c, p, ph) {
      NoNewRetry(c, p, lin, m, ph);
    }
    hide NextOf, NextPhase, PcOf, PhaseOf;
  }

  function RankOf(th: Thread): (r: nat)
    requires th.Running? && Admissible(th.c) && 0 <= th.p.pc <= ReturnAt(th.c.k)
    ensures r > 0
  {
    PhaseAt(th.c.k, th.p.pc);
    Rank(th.c, th.p, PhaseOf(th.c.k, th.p.pc))
  }

  lemma RunSelf(s: System, t: Tid, ok: bool)
    requires Enabled(s, Run(t, ok)) && Live(s.threads[t], s.mem)
    ensures Next(s, Run(t, ok)).threads.Keys == s.threads.Keys
    ensures PhaseOk(s.threads[t].c.k, PhaseOf(s.threads[t].c.k, s.threads[t].p.pc))
    ensures var (th, th') := (s.threads[t], Next(s, Run(t, ok)).threads[t]);
            var ph := PhaseOf(th.c.k, th.p.pc);
            if ph == Return then th'.Idle? && |th'.done| == |th.done| + 1
            else th'.Running? && th' == th.(p := NextOf(th.c, th.p, s.mem, ok, ph).0, lin := th'.lin)
  {
    hide Step, NextOf, PhaseOf, PcOf, NextPhase, NextLin, Next, Spilled, OnStack, Pushed;
    var th := s.threads[t];
    PhaseAt(th.c.k, th.p.pc);
    RunIs(s, t, ok);
  }

  lemma RankStep(th: Thread, m: Mem, th': Thread, ph: Phase)
    requires th.Running? && Live(th, m) && ph == PhaseOf(th.c.k, th.p.pc) && ph != Return && PhaseOk(th.c.k, ph)
    requires th'.Running? && th' == th.(p := NextOf(th.c, th.p, m, true, ph).0, lin := th'.lin)
    ensures 0 <= th'.p.pc <= ReturnAt(th'.c.k) && RankOf(th') < RankOf(th)
  {
    hide Rank, At, OnStack;
    var n := NextPhase(th.c.k, ph, Taken(th.c.k, ph, th.p));
    PhaseAt(th.c.k, th.p.pc);
    RankDrops(th.c, th.p, th.lin, m, ph);
    Control(th.c.k, th.c.ret, ph, th.p, m, true);
    PcAt(th.c.k, n);
    hide PhaseOf, PcOf, NextPhase, InstrOf, Step;
  }

  // A running island is never stuck.
  lemma CanRun(m0: Mem, s: System, t: Tid)
    requires SystemInv(m0, s) && t in s.threads && s.threads[t].Running?
    ensures Enabled(s, Run(t, true)) && Enabled(s, Run(t, false)) && Live(s.threads[t], s.mem)
  {
    hide Explained, AllApart, Live, Admissible, Mine, Took, Correct;
    assert ThreadOk(s, t);
    LiveRuns(s.threads[t], s.mem);
  }

  lemma LiveRuns(th: Thread, m: Mem)
    requires Live(th, m) && th.Running?
    ensures Admissible(th.c) && 0 <= th.p.pc <= ReturnAt(th.c.k)
  {
    hide At, OnStack, Admissible;
  }

  // A running island can always take its next step, and when its
  // store-exclusive is granted each step brings its end nearer.
  lemma SoloStep(m0: Mem, s: System, t: Tid)
    requires SystemInv(m0, s) && t in s.threads && s.threads[t].Running?
    ensures Enabled(s, Run(t, true)) && Enabled(s, Run(t, false))
    ensures var s' := Next(s, Run(t, true));
            && SystemInv(m0, s') && t in s'.threads
            && if s'.threads[t].Running?
               then Enabled(s', Run(t, true)) && RankOf(s'.threads[t]) < RankOf(s.threads[t])
                    && s'.threads[t].done == s.threads[t].done
               else |s'.threads[t].done| == |s.threads[t].done| + 1
  {
    CanRun(m0, s, t);
    KeepRun(m0, s, t, true);
    RunSelf(s, t, true);
    hide *;
    var th := s.threads[t];
    var s' := Next(s, Run(t, true));
    if s'.threads[t].Running? {
      CanRun(m0, s', t);
      RankStep(th, s.mem, s'.threads[t], PhaseOf(th.c.k, th.p.pc));
    }
  }

  function Solo(t: Tid, n: nat): seq<Action> {
    seq(n, i => Run(t, true))
  }

  // From every reachable state, after whatever failures and interference,
  // an island that now runs undisturbed ends within 28 instructions.
  lemma {:induction false} SoloFinishes(m0: Mem, s: System, t: Tid) returns (n: nat, s': System)
    requires SystemInv(m0, s) && t in s.threads && s.threads[t].Running?
    ensures n <= 28 && Reaches(s, Solo(t, n), s')
    ensures t in s'.threads && s'.threads[t].Idle? && |s'.threads[t].done| == |s.threads[t].done| + 1
  {
    SoloStep(m0, s, t);
    RankBound(s.threads[t].c, s.threads[t].p, PhaseOf(s.threads[t].c.k, s.threads[t].p.pc));
    n, s' := SoloRest(m0, s, t);
  }

  lemma {:induction false} SoloRest(m0: Mem, s: System, t: Tid) returns (n: nat, s': System)
    requires SystemInv(m0, s) && t in s.threads && s.threads[t].Running? && Enabled(s, Run(t, true))
    ensures n <= RankOf(s.threads[t]) && Reaches(s, Solo(t, n), s')
    ensures t in s'.threads && s'.threads[t].Idle? && |s'.threads[t].done| == |s.threads[t].done| + 1
    decreases RankOf(s.threads[t])
  {
    hide SystemInv, Next, Rank, Enabled;
    SoloStep(m0, s, t);
    var s1 := Next(s, Run(t, true));
    if s1.threads[t].Running? {
      n, s' := SoloRest(m0, s1, t);
      n := n + 1;
    } else {
      n, s' := 1, s1;
    }
    assert Solo(t, n)[1..] == Solo(t, n - 1);
  }

  // --- An island that runs alone ---

  // Events of thread t's island for call c.
  predicate Own(e: Event, t: Tid, c: Call) {
    (e.Spill? && e.c == c) || (e.Atomic? && e.t == t && e.c == c)
  }

  function Attempts(t: Tid, oks: seq<bool>): seq<Action> {
    seq(|oks|, i requires 0 <= i < |oks| => Run(t, oks[i]))
  }

  predicate Alone(s: System, t: Tid, c: Call) {
    && t in s.threads
    && (if s.threads[t].Running? then s.threads[t].c == c && s.threads[t].done == []
        else |s.threads[t].done| == 1 && s.threads[t].done[0].c == c)
    && forall e :: e in s.log ==> Own(e, t, c)
  }

  lemma AloneStep(s: System, t: Tid, c: Call, ok: bool)
    requires Alone(s, t, c) && Enabled(s, Run(t, ok)) && Live(s.threads[t], s.mem)
    ensures Alone(Next(s, Run(t, ok)), t, c)
  {
    hide OnStack, Admissible, PhaseOf, PhaseOk, Next, PlanFor, ReturnAt, NextOf, NextLin, Spilled, DisturbOthers;
    PhaseAt(c.k, s.threads[t].p.pc);
    RunIs(s, t, ok);
  }

  lemma {:induction false} AloneRun(m0: Mem, s: System, t: Tid, c: Call, oks: seq<bool>, s': System)
    requires SystemInv(m0, s) && Alone(s, t, c) && Reaches(s, Attempts(t, oks), s')
    ensures SystemInv(m0, s') && Alone(s', t, c)
    decreases |oks|
  {
    hide SystemInv, Next, Alone, Enabled;
    if oks != [] {
      assert Attempts(t, oks)[1..] == Attempts(t, oks[1..]);
      AloneEnabled(m0, s, t, oks[0]);
      KeepRun(m0, s, t, oks[0]);
      AloneStep(s, t, c, oks[0]);
      AloneRun(m0, Next(s, Run(t, oks[0])), t, c, oks[1..], s');
    }
  }

  lemma AloneEnabled(m0: Mem, s: System, t: Tid, ok: bool)
    requires SystemInv(m0, s) && Enabled(s, Run(t, ok))
    ensures Live(s.threads[t], s.mem)
  {
    hide Explained, AllApart, Mine, Live;
    assert ThreadOk(s, t);
  }

  // The bytes that c's island may change: its operand and its stack window.
  predicate Outside(c: Call, b: int)
    requires c.k.d.rn != 31
  {
    && (b < c.sp - WINDOW || c.sp <= b)
    && (b < c.x[c.k.d.rn] || c.x[c.k.d.rn] + Bytes(c.k.d.size) <= b)
  }

  // What a log of c's island alone makes of memory.
  lemma {:induction false} OwnEffects(m: Mem, log: seq<Event>, t: Tid, c: Call)
    requires Admissible(c) && Explains(m, log) && forall e :: e in log ==> Own(e, t, c)
    ensures var (a, n) := (c.x[c.k.d.rn], c.k.d.size);
            var (was, now) := (LoadSized(m, a, n), LoadSized(Replay(m, log), a, n));
            && (Mine(log, t) == [] ==> now == was)
            && (|Mine(log, t)| == 1 ==> Mine(log, t)[0] == Atomic(t, c, was) && now == NewValue(c.k, c.x, was))
    ensures forall b :: Outside(c, b) ==> Byte(Replay(m, log), b) == Byte(m, b)
    decreases |log|
  {
    if log != [] {
      var front, e := log[..|log| - 1], log[|log| - 1];
      OwnEffects(m, front, t, c);
      OneEffect(Replay(m, front), e, t, c);
    }
  }

  lemma OneEffect(m: Mem, e: Event, t: Tid, c: Call)
    requires Admissible(c) && Own(e, t, c) && Legal(m, e)
    ensures var (a, n) := (c.x[c.k.d.rn], c.k.d.size);
            var (was, now) := (LoadSized(m, a, n), LoadSized(Effect(m, e), a, n));
            if e.Atomic? then e == Atomic(t, c, was) && now == NewValue(c.k, c.x, was) else now == was
    ensures forall b :: Outside(c, b) ==> Byte(Effect(m, e), b) == Byte(m, b)
  {
    var (a, n) := (c.x[c.k.d.rn], Bytes(c.k.d.size));
    SpanIsPow2(c.k.d.size);
    match e
    case Spill(_, _, at, v) =>
      LoadElsewhere(m, at, 8, v, a, n);
      forall b | Outside(c, b) ensures Byte(Effect(m, e), b) == Byte(m, b) {
        StoreElsewhere(m, at, 8, v, b);
      }
    case Atomic(_, _, was) =>
      var v := NewValue(c.k, c.x, was);
      EmulatedFits(c.k.d.op, c.k.d.size, was, X(c.x, c.k.d.rs), X(c.x, c.k.d.rt));
      LoadStored(m, a, n, v);
      DivModUnique(v, Span(c.k.d.size), 0, v);
      forall b | Outside(c, b) ensures Byte(Effect(m, e), b) == Byte(m, b) {
        StoreElsewhere(m, a, n, v, b);
      }
  }

  lemma AloneDone(m0: Mem, s: System, t: Tid, c: Call)
    requires SystemInv(m0, s) && Alone(s, t, c) && s.threads[t].Idle? && Admissible(c)
    ensures var was := LoadSized(m0, c.x[c.k.d.rn], c.k.d.size);
            && s.threads[t].done[0].was == was && Correct(s.threads[t].done[0])
            && LoadSized(s.mem, c.x[c.k.d.rn], c.k.d.size) == NewValue(c.k, c.x, was)
    ensures forall b :: Outside(c, b) ==> Byte(s.mem, b) == Byte(m0, b)
  {
    hide Inv, Replay, Explains, Mine, AllApart;
    assert ThreadOk(s, t);
    OwnEffects(m0, s.log, t, c);
    assert Took(t, s.threads[t]) == [Atomic(t, c, s.threads[t].done[0].was)];
  }

  // A patched instruction that runs alone: whichever of its store-exclusives
  // fail, when it returns the operand holds the operation's result, the
  // destination the old value, every other register, SP and NZCV are as they
  // were, and no byte outside the operand and the stack window has changed.
  lemma AloneIsAtomic(s: System, t: Tid, c: Call, monitor: Option<Cell>, oks: seq<bool>, s': System)
    requires Initial(s) && Enabled(s, Begin(t, c, monitor))
    requires Reaches(Next(s, Begin(t, c, monitor)), Attempts(t, oks), s')
    requires t in s'.threads && s'.threads[t].Idle?
    ensures var was := LoadSized(s.mem, c.x[c.k.d.rn], c.k.d.size);
            && |s'.threads[t].done| == 1 && s'.threads[t].done[0].c == c
            && s'.threads[t].done[0].was == was && Correct(s'.threads[t].done[0])
            && LoadSized(s'.mem, c.x[c.k.d.rn], c.k.d.size) == NewValue(c.k, c.x, was)
    ensures forall b :: Outside(c, b) ==> Byte(s'.mem, b) == Byte(s.mem, b)
  {
    hide Next, SystemInv, Reaches;
    var s1 := Next(s, Begin(t, c, monitor));
    InitialHolds(s);
    KeepBegin(s.mem, s, t, c, monitor);
    BeginAlone(s, t, c, monitor);
    AloneRun(s.mem, s1, t, c, oks, s');
    AloneDone(s.mem, s', t, c);
  }

  lemma BeginAlone(s: System, t: Tid, c: Call, monitor: Option<Cell>)
    requires Initial(s) && Enabled(s, Begin(t, c, monitor))
    ensures Alone(Next(s, Begin(t, c, monitor)), t, c)
  {
  }

  // And such a run exists.
  lemma AloneFinishes(s: System, t: Tid, c: Call) returns (n: nat, s': System)
    requires Initial(s) && Enabled(s, Begin(t, c, None))
    ensures Reaches(Next(s, Begin(t, c, None)), Solo(t, n), s')
    ensures t in s'.threads && s'.threads[t].Idle? && |s'.threads[t].done| == 1
    ensures LoadSized(s'.mem, c.x[c.k.d.rn], c.k.d.size)
            == NewValue(c.k, c.x, LoadSized(s.mem, c.x[c.k.d.rn], c.k.d.size))
  {
    BeginAlone(s, t, c, None);
    hide Next, Reaches, SystemInv, Admissible, Own, Initial;
    var s1 := Next(s, Begin(t, c, None));
    InitialHolds(s);
    KeepBegin(s.mem, s, t, c, None);
    BeginRuns(s, t, c);
    n, s' := SoloFinishes(s.mem, s1, t);
    var oks := seq(n, i => true);
    assert Solo(t, n) == Attempts(t, oks);
    AloneIsAtomic(s, t, c, None, oks, s');
  }

  lemma BeginRuns(s: System, t: Tid, c: Call)
    requires Enabled(s, Begin(t, c, None))
    ensures t in Next(s, Begin(t, c, None)).threads && Next(s, Begin(t, c, None)).threads[t].Running?
  {
  }

  // --- The architecture's result ---

  // Rs has no bits above the operand, or the operation does not compare whole registers.
  predicate Faithful(c: Call) {
    || (c.k.d.op != LDUMAX && c.k.d.op != LDUMIN && c.k.d.op != CAS)
    || ZeroExtended(c.k.d.size, X(c.x, c.k.d.rs))
  }

  function ArchitecturalValue(c: Call, was: nat): nat {
    Architectural(c.k.d.op, c.k.d.size, was, X(c.x, c.k.d.rs), X(c.x, c.k.d.rt))
  }

  // Each LSE instruction of the log, at its instant, leaves in its operand the value the
  // architecture gives for what it read, and no other byte changes.
  lemma AtomicIsArchitectural(m: Mem, e: Event)
    requires e.Atomic? && Legal(m, e) && Faithful(e.c)
    ensures var (a, size) := (e.c.x[e.c.k.d.rn], e.c.k.d.size);
            && e.was == LoadSized(m, a, size)
            && LoadSized(Effect(m, e), a, size) == ArchitecturalValue(e.c, e.was)
            && forall b :: b < a || a + Bytes(size) <= b ==> Byte(Effect(m, e), b) == Byte(m, b)
  {
    var (c, d) := (e.c, e.c.k.d);
    var (a, v) := (c.x[d.rn], NewValue(c.k, c.x, e.was));
    OneEffect(m, e, e.t, c);
    EmulatedIsArchitectural(d.op, d.size, e.was, X(c.x, d.rs), X(c.x, d.rt));
    forall b | b < a || a + Bytes(d.size) <= b
      ensures Byte(Effect(m, e), b) == Byte(m, b)
    {
      StoreElsewhere(m, a, Bytes(d.size), v, b);
    }
  }

  // The sequential case end to end: after any store-exclusive failures the operand holds
  // the architectural value if Rs is zero-extended where that matters.
  lemma AloneIsArchitectural(s: System, t: Tid, c: Call, monitor: Option<Cell>, oks: seq<bool>, s': System)
    requires Initial(s) && Enabled(s, Begin(t, c, monitor)) && Faithful(c)
    requires Reaches(Next(s, Begin(t, c, monitor)), Attempts(t, oks), s')
    requires t in s'.threads && s'.threads[t].Idle?
    ensures var (a, size) := (c.x[c.k.d.rn], c.k.d.size);
            LoadSized(s'.mem, a, size) == ArchitecturalValue(c, LoadSized(s.mem, a, size))
  {
    hide Next, Reaches, Architectural, Emulated;
    AloneIsAtomic(s, t, c, monitor, oks, s');
    var was := LoadSized(s.mem, c.x[c.k.d.rn], c.k.d.size);
    EmulatedIsArchitectural(c.k.d.op, c.k.d.size, was, X(c.x, c.k.d.rs), X(c.x, c.k.d.rt));
  }

  // --- Stray bits in a run ---

  // LDUMAXB or CASB W1, W2, [X3] on the byte at 0x1000, with 0x101 in x1 and 7 in x2.
  function StrayCall(op: Op): Call {
    Call(PlanFor(Lse(op, 0, false, false, 1, 2, 3)),
         seq(31, i => if i == 1 then 0x101 else if i == 2 then 7 else if i == 3 then 0x1000 else 0),
         0x8000, Flags(false, false, false, false), 0)
  }

  function StrayStart(op: Op): System {
    System(map[0x1000 := if op == CAS then 1 else 2], map[0 := Idle([])], [])
  }

  lemma LoadOne(m: Mem, a: int)
    ensures LoadSized(m, a, 0) == Byte(m, a)
  {
    assert LoadRange(m, a + 1, a + 1) == 0;
  }

  lemma StrayBegins(op: Op)
    ensures Initial(StrayStart(op)) && Enabled(StrayStart(op), Begin(0, StrayCall(op), None))
    ensures StrayCall(op).k.d == Lse(op, 0, false, false, 1, 2, 3)
  {
    PlanOk(Lse(op, 0, false, false, 1, 2, 3));
  }

  lemma StrayValues(op: Op)
    requires op == LDUMAX || op == CAS
    ensures var (c, was) := (StrayCall(op), Byte(StrayStart(op).mem, 0x1000));
            && c.x[c.k.d.rn] == 0x1000 && c.k.d.size == 0
            && NewValue(c.k, c.x, was) == 1 && ArchitecturalValue(c, was) == if op == CAS then 7 else 2
  {
    StrayBegins(op);
    hide PlanFor;
  }

  // The run of either island leaves 1 in the byte, where the architecture gives 2 and 7.
  lemma StrayBitsReachMemory(op: Op) returns (n: nat, s': System)
    requires op == LDUMAX || op == CAS
    ensures Initial(StrayStart(op)) && Enabled(StrayStart(op), Begin(0, StrayCall(op), None))
    ensures Reaches(Next(StrayStart(op), Begin(0, StrayCall(op), None)), Solo(0, n), s')
    ensures 0 in s'.threads && s'.threads[0].Idle? && |s'.threads[0].done| == 1
    ensures Byte(s'.mem, 0x1000) == 1
    ensures ArchitecturalValue(StrayCall(op), Byte(StrayStart(op).mem, 0x1000)) == if op == CAS then 7 else 2
  {
    hide *;
    StrayBegins(op);
    StrayValues(op);
    n, s' := AloneFinishes(StrayStart(op), 0, StrayCall(op));
    LoadOne(StrayStart(op).mem, 0x1000);
    LoadOne(s'.mem, 0x1000);
  }

  // --- Concurrent additions ---

  // An LDADD of this size on the cell at a.
  predicate Adds(e: Event, a: int, size: nat) {
    && e.Atomic? && e.c.k.d.op == LDADD && e.c.k.d.size == size
    && e.c.k.d.rn != 31 && e.c.x[e.c.k.d.rn] == a
  }

  // The event leaves the cell at a alone.
  predicate Misses(e: Event, a: int, size: nat) {
    match e
    case Atomic(_, c, _) => c.k.d.rn != 31 && Disjoint(c.x[c.k.d.rn], Bytes(c.k.d.size), a, Bytes(size))
    case Plain(b, n, _) => Disjoint(b, n, a, Bytes(size))
    case Spill(_, _, b, _) => Disjoint(b, 8, a, Bytes(size))
  }

  function SumAdded(log: seq<Event>, a: int, size: nat): nat {
    if log == [] then 0
    else
      var e := log[|log| - 1];
      SumAdded(log[..|log| - 1], a, size) + if Adds(e, a, size) then X(e.c.x, e.c.k.d.rs) else 0
  }

  // When only LDADDs touch a cell, no addition is ever lost: the cell holds its
  // first value plus every addend, modulo its width.
  lemma {:induction false} AdditionsConserve(m: Mem, log: seq<Event>, a: int, size: nat)
    requires size < 4 && Explains(m, log)
    requires forall e :: e in log ==> Adds(e, a, size) || Misses(e, a, size)
    ensures LoadSized(Replay(m, log), a, size) == (LoadSized(m, a, size) + SumAdded(log, a, size)) % Span(size)
    decreases |log|
  {
    if log == [] {
      DivModUnique(LoadSized(m, a, size), Span(size), 0, LoadSized(m, a, size));
    } else {
      var front, e := log[..|log| - 1], log[|log| - 1];
      AdditionsConserve(m, front, a, size);
      AddStep(Replay(m, front), e, a, size, LoadSized(m, a, size) + SumAdded(front, a, size));
    }
  }

  lemma AddStep(m: Mem, e: Event, a: int, size: nat, total: nat)
    requires size < 4 && Legal(m, e) && (Adds(e, a, size) || Misses(e, a, size))
    requires LoadSized(m, a, size) == total % Span(size)
    ensures LoadSized(Effect(m, e), a, size) ==
            (total + if Adds(e, a, size) then X(e.c.x, e.c.k.d.rs) else 0) % Span(size)
  {
    var n, w := Bytes(size), Span(size);
    if Adds(e, a, size) {
      var v, was := X(e.c.x, e.c.k.d.rs), e.was;
      SpanIsPow2(size);
      LoadStored(m, a, n, (was + v % w) % w);
      DivModUnique((was + v % w) % w, w, 0, (was + v % w) % w);
      SumMod(was, v, w);
      SumMod(v, total, w);
    } else {
      match e
      case Atomic(_, c, was) => LoadElsewhere(m, c.x[c.k.d.rn], Bytes(c.k.d.size), NewValue(c.k, c.x, was), a, n);
      case Plain(b, k, v) => LoadElsewhere(m, b, k, v, a, n);
      case Spill(_, _, b, v) => LoadElsewhere(m, b, 8, v, a, n);
    }
  }

  // A call that may run beside the additions: an LDADD on the cell, or one whose operand
  // lies elsewhere; its stack window is elsewhere in any case.
  predicate Harmless(c: Call, a: int, size: nat) {
    && c.k.d.rn != 31 && Disjoint(c.sp - WINDOW, WINDOW, a, Bytes(size))
    && ((c.k.d.op == LDADD && c.k.d.size == size && c.x[c.k.d.rn] == a)
        || Disjoint(c.x[c.k.d.rn], Bytes(c.k.d.size), a, Bytes(size)))
  }

  predicate HarmlessAction(act: Action, a: int, size: nat) {
    match act
    case Begin(_, c, _) => Harmless(c, a, size)
    case Run(_, _) => true
    case Write(b, n, _) => Disjoint(b, n, a, Bytes(size))
  }

  predicate HarmlessEvent(e: Event, a: int, size: nat) {
    match e
    case Atomic(_, c, _) => Harmless(c, a, size)
    case Plain(b, n, _) => Disjoint(b, n, a, Bytes(size))
    case Spill(_, c, _, _) => Harmless(c, a, size)
  }

  ghost predicate Tame(s: System, a: int, size: nat) {
    && (forall t :: t in s.threads && s.threads[t].Running? ==> Harmless(s.threads[t].c, a, size))
    && (forall e :: e in s.log ==> HarmlessEvent(e, a, size))
  }

  // However a step of a running island changes the system, it logs that island's call.
  lemma TameEffects(s: System, t: Tid, p': Cpu, m': Mem, v: U64, lin: Option<U64>, a: int, size: nat)
    requires Tame(s, a, size) && t in s.threads && s.threads[t].Running? && Admissible(s.threads[t].c)
    ensures Tame(Returned(s, t, p'), a, size)
    ensures Tame(Pushed1(s, t, p', m', v), a, size)
    ensures Tame(Swapped(s, t, p', m', v), a, size)
    ensures Tame(Moved(s, t, p', lin), a, size)
  {
    hide Harmless, Admissible, Overlaps;
  }

  lemma AdmissibleOk(c: Call)
    requires Admissible(c)
    ensures c.k.Ok() && c.k.d.rn != 31
  {
  }

  lemma TameRun(s: System, t: Tid, ok: bool, a: int, size: nat)
    requires Tame(s, a, size) && Enabled(s, Run(t, ok))
    ensures Tame(Next(s, Run(t, ok)), a, size)
  {
    hide Inv, Admissible, PhaseOf, PhaseOk, Next, Tame, PlanFor, ReturnAt;
    var th := s.threads[t];
    AdmissibleOk(th.c);
    PhaseAt(th.c.k, th.p.pc);
    var ph := PhaseOf(th.c.k, th.p.pc);
    RunIs(s, t, ok);
    hide NextOf, NextLin, Spilled, Spills, Granted, Returned, Pushed1, Swapped, Moved, LoadReg;
    var (p', m') := NextOf(th.c, th.p, s.mem, ok, ph);
    var lin := NextLin(th.c, th.p, th.lin, s.mem, ok, ph);
    if Spills(ph) {
      TameEffects(s, t, p', m', Spilled(th.c, th.p, ph), lin, a, size);
    } else {
      TameEffects(s, t, p', m', th.p.x[LoadReg(th.c.k)], lin, a, size);
    }
  }

  lemma TameNext(m0: Mem, s: System, act: Action, a: int, size: nat)
    requires SystemInv(m0, s) && Tame(s, a, size) && Enabled(s, act) && HarmlessAction(act, a, size)
    ensures Tame(Next(s, act), a, size)
  {
    match act
    case Run(t, ok) =>
      hide *;
      TameRun(s, t, ok, a, size);
    case Begin(_, _, _) =>
      hide SystemInv, Harmless, Admissible, Apart, PlanFor, RunThread;
    case Write(_, _, _) =>
      hide SystemInv, Harmless, Overlaps, Store, RunThread;
  }

  lemma {:induction false} TameReaches(m0: Mem, s: System, acts: seq<Action>, s': System, a: int, size: nat)
    requires SystemInv(m0, s) && Tame(s, a, size) && Reaches(s, acts, s')
    requires forall i :: 0 <= i < |acts| ==> HarmlessAction(acts[i], a, size)
    ensures Tame(s', a, size)
    decreases |acts|
  {
    hide SystemInv, Tame, Next, Enabled, HarmlessAction;
    if acts != [] {
      TameNext(m0, s, acts[0], a, size);
      NextKeeps(m0, s, acts[0]);
      TameReaches(m0, Next(s, acts[0]), acts[1..], s', a, size);
    }
  }

  lemma {:induction false} SpillsStayInWindow(m: Mem, log: seq<Event>, e: Event)
    requires Explains(m, log) && e in log && e.Spill?
    ensures e.c.sp - WINDOW <= e.addr && e.addr + 8 <= e.c.sp
    decreases |log|
  {
    var (front, last) := (log[..|log| - 1], log[|log| - 1]);
    assert log == front + [last];
    if e in front {
      SpillsStayInWindow(m, front, e);
    }
  }

  // In every run whose islands and stores leave the cell to LDADDs, however they
  // interleave and however often a store-exclusive fails, the cell ends as its first
  // value plus every addend of the additions that took effect.
  lemma RunConserves(s: System, acts: seq<Action>, s': System, a: int, size: nat)
    requires size < 4 && Initial(s) && Reaches(s, acts, s')
    requires forall i :: 0 <= i < |acts| ==> HarmlessAction(acts[i], a, size)
    ensures LoadSized(s'.mem, a, size) == (LoadSized(s.mem, a, size) + SumAdded(s'.log, a, size)) % Span(size)
  {
    hide SystemInv, Reaches, HarmlessAction, LoadSized, SumAdded, Adds, Misses;
    InitialHolds(s);
    ReachesKeeps(s.mem, s, acts, s');
    assert Tame(s, a, size);
    TameReaches(s.mem, s, acts, s', a, size);
    hide Tame, Initial;
    TameEvents(s.mem, s', a, size);
    AdditionsConserve(s.mem, s'.log, a, size);
  }

  lemma TameEvents(m0: Mem, s: System, a: int, size: nat)
    requires SystemInv(m0, s) && Tame(s, a, size)
    ensures s.mem == Replay(m0, s.log) && Explains(m0, s.log)
    ensures forall e :: e in s.log ==> Adds(e, a, size) || Misses(e, a, size)
  {
    hide AllOk, AllApart, Explains, Replay;
    forall e | e in s.log
      ensures Adds(e, a, size) || Misses(e, a, size)
    {
      assert HarmlessEvent(e, a, size);
      if e.Spill? {
        SpillsStayInWindow(m0, s.log, e);
      }
    }
  }
}
