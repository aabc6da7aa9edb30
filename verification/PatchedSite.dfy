// Patched text and pool as the core fetches them: a site whose word has become a branch
// executes the LSE instruction it replaced.
module PatchedSite {
  import opened Bits
  import opened Options
  import opened Memory
  import opened A64
  import opened Lse
  import opened Machine
  import opened Island
  import opened IslandBody
  import opened IslandThread
  import opened IsaPatch
  import opened Concurrent
  import opened ConcurrentResults

  // --- Fetching ---

  // The instruction memory: a code section and its pool, at the addresses of l.
  datatype Code = Code(l: Layout, text: seq<U32>, pool: seq<U32>)

  predicate InPool(q: Code, addr: int) {
    q.l.poolAt <= addr < q.l.poolAt + |q.pool|
  }

  predicate InText(q: Code, addr: int) {
    q.l.codeAt <= addr < q.l.codeAt + |q.text|
  }

  // The section and the pool share no word.
  predicate Separate(q: Code) {
    q.l.codeAt + |q.text| <= q.l.poolAt || q.l.poolAt + |q.pool| <= q.l.codeAt
  }

  function Fetch(q: Code, addr: int): Option<Instr> {
    if InPool(q, addr) then Some(Decode(q.pool[addr - q.l.poolAt]))
    else if InText(q, addr) then Some(Decode(q.text[addr - q.l.codeAt]))
    else None
  }

  // s is the site of an LSE instruction d, patched, with an island near enough to return;
  // the pool does not start right after it.
  predicate LseSite(q: Code, before: seq<U32>, s: Site, d: Lse) {
    && SitePatched(q.l, s, before, q.text, q.pool) && Separate(q)
    && DecodeLse(before[s.i]) == Some(d)
    && Entry(q.l, s.i, s.at) <= 0x200_0002 - s.len
    && !InPool(q, Following(q, s))
  }

  function IslandBase(q: Code, s: Site): int { q.l.poolAt + s.at }

  function Following(q: Code, s: Site): int { q.l.codeAt + s.i + 1 }

  // What the guest has when it comes to the site.
  function CallAt(q: Code, s: Site, d: Lse, p: Cpu): Call {
    Call(PlanFor(d), p.x, p.sp, p.nzcv, Ret(q.l, s.i, s.at))
  }

  lemma EntryFetched(q: Code, before: seq<U32>, s: Site, d: Lse)
    requires LseSite(q, before, s, d)
    ensures Fetch(q, q.l.codeAt + s.i) == Some(B(IslandBase(q, s) - (q.l.codeAt + s.i)))
  {
    hide SitePatched, Decode, DecodeLse, IslandFor, PlanFor, ReturnAt, IslandCode;
    SiteSizes(q, before, s, d);
    EntryReaches(q.l, s, before, q.text, q.pool);
  }

  lemma SiteSizes(q: Code, before: seq<U32>, s: Site, d: Lse)
    requires LseSite(q, before, s, d)
    ensures s.i < |q.text| && s.at + s.len <= |q.pool|
    ensures IslandFor(before[s.i], Ret(q.l, s.i, s.at)) == Some(IslandCode(PlanFor(d), Ret(q.l, s.i, s.at)))
    ensures s.len == ReturnAt(PlanFor(d)) + 1
  {
    hide Decode, DecodeLse, PlanFor, IslandCode, EncodeAll, FieldsFit, ReturnAt;
    CodeAt(PlanFor(d), Ret(q.l, s.i, s.at), 0);
  }

  // Every word of the island is fetched as the instruction the emitter meant.
  lemma IslandFetched(q: Code, before: seq<U32>, s: Site, d: Lse, pc: nat)
    requires LseSite(q, before, s, d) && pc <= ReturnAt(PlanFor(d))
    ensures pc < |IslandCode(PlanFor(d), Ret(q.l, s.i, s.at))|
    ensures Fetch(q, IslandBase(q, s) + pc) == Some(IslandCode(PlanFor(d), Ret(q.l, s.i, s.at))[pc])
  {
    hide SitePatched, Decode, DecodeLse, IslandFor, PlanFor, ReturnAt, IslandCode;
    var (k, ret) := (PlanFor(d), Ret(q.l, s.i, s.at));
    SiteSizes(q, before, s, d);
    IslandDecodes(q.l, s, before, q.text, q.pool);
    CodeAt(k, ret, pc);
    if pc == s.len - 1 {
      LastIsReturn(k, ret);
    }
  }

  lemma LastIsReturn(k: Plan, ret: int)
    ensures |IslandCode(k, ret)| == ReturnAt(k) + 1
    ensures IslandCode(k, ret)[ReturnAt(k)] == B(ret - ReturnAt(k))
  {
    PcAt(k, Return);
    CodeAt(k, ret, ReturnAt(k));
  }

  // --- A step of the island is a step of the fetched word ---

  function Shift(p: Cpu, base: int): Cpu {
    p.(pc := p.pc + base)
  }

  // No instruction reads the program counter except to move it.
  lemma StepShifts(i: Instr, p: Cpu, m: Mem, ok: bool, base: int)
    ensures Step(i, Shift(p, base), m, ok) == (Shift(Step(i, p, m, ok).0, base), Step(i, p, m, ok).1)
  {
    hide LocalStep;
  }

  lemma ReturnStep(c: Call, p: Cpu, lin: Option<U64>, m: Mem, ok: bool)
    requires Inv(c, p, lin, m, Return) && p.pc == PcOf(c.k, Return)
    ensures var (p', m') := NextOf(c, p, m, ok, Return); p'.pc == c.ret && m' == m && lin.Some?
  {
    KeepReturn(c, p, lin, m, ok);
  }

  // A core of thread th, at base + its place in the island, becomes p' and the thread th':
  // either it is still in the island, or it is at `after` and handed back its state.
  predicate Moves(th: Thread, th': Thread, base: int, p': Cpu, after: int) {
    if th'.Running? then
      th.Running? && p' == Shift(th'.p, base) && th'.c == th.c && th'.done == th.done
    else
      && p'.pc == after && |th'.done| == |th.done| + 1 && th'.done[..|th.done|] == th.done
      && p' == Shift(th'.done[|th.done|].p, base)
  }

  lemma MovesShift(th: Thread, th': Thread, base: int, p': Cpu, after: int)
    requires Moves(th, th', 0, p', after)
    ensures Moves(th, th', base, Shift(p', base), after + base)
  {
  }

  // What a step of the concurrent machine does to the core and to memory.
  lemma RunSteps(s: System, t: Tid, ok: bool)
    requires Enabled(s, Run(t, ok)) && Live(s.threads[t], s.mem)
    ensures t in Next(s, Run(t, ok)).threads
    ensures var (th, s') := (s.threads[t], Next(s, Run(t, ok)));
            && th.p.pc < |IslandCode(th.c.k, th.c.ret)|
            && var (p', m') := Step(IslandCode(th.c.k, th.c.ret)[th.p.pc], th.p, s.mem, ok);
            && s'.mem == m' && Moves(th, s'.threads[t], 0, p', th.c.ret)
  {
    hide PhaseOf, PcOf, NextOf, NextLin, Next, Spilled, IslandCode, At, OnStack, DisturbOthers, ReturnAt, InstrOf;
    hide Granted, Step, PlanFor, Admissible;
    var th := s.threads[t];
    var ph := PhaseOf(th.c.k, th.p.pc);
    PhaseAt(th.c.k, th.p.pc);
    SelfKeeps(th, s.mem, ok);
    CodeAt(th.c.k, th.c.ret, th.p.pc);
    RunIs(s, t, ok);
    if ph == Return {
      ReturnStep(th.c, th.p, th.lin, s.mem, ok);
    } else if !Spills(ph) {
      StepWrites(th.c, th.p, th.lin, s.mem, ok, ph);
    }
  }

  // The core that runs the island of a site, at its address.
  predicate AtSite(q: Code, s: Site, d: Lse, c: Call) {
    c.k == PlanFor(d) && c.ret == Ret(q.l, s.i, s.at)
  }

  // Thread th and memory become th' and m' by the word at the core's address.
  predicate FetchedStep(q: Code, th: Thread, m: Mem, ok: bool, th': Thread, m': Mem, base: int, after: int) {
    th.Running? && Fetch(q, th.p.pc + base).Some? &&
    var (p, n) := Step(Fetch(q, th.p.pc + base).value, Shift(th.p, base), m, ok);
    m' == n && Moves(th, th', base, p, after)
  }

  // In every state of the concurrent machine, whatever the other cores do: the step of a
  // core in a site's island is the step of the word fetched at its address, and the last
  // one leads to the word after the site.
  lemma RunIsFetched(q: Code, before: seq<U32>, site: Site, d: Lse, s: System, t: Tid, ok: bool)
    requires LseSite(q, before, site, d)
    requires Enabled(s, Run(t, ok)) && Live(s.threads[t], s.mem) && AtSite(q, site, d, s.threads[t].c)
    ensures t in Next(s, Run(t, ok)).threads
    ensures var s' := Next(s, Run(t, ok));
            FetchedStep(q, s.threads[t], s.mem, ok, s'.threads[t], s'.mem, IslandBase(q, site), Following(q, site))
  {
    hide Live, Next, Moves, IslandCode, Step, LseSite, PlanFor, Admissible, ReturnAt, Fetch, Shift;
    var (th, base) := (s.threads[t], IslandBase(q, site));
    RunSteps(s, t, ok);
    IslandFetched(q, before, site, d, th.p.pc);
    var i := IslandCode(th.c.k, th.c.ret)[th.p.pc];
    StepShifts(i, th.p, s.mem, ok, base);
    MovesShift(th, Next(s, Run(t, ok)).threads[t], base, Step(i, th.p, s.mem, ok).0, th.c.ret);
    BackAfter(q, site);
  }

  lemma BackAfter(q: Code, s: Site)
    ensures Ret(q.l, s.i, s.at) + IslandBase(q, s) == Following(q, s)
  {
  }

  // --- A site executes its instruction ---

  // A core running what it fetches, one element of oks per instruction, until it comes
  // to `stop`.
  function RunTo(q: Code, p: Cpu, m: Mem, oks: seq<bool>, stop: int): Option<(Cpu, Mem)>
    decreases |oks|
  {
    if p.pc == stop then Some((p, m))
    else if oks == [] || Fetch(q, p.pc).None? then None
    else
      var (p', m') := Step(Fetch(q, p.pc).value, p, m, oks[0]);
      RunTo(q, p', m', oks[1..], stop)
  }

  lemma RunToStep(q: Code, p: Cpu, m: Mem, oks: seq<bool>, stop: int)
    requires p.pc != stop && oks != [] && Fetch(q, p.pc).Some?
    ensures var (p', m') := Step(Fetch(q, p.pc).value, p, m, oks[0]);
            RunTo(q, p, m, oks, stop) == RunTo(q, p', m', oks[1..], stop)
  {
    hide Fetch, Step;
  }

  // A thread that is in the island, or has just left it.
  predicate Tracks(q: Code, site: Site, s: System, t: Tid, p: Cpu, m: Mem) {
    && t in s.threads && s.mem == m
    && if s.threads[t].Running? then p == Shift(s.threads[t].p, IslandBase(q, site))
       else |s.threads[t].done| == 1 && p == Shift(s.threads[t].done[0].p, IslandBase(q, site))
            && p.pc == Following(q, site)
  }

  lemma NotYetBack(q: Code, before: seq<U32>, site: Site, d: Lse, th: Thread)
    requires LseSite(q, before, site, d) && th.Running? && AtSite(q, site, d, th.c)
    requires 0 <= th.p.pc <= ReturnAt(th.c.k)
    ensures Shift(th.p, IslandBase(q, site)).pc != Following(q, site)
  {
    hide SitePatched, DecodeLse, PlanFor, ReturnAt, IslandCode, IslandFor;
    SiteSizes(q, before, site, d);
  }

  lemma TracksStep(q: Code, before: seq<U32>, site: Site, d: Lse, m0: Mem, s: System, t: Tid, c: Call, ok: bool,
                   p: Cpu)
    requires LseSite(q, before, site, d) && AtSite(q, site, d, c)
    requires SystemInv(m0, s) && Alone(s, t, c) && s.threads[t].Running? && Tracks(q, site, s, t, p, s.mem)
    ensures p.pc != Following(q, site) && Fetch(q, p.pc).Some? && Enabled(s, Run(t, ok))
    ensures var (p', m') := Step(Fetch(q, p.pc).value, p, s.mem, ok);
            var s' := Next(s, Run(t, ok));
            SystemInv(m0, s') && Alone(s', t, c) && Tracks(q, site, s', t, p', m')
  {
    hide SystemInv, LseSite, AtSite, Next, Step, Fetch, Admissible, ReturnAt, Inv, PlanFor, Own;
    CanRun(m0, s, t);
    KeepRun(m0, s, t, ok);
    AloneStep(s, t, c, ok);
    NotYetBack(q, before, site, d, s.threads[t]);
    RunIsFetched(q, before, site, d, s, t, ok);
  }

  lemma {:induction false} Simulated(q: Code, before: seq<U32>, site: Site, d: Lse, m0: Mem, s: System, t: Tid, c: Call,
                                     p: Cpu, oks: seq<bool>, p': Cpu, m': Mem) returns (s': System)
    requires LseSite(q, before, site, d) && AtSite(q, site, d, c)
    requires SystemInv(m0, s) && Alone(s, t, c) && Tracks(q, site, s, t, p, s.mem)
    requires RunTo(q, p, s.mem, oks, Following(q, site)) == Some((p', m'))
    ensures SystemInv(m0, s') && Alone(s', t, c) && s'.threads[t].Idle? && Tracks(q, site, s', t, p', m')
    decreases |oks|
  {
    hide SystemInv, LseSite, AtSite, Next, Step, Fetch, Own, Enabled;
    if s.threads[t].Idle? {
      s' := s;
    } else {
      TracksStep(q, before, site, d, m0, s, t, c, oks != [] && oks[0], p);
      s' := Simulated(q, before, site, d, m0, Next(s, Run(t, oks[0])), t, c,
                      Step(Fetch(q, p.pc).value, p, s.mem, oks[0]).0, oks[1..], p', m');
    }
  }

  // A system of one core that comes to the site.
  function Lone(m: Mem): System {
    System(m, map[0 := Idle([])], [])
  }

  function Begun(c: Call, m: Mem, monitor: Option<Cell>): System
    requires Enabled(Lone(m), Begin(0, c, monitor))
  {
    Next(Lone(m), Begin(0, c, monitor))
  }

  // The entry branch begins the island.
  lemma Enters(q: Code, before: seq<U32>, site: Site, d: Lse, p: Cpu, m: Mem, ok: bool)
    requires LseSite(q, before, site, d) && p.pc == q.l.codeAt + site.i && Admissible(CallAt(q, site, d, p))
    ensures Fetch(q, p.pc).Some?
    ensures var c := CallAt(q, site, d, p);
            var (p', m') := Step(Fetch(q, p.pc).value, p, m, ok);
            && AtSite(q, site, d, c) && Enabled(Lone(m), Begin(0, c, p.monitor)) && m' == m
            && SystemInv(m, Begun(c, m, p.monitor)) && Alone(Begun(c, m, p.monitor), 0, c)
            && Begun(c, m, p.monitor).mem == m
            && 0 in Begun(c, m, p.monitor).threads && Begun(c, m, p.monitor).threads[0].Running?
            && Tracks(q, site, Begun(c, m, p.monitor), 0, p', m)
  {
    hide LseSite, Admissible, PlanFor, Fetch, SystemInv, Own;
    EntryFetched(q, before, site, d);
    PlanIsFor(d);
    var c := CallAt(q, site, d, p);
    InitialHolds(Lone(m));
    KeepBegin(m, Lone(m), 0, c, p.monitor);
    BeginAlone(Lone(m), 0, c, p.monitor);
  }

  lemma PlanIsFor(d: Lse)
    ensures PlanFor(d).d == d
  {
  }

  // The architectural effect of d at the site on registers and memory.
  ghost predicate Executed(c: Call, m: Mem, p': Cpu, m': Mem)
    requires Admissible(c)
  {
    var (a, size) := (c.x[c.k.d.rn], c.k.d.size);
    var was := LoadSized(m, a, size);
    && p'.x == Result(c, was) && p'.sp == c.sp && p'.nzcv == c.nzcv
    && LoadSized(m', a, size) == NewValue(c.k, c.x, was)
    && (Faithful(c) ==> LoadSized(m', a, size) == ArchitecturalValue(c, was))
    && forall b :: Outside(c, b) ==> Byte(m', b) == Byte(m, b)
  }

  lemma DoneExecuted(q: Code, site: Site, d: Lse, m: Mem, s: System, c: Call, p': Cpu, m': Mem)
    requires Admissible(c) && SystemInv(m, s) && Alone(s, 0, c) && s.threads[0].Idle?
    requires Tracks(q, site, s, 0, p', m')
    ensures Executed(c, m, p', m') && p'.pc == Following(q, site)
  {
    hide SystemInv, NewValue, Emulated, Architectural, Faithful;
    AloneDone(m, s, 0, c);
    var was := LoadSized(m, c.x[c.k.d.rn], c.k.d.size);
    if Faithful(c) {
      ValueIsArchitectural(c, was);
    }
  }

  lemma ValueIsArchitectural(c: Call, was: U64)
    requires Admissible(c) && Faithful(c) && was < Span(c.k.d.size)
    ensures NewValue(c.k, c.x, was) == ArchitecturalValue(c, was)
  {
    hide Emulated, Architectural;
    EmulatedIsArchitectural(c.k.d.op, c.k.d.size, was, X(c.x, c.k.d.rs), X(c.x, c.k.d.rt));
  }

  // A patched site executes its LSE instruction: a core that comes to it and runs what it
  // fetches, whichever store-exclusives fail, is at the next word of the section when it
  // first comes there with the registers, flags and memory the instruction gives.
  lemma SiteExecutes(q: Code, before: seq<U32>, site: Site, d: Lse, p: Cpu, m: Mem, oks: seq<bool>, p': Cpu, m': Mem)
    requires LseSite(q, before, site, d) && p.pc == q.l.codeAt + site.i && Admissible(CallAt(q, site, d, p))
    requires RunTo(q, p, m, oks, Following(q, site)) == Some((p', m'))
    ensures p'.pc == Following(q, site) && Executed(CallAt(q, site, d, p), m, p', m')
  {
    hide LseSite, Admissible, PlanFor, Fetch, SystemInv, Own, Step, Enabled, Executed, Alone, Tracks, AtSite, Begun;
    var c := CallAt(q, site, d, p);
    Enters(q, before, site, d, p, m, oks != [] && oks[0]);
    var s' := Simulated(q, before, site, d, m, Begun(c, m, p.monitor), 0, c,
                        Step(Fetch(q, p.pc).value, p, m, oks[0]).0, oks[1..], p', m');
    DoneExecuted(q, site, d, m, s', c, p', m');
  }

  function Granting(n: nat): seq<bool> {
    seq(n, i => true)
  }

  lemma GrantingTail(n: nat)
    ensures |Granting(n + 1)| == n + 1 && Granting(n + 1)[1..] == Granting(n) && Granting(n + 1)[0]
  {
  }

  // It does come there: undisturbed, within 29 instructions.
  lemma {:induction false} FinishesFrom(q: Code, before: seq<U32>, site: Site, d: Lse, m0: Mem, s: System, c: Call,
                                        p: Cpu, n: nat)
    requires LseSite(q, before, site, d) && AtSite(q, site, d, c)
    requires SystemInv(m0, s) && Alone(s, 0, c) && Tracks(q, site, s, 0, p, s.mem)
    requires s.threads[0].Running? ==> Enabled(s, Run(0, true)) && RankOf(s.threads[0]) <= n
    ensures RunTo(q, p, s.mem, Granting(n), Following(q, site)).Some?
    decreases n
  {
    hide SystemInv, LseSite, AtSite, Next, Step, Fetch, Own, Rank, RankOf, Admissible, ReturnAt;
    if s.threads[0].Running? {
      assert RankOf(s.threads[0]) > 0;
      hide Enabled;
      TracksStep(q, before, site, d, m0, s, 0, c, true, p);
      SoloStep(m0, s, 0);
      GrantingTail(n - 1);
      RunToStep(q, p, s.mem, Granting(n), Following(q, site));
      FinishesFrom(q, before, site, d, m0, Next(s, Run(0, true)), c,
                   Step(Fetch(q, p.pc).value, p, s.mem, true).0, n - 1);
    }
  }

  lemma SiteFinishes(q: Code, before: seq<U32>, site: Site, d: Lse, p: Cpu, m: Mem)
    requires LseSite(q, before, site, d) && p.pc == q.l.codeAt + site.i && Admissible(CallAt(q, site, d, p))
    ensures RunTo(q, p, m, Granting(29), Following(q, site)).Some?
  {
    hide LseSite, Admissible, PlanFor, Fetch, SystemInv, Own, Step, Enabled, Alone, Tracks, AtSite, Begun, Rank, RankOf, RunTo, Granting;
    var c := CallAt(q, site, d, p);
    Enters(q, before, site, d, p, m, true);
    var s := Begun(c, m, p.monitor);
    SoloStep(m, s, 0);
    RankIsSmall(m, s);
    assert |Granting(29)| == 29 && Granting(29)[1..] == Granting(28) && Granting(29)[0] by { GrantingTail(28); }
    RunToStep(q, p, m, Granting(29), Following(q, site));
    FinishesFrom(q, before, site, d, m, s, c, Step(Fetch(q, p.pc).value, p, m, true).0, 28);
  }

  lemma RankIsSmall(m: Mem, s: System)
    requires SystemInv(m, s) && 0 in s.threads && s.threads[0].Running? && Enabled(s, Run(0, true))
    ensures RankOf(s.threads[0]) <= 28
  {
    var th := s.threads[0];
    hide SystemInv, Rank, PhaseOf;
    PhaseAt(th.c.k, th.p.pc);
    RankBound(th.c, th.p, PhaseOf(th.c.k, th.p.pc));
  }
}
