// Any number of cores running LSE islands step by step on shared memory, mixed
// with ordinary guest stores: every run is explained by a log in which each
// LSE instruction happens at one instant.
module Concurrent {
  import opened Bits
  import opened Options
  import opened Memory
  import opened Lse
  import opened Machine
  import opened Island
  import opened IslandBody
  import opened IslandThread

  type Tid = nat

  // The atomic happenings of a run: an LSE instruction that read `was`, an
  // ordinary store, and an island saving a register below the guest's SP.
  datatype Event =
    | Atomic(t: Tid, c: Call, was: U64)
    | Plain(addr: int, bytes: nat, value: nat)
    | Spill(t: Tid, c: Call, addr: int, word: U64)

  // A completed island: the guest state it started from, the value its
  // instruction read, and the state it handed back.
  datatype Outcome = Outcome(c: Call, was: U64, p: Cpu)

  datatype Thread =
    | Idle(done: seq<Outcome>)
    | Running(c: Call, p: Cpu, lin: Option<U64>, done: seq<Outcome>)

  datatype System = System(mem: Mem, threads: map<Tid, Thread>, log: seq<Event>)

  datatype Action =
    | Begin(t: Tid, c: Call, monitor: Option<Cell>)
    | Run(t: Tid, ok: bool)
    | Write(addr: int, bytes: nat, value: nat)

  // --- The abstract machine: events applied one after the other ---

  function Effect(m: Mem, e: Event): Mem {
    match e
    case Atomic(_, c, was) =>
      if c.k.d.rn != 31 && Stores(c.k, c.x, was)
      then Store(m, c.x[c.k.d.rn], Bytes(c.k.d.size), NewValue(c.k, c.x, was))
      else m
    case Plain(a, n, v) => Store(m, a, n, v)
    case Spill(_, _, a, v) => Store(m, a, 8, v)
  }

  // An LSE instruction reads what memory holds at its instant; a spill stays
  // in the 64 bytes below the guest's SP.
  predicate Legal(m: Mem, e: Event) {
    match e
    case Atomic(_, c, was) => Admissible(c) && was == LoadSized(m, c.x[c.k.d.rn], c.k.d.size)
    case Plain(_, _, _) => true
    case Spill(_, c, a, _) => c.sp - WINDOW <= a && a + 8 <= c.sp
  }

  function Replay(m: Mem, log: seq<Event>): Mem {
    if log == [] then m else Effect(Replay(m, log[..|log| - 1]), log[|log| - 1])
  }

  predicate Explains(m: Mem, log: seq<Event>) {
    log == [] || (Explains(m, log[..|log| - 1]) && Legal(Replay(m, log[..|log| - 1]), log[|log| - 1]))
  }

  // The instructions of one thread, in the order in which they took effect.
  function Mine(log: seq<Event>, t: Tid): seq<Event> {
    if log == [] then []
    else
      var e := log[|log| - 1];
      Mine(log[..|log| - 1], t) + if e.Atomic? && e.t == t then [e] else []
  }

  lemma Extend(m: Mem, log: seq<Event>, e: Event, t: Tid)
    ensures Replay(m, log + [e]) == Effect(Replay(m, log), e)
    ensures Explains(m, log + [e]) <==> Explains(m, log) && Legal(Replay(m, log), e)
    ensures Mine(log + [e], t) == Mine(log, t) + if e.Atomic? && e.t == t then [e] else []
  {
    assert (log + [e])[..|log|] == log;
  }

  // --- The concrete machine ---

  predicate Overlaps(cell: Cell, a: int, n: int) {
    !Disjoint(cell.addr, cell.bytes, a, n)
  }

  // A store by someone else clears a monitor on the bytes it touches.
  function Disturb(th: Thread, a: int, n: int): Thread {
    if th.Running? && th.p.monitor.Some? && Overlaps(th.p.monitor.value, a, n)
    then th.(p := th.p.(monitor := None))
    else th
  }

  function DisturbOthers(ths: map<Tid, Thread>, t: Tid, a: int, n: int): map<Tid, Thread> {
    map u | u in ths :: if u == t then ths[u] else Disturb(ths[u], a, n)
  }

  // Two islands may run together when neither one's stack window meets the
  // other's window or operand.
  predicate Apart(c: Call, c': Call)
    requires c.k.d.rn != 31 && c'.k.d.rn != 31
  {
    && Disjoint(c.sp - WINDOW, WINDOW, c'.sp - WINDOW, WINDOW)
    && Disjoint(c.x[c.k.d.rn], Bytes(c.k.d.size), c'.sp - WINDOW, WINDOW)
    && Disjoint(c'.x[c'.k.d.rn], Bytes(c'.k.d.size), c.sp - WINDOW, WINDOW)
  }

  predicate Enabled(s: System, a: Action) {
    match a
    case Begin(t, c, _) =>
      && t in s.threads && s.threads[t].Idle?
      && Admissible(c) && c.k == PlanFor(c.k.d)
      && forall u :: u in s.threads && s.threads[u].Running? ==>
           s.threads[u].c.k.d.rn != 31 && Apart(c, s.threads[u].c)
    case Run(t, _) =>
      && t in s.threads && s.threads[t].Running? && Admissible(s.threads[t].c)
      && 0 <= s.threads[t].p.pc <= ReturnAt(s.threads[t].c.k)
    case Write(addr, n, _) =>
      forall u :: u in s.threads && s.threads[u].Running? ==>
        Disjoint(addr, n, s.threads[u].c.sp - WINDOW, WINDOW)
  }

  function Next(s: System, a: Action): System
    requires Enabled(s, a)
  {
    match a
    case Begin(t, c, monitor) =>
      s.(threads := s.threads[t := Running(c, Cpu(0, c.x, c.sp, c.nzcv, monitor), None, s.threads[t].done)])
    case Run(t, ok) => RunThread(s, t, ok)
    case Write(addr, n, v) =>
      System(Store(s.mem, addr, n, v),
             map u | u in s.threads :: Disturb(s.threads[u], addr, n),
             s.log + [Plain(addr, n, v)])
  }

  // What a step of thread t's island makes of the system, given the core p'
  // and memory m' after it. The log and the outcomes only record.
  function Returned(s: System, t: Tid, p': Cpu): System
    requires t in s.threads && s.threads[t].Running?
  {
    var th := s.threads[t];
    s.(threads := s.threads[t := Idle(if th.lin.Some? then th.done + [Outcome(th.c, th.lin.value, p')] else th.done)])
  }

  function Pushed1(s: System, t: Tid, p': Cpu, m': Mem, v: U64): System
    requires t in s.threads && s.threads[t].Running?
  {
    var th := s.threads[t];
    System(m', DisturbOthers(s.threads, t, p'.sp, 8)[t := th.(p := p')], s.log + [Spill(t, th.c, p'.sp, v)])
  }

  function Swapped(s: System, t: Tid, p': Cpu, m': Mem, was: U64): System
    requires t in s.threads && s.threads[t].Running? && Admissible(s.threads[t].c)
  {
    var th := s.threads[t];
    var cell := CellOf(th.c);
    System(m', DisturbOthers(s.threads, t, cell.addr, cell.bytes)[t := th.(p := p', lin := Some(was))],
           s.log + [Atomic(t, th.c, was)])
  }

  function Moved(s: System, t: Tid, p': Cpu, lin: Option<U64>): System
    requires t in s.threads && s.threads[t].Running?
  {
    var th := s.threads[t];
    System(s.mem, s.threads[t := th.(p := p', lin := lin)],
           if lin.Some? && th.lin.None? then s.log + [Atomic(t, th.c, lin.value)] else s.log)
  }

  // One instruction of thread t's island.
  function RunThread(s: System, t: Tid, ok: bool): System
    requires t in s.threads && s.threads[t].Running? && Admissible(s.threads[t].c)
    requires 0 <= s.threads[t].p.pc <= ReturnAt(s.threads[t].c.k)
  {
    var th := s.threads[t];
    var (c, p) := (th.c, th.p);
    CodeAt(c.k, c.ret, p.pc);
    PhaseAt(c.k, p.pc);
    var ph := PhaseOf(c.k, p.pc);
    var (p', m') := Step(IslandCode(c.k, c.ret)[p.pc], p, s.mem, ok);
    if ph.Return? then Returned(s, t, p')
    else if Spills(ph) then Pushed1(s, t, p', m', Spilled(c, p, ph))
    else if ph.StoreExclusive? && Granted(c, p, ok) then Swapped(s, t, p', m', p.x[LoadReg(c.k)])
    else Moved(s, t, p', NextLin(c, p, th.lin, s.mem, ok, ph))
  }

  predicate Reaches(s: System, acts: seq<Action>, s': System)
    decreases |acts|
  {
    if acts == [] then s == s'
    else Enabled(s, acts[0]) && Reaches(Next(s, acts[0]), acts[1..], s')
  }

  predicate Initial(s: System) {
    s.log == [] && forall t :: t in s.threads ==> s.threads[t] == Idle([])
  }

  // --- The invariant of every reachable state ---

  // The events a thread should have in the log: its completed islands, then
  // the island it runs if that has taken effect.
  function Took(t: Tid, th: Thread): seq<Event> {
    seq(|th.done|, i requires 0 <= i < |th.done| => Atomic(t, th.done[i].c, th.done[i].was))
    + if th.Running? && th.lin.Some? then [Atomic(t, th.c, th.lin.value)] else []
  }

  // What the guest must find after the instruction.
  predicate Correct(o: Outcome) {
    o.p.pc == o.c.ret && o.p.x == Result(o.c, o.was) && o.p.sp == o.c.sp && o.p.nzcv == o.c.nzcv
  }

  predicate Live(th: Thread, m: Mem) {
    th.Running? ==>
      && 0 <= th.p.pc <= ReturnAt(th.c.k)
      && th.c.k == PlanFor(th.c.k.d)
      && Inv(th.c, th.p, th.lin, m, PhaseOf(th.c.k, th.p.pc))
  }

  predicate ThreadOk(s: System, t: Tid)
    requires t in s.threads
  {
    && Live(s.threads[t], s.mem)
    && Mine(s.log, t) == Took(t, s.threads[t])
    && forall o :: o in s.threads[t].done ==> Correct(o)
  }

  predicate AllApart(ths: map<Tid, Thread>) {
    forall t, u :: t in ths && u in ths && t != u && ths[t].Running? && ths[u].Running? ==>
      ths[t].c.k.d.rn != 31 && ths[u].c.k.d.rn != 31 && Apart(ths[t].c, ths[u].c)
  }

  predicate AllOk(s: System) {
    forall t :: t in s.threads ==> ThreadOk(s, t)
  }

  predicate Explained(m0: Mem, s: System) {
    s.mem == Replay(m0, s.log) && Explains(m0, s.log)
  }

  predicate SystemInv(m0: Mem, s: System) {
    Explained(m0, s) && AllApart(s.threads) && AllOk(s)
  }

  // No thread starts, and those that go on keep their call.
  predicate Continues(ths: map<Tid, Thread>, ths': map<Tid, Thread>) {
    forall u :: u in ths' ==>
      u in ths && (ths'[u].Running? ==> ths[u].Running? && ths'[u].c == ths[u].c)
  }

  lemma StillApart(ths: map<Tid, Thread>, ths': map<Tid, Thread>)
    requires AllApart(ths) && Continues(ths, ths')
    ensures AllApart(ths')
  {
  }

  // A store outside a thread's window leaves its invariant alone: if it
  // touches the monitored cell, the monitor goes with it.
  lemma DisturbedLive(th: Thread, m: Mem, a: int, n: nat, v: nat)
    requires Live(th, m)
    requires th.Running? ==> Disjoint(a, n, th.c.sp - WINDOW, WINDOW)
    ensures Live(Disturb(th, a, n), Store(m, a, n, v))
  {
    if th.Running? {
      var c, m', th' := th.c, Store(m, a, n, v), Disturb(th, a, n);
      forall b | c.sp - WINDOW <= b < c.sp
        ensures Byte(m', b) == Byte(m, b)
      {
        StoreElsewhere(m, a, n, v, b);
      }
      if th'.p.monitor == Some(CellOf(c)) {
        LoadElsewhere(m, a, n, v, c.x[c.k.d.rn], Bytes(c.k.d.size));
      }
      Undisturbed(c, th.p, th.lin, m, th'.p, m', PhaseOf(c.k, th.p.pc));
    }
  }

  lemma BeginApart(s: System, t: Tid, c: Call, monitor: Option<Cell>)
    requires AllApart(s.threads) && Enabled(s, Begin(t, c, monitor))
    ensures AllApart(Next(s, Begin(t, c, monitor)).threads)
  {
  }

  lemma BeginLive(s: System, t: Tid, c: Call, monitor: Option<Cell>)
    requires t in s.threads && ThreadOk(s, t) && Enabled(s, Begin(t, c, monitor))
    ensures ThreadOk(Next(s, Begin(t, c, monitor)), t)
  {
    PcAt(c.k, Push(0));
    assert Pushed(c, Push(0)) == [];
  }

  lemma SameView(s: System, s': System, u: Tid)
    requires u in s.threads && ThreadOk(s, u)
    requires u in s'.threads && s'.threads[u] == s.threads[u] && s'.mem == s.mem
    requires Mine(s'.log, u) == Mine(s.log, u)
    ensures ThreadOk(s', u)
  {
  }

  lemma KeepBegin(m0: Mem, s: System, t: Tid, c: Call, monitor: Option<Cell>)
    requires SystemInv(m0, s) && Enabled(s, Begin(t, c, monitor))
    ensures SystemInv(m0, Next(s, Begin(t, c, monitor)))
  {
    var s' := Next(s, Begin(t, c, monitor));
    BeginApart(s, t, c, monitor);
    forall u | u in s'.threads
      ensures ThreadOk(s', u)
    {
      if u == t {
        BeginLive(s, t, c, monitor);
      } else {
        SameView(s, s', u);
      }
    }
  }

  // A store of t (or of no island) as another thread sees it.
  lemma OtherKeeps(s: System, s': System, u: Tid, e: Event, a: int, n: nat, v: nat)
    requires u in s.threads && ThreadOk(s, u)
    requires u in s'.threads && s'.threads[u] == Disturb(s.threads[u], a, n)
    requires s'.mem == Store(s.mem, a, n, v) && s'.log == s.log + [e]
    requires e.Atomic? ==> e.t != u
    requires s.threads[u].Running? ==> Disjoint(a, n, s.threads[u].c.sp - WINDOW, WINDOW)
    ensures ThreadOk(s', u)
  {
    Extend(map[], s.log, e, u);
    DisturbedLive(s.threads[u], s.mem, a, n, v);
  }

  // s' is s after a store of v, by the threads in `who` or by none of them.
  predicate AfterStore(s: System, s': System, who: set<Tid>, e: Event, a: int, n: nat, v: nat) {
    && s'.mem == Store(s.mem, a, n, v) && s'.log == s.log + [e]
    && s'.threads.Keys == s.threads.Keys
    && forall u :: u in s.threads && u !in who ==>
         && s'.threads[u] == Disturb(s.threads[u], a, n)
         && (e.Atomic? ==> e.t != u)
         && (s.threads[u].Running? ==> Disjoint(a, n, s.threads[u].c.sp - WINDOW, WINDOW))
  }

  lemma OthersKeep(s: System, s': System, who: set<Tid>, e: Event, a: int, n: nat, v: nat)
    requires AllOk(s) && AfterStore(s, s', who, e, a, n, v)
    ensures OkExcept(s', who)
  {
    forall u | u in s'.threads && u !in who
      ensures ThreadOk(s', u)
    {
      OtherKeeps(s, s', u, e, a, n, v);
    }
  }

  lemma LogGrows(m0: Mem, s: System, s': System, e: Event)
    requires Explained(m0, s) && Legal(s.mem, e)
    requires s'.mem == Effect(s.mem, e) && s'.log == s.log + [e]
    ensures Explained(m0, s')
  {
    Extend(m0, s.log, e, 0);
  }

  lemma WriteIs(s: System, addr: int, n: nat, v: nat)
    requires Enabled(s, Write(addr, n, v))
    ensures var s' := Next(s, Write(addr, n, v));
            && AfterStore(s, s', {}, Plain(addr, n, v), addr, n, v)
            && Continues(s.threads, s'.threads)
  {
  }

  lemma KeepWrite(m0: Mem, s: System, addr: int, n: nat, v: nat)
    requires SystemInv(m0, s) && Enabled(s, Write(addr, n, v))
    ensures SystemInv(m0, Next(s, Write(addr, n, v)))
  {
    var e := Plain(addr, n, v);
    var s' := Next(s, Write(addr, n, v));
    WriteIs(s, addr, n, v);
    LogGrows(m0, s, s', e);
    StillApart(s.threads, s'.threads);
    OthersKeep(s, s', {}, e, addr, n, v);
  }

  lemma SelfAfter(s: System, s': System, t: Tid, e: Event)
    requires t in s.threads && ThreadOk(s, t)
    requires t in s'.threads && Live(s'.threads[t], s'.mem)
    requires s'.log == s.log + [e] && (e.Atomic? ==> e.t == t)
    requires s'.threads[t].done == s.threads[t].done
    requires Took(t, s'.threads[t]) == Took(t, s.threads[t]) + if e.Atomic? then [e] else []
    ensures ThreadOk(s', t)
  {
    Extend(map[], s.log, e, t);
  }

  // All threads but those in `who`.
  predicate OkExcept(s: System, who: set<Tid>) {
    forall u :: u in s.threads && u !in who ==> ThreadOk(s, u)
  }

  lemma Gather(m0: Mem, s: System, t: Tid)
    requires Explained(m0, s) && AllApart(s.threads) && OkExcept(s, {t})
    requires t in s.threads && ThreadOk(s, t)
    ensures SystemInv(m0, s)
  {
    hide ThreadOk, Explained, AllApart;
  }

  lemma SamesKeep(s: System, s': System, t: Tid)
    requires AllOk(s) && s'.mem == s.mem && s'.threads.Keys == s.threads.Keys
    requires forall u :: u in s.threads && u != t ==>
               s'.threads[u] == s.threads[u] && Mine(s'.log, u) == Mine(s.log, u)
    ensures OkExcept(s', {t})
  {
    hide Live, Mine;
    forall u | u in s'.threads && u != t
      ensures ThreadOk(s', u)
    {
      SameView(s, s', u);
    }
  }

  lemma ReturnedIs(s: System, t: Tid, p': Cpu)
    requires t in s.threads && s.threads[t].Running?
    ensures var s' := Returned(s, t, p'); Continues(s.threads, s'.threads)
  {
  }

  lemma ReturnedSelf(s: System, t: Tid, p': Cpu)
    requires t in s.threads && s.threads[t].Running? && ThreadOk(s, t)
    requires s.threads[t].lin.Some? && Correct(Outcome(s.threads[t].c, s.threads[t].lin.value, p'))
    ensures ThreadOk(Returned(s, t, p'), t)
  {
    hide Mine, Inv;
    assert Took(t, Returned(s, t, p').threads[t]) == Took(t, s.threads[t]);
  }

  lemma KeepReturned(m0: Mem, s: System, t: Tid, p': Cpu)
    requires SystemInv(m0, s) && t in s.threads && s.threads[t].Running?
    requires s.threads[t].lin.Some? && Correct(Outcome(s.threads[t].c, s.threads[t].lin.value, p'))
    ensures SystemInv(m0, Returned(s, t, p'))
  {
    hide Mine, Live, Took, Replay, Explains, AllApart, Continues;
    var s' := Returned(s, t, p');
    ReturnedIs(s, t, p');
    StillApart(s.threads, s'.threads);
    assert ThreadOk(s, t);
    ReturnedSelf(s, t, p');
    SamesKeep(s, s', t);
    Gather(m0, s', t);
  }

  // A store of thread t alone.
  lemma KeepStored(m0: Mem, s: System, s': System, t: Tid, e: Event, a: int, n: nat, v: nat)
    requires SystemInv(m0, s) && t in s.threads && t in s'.threads
    requires AfterStore(s, s', {t}, e, a, n, v) && Continues(s.threads, s'.threads)
    requires Live(s'.threads[t], s'.mem) && (e.Atomic? ==> e.t == t)
    requires s'.threads[t].done == s.threads[t].done
    requires Took(t, s'.threads[t]) == Took(t, s.threads[t]) + if e.Atomic? then [e] else []
    requires Legal(s.mem, e) && s'.mem == Effect(s.mem, e) && s'.log == s.log + [e]
    ensures SystemInv(m0, s')
  {
    hide Live, Took, Legal, Effect, AfterStore, Explained, AllApart, Continues, ThreadOk;
    assert ThreadOk(s, t);
    StillApart(s.threads, s'.threads);
    SelfAfter(s, s', t, e);
    LogGrows(m0, s, s', e);
    OthersKeep(s, s', {t}, e, a, n, v);
    Gather(m0, s', t);
  }

  lemma PushedIs(s: System, t: Tid, p': Cpu, m': Mem, v: U64)
    requires t in s.threads && s.threads[t].Running? && AllApart(s.threads)
    requires m' == Store(s.mem, p'.sp, 8, v)
    requires s.threads[t].c.sp - WINDOW <= p'.sp && p'.sp + 8 <= s.threads[t].c.sp
    ensures var s' := Pushed1(s, t, p', m', v);
            && AfterStore(s, s', {t}, Spill(t, s.threads[t].c, p'.sp, v), p'.sp, 8, v)
            && Continues(s.threads, s'.threads)
  {
  }

  lemma KeepPushed(m0: Mem, s: System, t: Tid, p': Cpu, m': Mem, v: U64)
    requires SystemInv(m0, s) && t in s.threads && s.threads[t].Running?
    requires m' == Store(s.mem, p'.sp, 8, v)
    requires s.threads[t].c.sp - WINDOW <= p'.sp && p'.sp + 8 <= s.threads[t].c.sp
    requires Live(s.threads[t].(p := p'), m')
    ensures SystemInv(m0, Pushed1(s, t, p', m', v))
  {
    hide Live, AfterStore, Continues, AllApart, AllOk, Explained;
    PushedIs(s, t, p', m', v);
    KeepStored(m0, s, Pushed1(s, t, p', m', v), t, Spill(t, s.threads[t].c, p'.sp, v), p'.sp, 8, v);
  }

  lemma SwappedIs(s: System, t: Tid, p': Cpu, m': Mem, was: U64)
    requires t in s.threads && s.threads[t].Running? && AllApart(s.threads) && Admissible(s.threads[t].c)
    requires m' == Effect(s.mem, Atomic(t, s.threads[t].c, was))
    requires Stores(s.threads[t].c.k, s.threads[t].c.x, was)
    ensures var (s', c) := (Swapped(s, t, p', m', was), s.threads[t].c);
            && AfterStore(s, s', {t}, Atomic(t, c, was), CellOf(c).addr, CellOf(c).bytes, NewValue(c.k, c.x, was))
            && Continues(s.threads, s'.threads)
  {
    hide NewValue, Stores;
  }

  lemma KeepSwapped(m0: Mem, s: System, t: Tid, p': Cpu, m': Mem, was: U64)
    requires SystemInv(m0, s) && t in s.threads && s.threads[t].Running? && s.threads[t].lin == None
    requires Admissible(s.threads[t].c)
    requires Legal(s.mem, Atomic(t, s.threads[t].c, was)) && Stores(s.threads[t].c.k, s.threads[t].c.x, was)
    requires m' == Effect(s.mem, Atomic(t, s.threads[t].c, was))
    requires Live(s.threads[t].(p := p', lin := Some(was)), m')
    ensures SystemInv(m0, Swapped(s, t, p', m', was))
  {
    hide Live, AfterStore, Continues, AllApart, AllOk, Explained, NewValue, Stores, Legal, Effect;
    var c := s.threads[t].c;
    SwappedIs(s, t, p', m', was);
    KeepStored(m0, s, Swapped(s, t, p', m', was), t, Atomic(t, c, was),
               CellOf(c).addr, CellOf(c).bytes, NewValue(c.k, c.x, was));
  }

  lemma MovedIs(s: System, t: Tid, p': Cpu, lin: Option<U64>)
    requires t in s.threads && s.threads[t].Running?
    ensures Continues(s.threads, Moved(s, t, p', lin).threads)
  {
  }

  // A step that leaves memory alone; at most it records that a CAS has failed.
  lemma KeepMoved(m0: Mem, s: System, t: Tid, p': Cpu, lin: Option<U64>)
    requires SystemInv(m0, s) && t in s.threads && s.threads[t].Running?
    requires s.threads[t].lin.Some? ==> lin == s.threads[t].lin
    requires lin.Some? && s.threads[t].lin.None? ==>
               var e := Atomic(t, s.threads[t].c, lin.value); Legal(s.mem, e) && Effect(s.mem, e) == s.mem
    requires Live(s.threads[t].(p := p', lin := lin), s.mem)
    ensures SystemInv(m0, Moved(s, t, p', lin))
  {
    hide Live, Continues, AllApart, Legal, Effect, Mine;
    var s' := Moved(s, t, p', lin);
    MovedIs(s, t, p', lin);
    StillApart(s.threads, s'.threads);
    assert ThreadOk(s, t);
    if lin.Some? && s.threads[t].lin.None? {
      var e := Atomic(t, s.threads[t].c, lin.value);
      SelfAfter(s, s', t, e);
      LogGrows(m0, s, s', e);
      forall u | u in s.threads && u != t
        ensures Mine(s'.log, u) == Mine(s.log, u)
      {
        Extend(m0, s.log, e, u);
      }
    }
    SamesKeep(s, s', t);
    Gather(m0, s', t);
  }

  // The state of the thread that moves.
  lemma SelfKeeps(th: Thread, m: Mem, ok: bool)
    requires th.Running? && Live(th, m)
    ensures var ph := PhaseOf(th.c.k, th.p.pc);
            PhaseOk(th.c.k, ph) &&
            var (p', m') := NextOf(th.c, th.p, m, ok, ph);
            && Step(IslandCode(th.c.k, th.c.ret)[th.p.pc], th.p, m, ok) == (p', m')
            && (ph != Return ==> Live(th.(p := p', lin := NextLin(th.c, th.p, th.lin, m, ok, ph)), m'))
  {
    var (c, p) := (th.c, th.p);
    var ph := PhaseOf(c.k, p.pc);
    PhaseAt(c.k, p.pc);
    CodeAt(c.k, c.ret, p.pc);
    if ph != Return {
      StepKeeps(c, p, th.lin, m, ok, ph);
      Control(c.k, c.ret, ph, p, m, ok);
      PcAt(c.k, NextPhase(c.k, ph, Taken(c.k, ph, p)));
    }
  }

  lemma RunIs(s: System, t: Tid, ok: bool)
    requires Enabled(s, Run(t, ok)) && PhaseOk(s.threads[t].c.k, PhaseOf(s.threads[t].c.k, s.threads[t].p.pc))
    ensures var th := s.threads[t];
            var (c, p, ph) := (th.c, th.p, PhaseOf(th.c.k, th.p.pc));
            var (p', m') := NextOf(c, p, s.mem, ok, ph);
            Next(s, Run(t, ok)) ==
            if ph.Return? then Returned(s, t, p')
            else if Spills(ph) then Pushed1(s, t, p', m', Spilled(c, p, ph))
            else if ph.StoreExclusive? && Granted(c, p, ok) then Swapped(s, t, p', m', p.x[LoadReg(c.k)])
            else Moved(s, t, p', NextLin(c, p, th.lin, s.mem, ok, ph))
  {
    var th := s.threads[t];
    CodeAt(th.c.k, th.c.ret, th.p.pc);
    hide Step, Returned, Pushed1, Swapped, Moved;
  }

  lemma RunReturns(m0: Mem, s: System, t: Tid, ok: bool)
    requires SystemInv(m0, s) && t in s.threads && s.threads[t].Running? && Live(s.threads[t], s.mem)
    requires PhaseOf(s.threads[t].c.k, s.threads[t].p.pc) == Return
    ensures SystemInv(m0, Returned(s, t, NextOf(s.threads[t].c, s.threads[t].p, s.mem, ok, Return).0))
  {
    hide SystemInv, Returned;
    var th := s.threads[t];
    PhaseAt(th.c.k, th.p.pc);
    KeepReturn(th.c, th.p, th.lin, s.mem, ok);
    KeepReturned(m0, s, t, NextOf(th.c, th.p, s.mem, ok, Return).0);
  }

  lemma RunSpills(m0: Mem, s: System, t: Tid, ok: bool, ph: Phase)
    requires SystemInv(m0, s) && t in s.threads && s.threads[t].Running? && Live(s.threads[t], s.mem)
    requires ph == PhaseOf(s.threads[t].c.k, s.threads[t].p.pc) && PhaseOk(s.threads[t].c.k, ph) && Spills(ph)
    ensures var th := s.threads[t];
            var (p', m') := NextOf(th.c, th.p, s.mem, ok, ph);
            SystemInv(m0, Pushed1(s, t, p', m', Spilled(th.c, th.p, ph)))
  {
    hide SystemInv, Pushed1;
    var th := s.threads[t];
    var (c, p) := (th.c, th.p);
    SelfKeeps(th, s.mem, ok);
    var (p', m') := NextOf(c, p, s.mem, ok, ph);
    SpillWrites(c, p, th.lin, s.mem, ok, ph);
    SpillMoves(c, p, s.mem, ok, ph);
    assert th.(p := p', lin := NextLin(c, p, th.lin, s.mem, ok, ph)) == th.(p := p');
    KeepPushed(m0, s, t, p', m', Spilled(c, p, ph));
  }

  lemma SpillMoves(c: Call, p: Cpu, m: Mem, ok: bool, ph: Phase)
    requires PhaseOk(c.k, ph) && Spills(ph) && p.sp >= 16
    ensures NextOf(c, p, m, ok, ph).0.sp == p.sp - 16
  {
    PushStep(if ph.Push? then Saves(c.k)[ph.i] else c.k.s1, p, m, ok);
  }

  lemma RunStores(m0: Mem, s: System, t: Tid, ok: bool)
    requires SystemInv(m0, s) && t in s.threads && s.threads[t].Running? && Live(s.threads[t], s.mem)
    requires PhaseOf(s.threads[t].c.k, s.threads[t].p.pc) == StoreExclusive
    requires Admissible(s.threads[t].c) && Granted(s.threads[t].c, s.threads[t].p, ok)
    ensures var th := s.threads[t];
            var (p', m') := NextOf(th.c, th.p, s.mem, ok, StoreExclusive);
            SystemInv(m0, Swapped(s, t, p', m', th.p.x[LoadReg(th.c.k)]))
  {
    hide SystemInv, Swapped;
    var th := s.threads[t];
    SelfKeeps(th, s.mem, ok);
    var (p', m') := NextOf(th.c, th.p, s.mem, ok, StoreExclusive);
    StepWrites(th.c, th.p, th.lin, s.mem, ok, StoreExclusive);
    StoreGranted(th.c, th.p, th.lin, s.mem);
    KeepSwapped(m0, s, t, p', m', th.p.x[LoadReg(th.c.k)]);
  }

  // A step that is neither a push, nor a granted store-exclusive, nor the return.
  predicate Quiet(c: Call, p: Cpu, ok: bool, ph: Phase)
    requires Admissible(c)
  {
    !ph.Return? && !Spills(ph) && !(ph.StoreExclusive? && Granted(c, p, ok))
  }

  lemma QuietLin(c: Call, p: Cpu, lin: Option<U64>, m: Mem, ok: bool, ph: Phase, t: Tid)
    requires Inv(c, p, lin, m, ph) && Quiet(c, p, ok, ph)
    ensures var lin' := NextLin(c, p, lin, m, ok, ph);
            && (lin.Some? ==> lin' == lin)
            && (lin'.Some? && lin.None? ==> var e := Atomic(t, c, lin'.value); Legal(m, e) && Effect(m, e) == m)
  {
  }

  lemma RunMoves(m0: Mem, s: System, t: Tid, ok: bool, ph: Phase)
    requires SystemInv(m0, s) && t in s.threads && s.threads[t].Running? && Live(s.threads[t], s.mem)
    requires ph == PhaseOf(s.threads[t].c.k, s.threads[t].p.pc) && PhaseOk(s.threads[t].c.k, ph)
    requires Admissible(s.threads[t].c) && Quiet(s.threads[t].c, s.threads[t].p, ok, ph)
    ensures var th := s.threads[t];
            SystemInv(m0, Moved(s, t, NextOf(th.c, th.p, s.mem, ok, ph).0, NextLin(th.c, th.p, th.lin, s.mem, ok, ph)))
  {
    hide SystemInv, Moved, NextLin, Legal, Effect;
    var th := s.threads[t];
    SelfKeeps(th, s.mem, ok);
    StepWrites(th.c, th.p, th.lin, s.mem, ok, ph);
    QuietLin(th.c, th.p, th.lin, s.mem, ok, ph, t);
    KeepMoved(m0, s, t, NextOf(th.c, th.p, s.mem, ok, ph).0, NextLin(th.c, th.p, th.lin, s.mem, ok, ph));
  }

  lemma KeepRun(m0: Mem, s: System, t: Tid, ok: bool)
    requires SystemInv(m0, s) && Enabled(s, Run(t, ok))
    ensures SystemInv(m0, Next(s, Run(t, ok)))
  {
    hide Live, Explained, AllApart, Next, NextOf, NextLin, Returned, Pushed1, Swapped, Moved;
    var th := s.threads[t];
    var (c, p, ph) := (th.c, th.p, PhaseOf(th.c.k, th.p.pc));
    assert ThreadOk(s, t);
    PhaseAt(c.k, p.pc);
    RunIs(s, t, ok);
    if ph.Return? {
      RunReturns(m0, s, t, ok);
    } else if Spills(ph) {
      RunSpills(m0, s, t, ok, ph);
    } else if ph.StoreExclusive? && Granted(c, p, ok) {
      RunStores(m0, s, t, ok);
    } else {
      RunMoves(m0, s, t, ok, ph);
    }
  }

  lemma NextKeeps(m0: Mem, s: System, a: Action)
    requires SystemInv(m0, s) && Enabled(s, a)
    ensures SystemInv(m0, Next(s, a))
  {
    hide SystemInv, Next, Enabled;
    match a
    case Begin(t, c, monitor) => KeepBegin(m0, s, t, c, monitor);
    case Run(t, ok) => KeepRun(m0, s, t, ok);
    case Write(addr, n, v) => KeepWrite(m0, s, addr, n, v);
  }

  lemma {:induction false} ReachesKeeps(m0: Mem, s: System, acts: seq<Action>, s': System)
    requires SystemInv(m0, s) && Reaches(s, acts, s')
    ensures SystemInv(m0, s')
    decreases |acts|
  {
    hide SystemInv, Next, Enabled;
    if acts != [] {
      NextKeeps(m0, s, acts[0]);
      ReachesKeeps(m0, Next(s, acts[0]), acts[1..], s');
    }
  }

  // Every run of islands and guest stores, however interleaved and however
  // often store-exclusives fail, is explained by its log: memory is what the
  // logged instructions make of it one after the other, each reading what the
  // previous ones left; every completed island is in the log exactly once, in
  // its thread's order, and handed back the architectural registers for the
  // value it read there, with SP and NZCV as the guest had them.
  lemma Linearizable(s: System, acts: seq<Action>, s': System, t: Tid)
    requires Initial(s) && Reaches(s, acts, s') && t in s'.threads
    ensures s'.mem == Replay(s.mem, s'.log) && Explains(s.mem, s'.log)
    ensures Mine(s'.log, t) == Took(t, s'.threads[t])
    ensures forall o :: o in s'.threads[t].done ==> Correct(o)
  {
    InitialHolds(s);
    ReachesKeeps(s.mem, s, acts, s');
    hide Inv;
    assert ThreadOk(s', t);
  }

  lemma InitialHolds(s: System)
    requires Initial(s)
    ensures SystemInv(s.mem, s)
  {
  }
}
