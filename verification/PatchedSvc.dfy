// A core that fetches the words of the gate's memory at a patched svc: it calls the
// dispatcher with the guest's frame and resumes the guest after the svc.
module PatchedSvc {
  import opened Bits
  import opened Options
  import opened Memory
  import opened A64
  import opened Machine
  import opened SyscallIsland
  import opened GatePools

  // --- Fetching ---

  // The 64-bit literal at a, if both of its words are there.
  function LiteralIn(code: map<int, U32>, a: int): Option<U64> {
    if a in code && a + 4 in code then Some(code[a] + TWO32 * code[a + 4]) else None
  }

  // The word at the core's byte address and what it does; literals come from the same
  // memory.
  function Fetched(code: map<int, U32>, g: Guest): Option<Guest> {
    if g.pc !in code then None
    else
      match Decode(code[g.pc])
      case B(offset) => Some(g.(pc := g.pc + 4 * offset))
      case Blr(rn) => Some(g.(pc := X(g.x, rn), x := g.x[30 := (g.pc + 4) % TWO64]))
      case Br(rn) => Some(g.(pc := X(g.x, rn)))
      case LdrLit(rt, offset) =>
        var v := LiteralIn(code, g.pc + 4 * offset);
        if v.None? then None else Some(g.(pc := g.pc + 4, x := SetX(g.x, rt, v.value)))
      case i => Some(GuestStep(i, Literals(0, 0), g).(pc := g.pc + 4))
  }

  function Steps(code: map<int, U32>, g: Guest, n: nat): Option<Guest>
    decreases n
  {
    if n == 0 then Some(g)
    else
      var r := Fetched(code, g);
      if r.None? then None else Steps(code, r.value, n - 1)
  }

  lemma {:induction false} StepsJoin(code: map<int, U32>, g: Guest, a: nat, b: nat)
    requires Steps(code, g, a).Some?
    ensures Steps(code, g, a + b) == Steps(code, Steps(code, g, a).value, b)
    decreases a
  {
    hide Fetched;
    if a > 0 {
      StepsJoin(code, Fetched(code, g).value, a - 1, b);
    }
  }

  // --- The island in memory ---

  // The words of an island with these literals stand at `at`.
  predicate Stands(code: map<int, U32>, at: int, l: Literals) {
    forall j :: 0 <= j < ISLAND_WORDS ==> at + 4 * j in code && code[at + 4 * j] == IslandWords(l)[j]
  }

  // A state inside the island, at its address.
  function Placed(g: Guest, at: int): Guest {
    g.(pc := at + 4 * g.pc)
  }

  // The island has no B, and its PC-relative loads are those of the two literals.
  lemma CodeKinds(k: nat)
    requires k < |Code()|
    ensures !Code()[k].B?
    ensures Code()[k].LdrLit? ==>
              k + Code()[k].offset == ISLAND_WORDS - 4 || k + Code()[k].offset == ISLAND_WORDS - 2
  {
    CodeShape();
    PairsShape(9);
    PairsShape(7);
    hide StorePairs, LoadPairs;
    var i := Code()[k];
    if k < 18 {
      assert i == Front()[k];
    } else if 18 < k < 35 {
      assert i == Back()[k - 19];
    }
  }

  lemma LiteralFound(code: map<int, U32>, at: int, l: Literals, word: int)
    requires Stands(code, at, l) && (word == ISLAND_WORDS - 4 || word == ISLAND_WORDS - 2)
    ensures LiteralIn(code, at + 4 * word) == Some(LiteralAt(l, word))
  {
    hide IslandWords;
    LiteralsStored(l);
    WordsLength(l);
    assert code[at + 4 * word] == IslandWords(l)[word] && code[at + 4 * (word + 1)] == IslandWords(l)[word + 1];
  }

  // Only the two literal loads look at the literals.
  lemma OtherSteps(i: Instr, l: Literals, g: Guest)
    requires !i.LdrLit?
    ensures GuestStep(i, l, g) == GuestStep(i, Literals(0, 0), g)
  {
  }

  lemma StepElsewhere(i: Instr, l: Literals, g: Guest, at: int)
    requires !i.LdrLit?
    ensures GuestStep(i, l, Placed(g, at)) == GuestStep(i, l, g).(pc := at + 4 * g.pc + 1)
  {
    hide Store64, Load64, FlagWord, WordFlags;
  }

  lemma InstructionThere(code: map<int, U32>, at: int, l: Literals, k: nat)
    requires Stands(code, at, l) && k < 36
    ensures |Code()| == 36 && at + 4 * k in code && Decode(code[at + 4 * k]) == Code()[k]
  {
    hide IslandWords, Code, Decode;
    WordsDecode(l, k);
  }

  // One fetched word of the island is one step of the island.
  lemma FetchedInside(code: map<int, U32>, at: int, l: Literals, g: Guest)
    requires Stands(code, at, l) && 0 <= g.pc < |Code()| == 36 && !Code()[g.pc].Blr? && !Code()[g.pc].Br?
    ensures Fetched(code, Placed(g, at)) == Some(Placed(GuestStep(Code()[g.pc], l, g), at))
  {
    hide Stands, Code, Decode, GuestStep, LiteralIn;
    var i := Code()[g.pc];
    InstructionThere(code, at, l, g.pc);
    CodeKinds(g.pc);
    StepAdvances(i, l, g);
    if i.LdrLit? {
      LiteralFound(code, at, l, g.pc + i.offset);
      LoadsLiteral(i, l, g);
    } else {
      OtherSteps(i, l, Placed(g, at));
      StepElsewhere(i, l, g, at);
    }
  }

  lemma LoadsLiteral(i: Instr, l: Literals, g: Guest)
    requires i.LdrLit?
    ensures GuestStep(i, l, g) == g.(pc := g.pc + 1, x := SetX(g.x, i.rt, LiteralAt(l, g.pc + i.offset)))
  {
  }

  lemma {:induction false} StepsThrough(code: map<int, U32>, at: int, l: Literals, g: Guest, n: nat)
    requires Stands(code, at, l) && 0 <= g.pc && g.pc + n <= |Code()| == 36
    requires forall j :: g.pc <= j < g.pc + n ==> !Code()[j].Blr? && !Code()[j].Br?
    ensures Steps(code, Placed(g, at), n) == Some(Placed(GuestRun(Code()[g.pc..g.pc + n], l, g), at))
    decreases n
  {
    hide Stands, Code, GuestStep, Fetched;
    var part := Code()[g.pc..g.pc + n];
    if n > 0 {
      var g' := GuestStep(Code()[g.pc], l, g);
      FetchedInside(code, at, l, g);
      StepAdvances(Code()[g.pc], l, g);
      assert part[0] == Code()[g.pc] && part[1..] == Code()[g'.pc..g'.pc + (n - 1)];
      StepsThrough(code, at, l, g', n - 1);
    } else {
      assert part == [];
    }
  }

  // --- The patched svc ---

  lemma SiteStands(img: Image, s: State, t: Site)
    requires SiteOk(img, s, t)
    ensures t.pool < |s.pools| && 0 <= t.instr + 4 < TWO64
    ensures Stands(s.mem, IslandAt(s.pools, t), Literals(img.dispatcher, t.instr + 4))
  {
  }

  lemma OneStep(code: map<int, U32>, g: Guest)
    ensures Steps(code, g, 1) == Fetched(code, g)
  {
    hide Fetched;
    if Fetched(code, g).Some? {
      assert Steps(code, Fetched(code, g).value, 0) == Fetched(code, g);
    }
  }

  lemma Enters(img: Image, s: State, t: Site, g: Guest)
    requires SiteOk(img, s, t) && g.pc == t.instr
    ensures Fetched(s.mem, g) == Some(Placed(g.(pc := 0), IslandAt(s.pools, t)))
  {
    hide Decode, EncB, IslandWords;
    SiteReaches(img, s, t);
  }

  // The call and the final jump, from where they stand.
  lemma LeavesIsland(code: map<int, U32>, at: int, l: Literals, g: Guest)
    requires Stands(code, at, l) && IslandAddress(at) && (g.pc == 18 || g.pc == 35)
    ensures Fetched(code, Placed(g, at))
         == Some(g.(pc := g.x[16], x := if g.pc == 18 then g.x[30 := at + 4 * 19] else g.x))
  {
    hide Stands, Code, Decode, IslandWords;
    InstructionThere(code, at, l, g.pc);
    CodeShape();
  }

  // From the svc: the branch, the eighteen words that build the frame, and the call.
  lemma SvcCalls(img: Image, s: State, t: Site, g: Guest)
    requires SiteOk(img, s, t) && IslandAddress(IslandAt(s.pools, t)) && g.pc == t.instr && FRAME <= g.sp
    ensures var (base, l) := (g.sp - FRAME, Literals(img.dispatcher, t.instr + 4));
            Steps(s.mem, g, 20) ==
            Some(Guest(img.dispatcher, g.x[0 := base][16 := l.dispatcher][30 := IslandAt(s.pools, t) + 4 * 19],
                       base, g.nzcv, WriteSlots(g.mem, base, FrameOf(g, l))))
  {
    hide SiteOk, Stands, Code, Front, Back, GuestRun, Fetched, Steps, WriteSlots, FlagWord;
    SiteStands(img, s, t);
    Enters(img, s, t, g);
    var (at, l, g0) := (IslandAt(s.pools, t), Literals(img.dispatcher, t.instr + 4), g.(pc := 0));
    var m := s.mem;
    CodeShape();
    StepsThrough(m, at, l, g0, 18);
    FrontBuildsFrame(l, g0);
    var f := GuestRun(Front(), l, g0);
    LeavesIsland(m, at, l, f);
    OneStep(m, g);
    OneStep(m, Placed(f, at));
    StepsJoin(m, g, 1, 18);
    StepsJoin(m, g, 19, 1);
  }

  // From the word after the call: sixteen words that restore the guest, and the jump.
  lemma SvcResumes(img: Image, s: State, t: Site, back: Guest)
    requires SiteOk(img, s, t) && IslandAddress(IslandAt(s.pools, t))
    requires back.pc == IslandAt(s.pools, t) + 4 * 19 && back.sp + FRAME < TWO64
    ensures Steps(s.mem, back, 17) ==
            Some(Guest(Slot(back.mem, back.sp, 21), FromFrame(back.mem, back.sp, back.x), back.sp + FRAME,
                       WordFlags(Slot(back.mem, back.sp, 20)), back.mem))
  {
    hide SiteOk, Stands, Code, Front, Back, GuestRun, Fetched, Steps, WordFlags, Load64;
    SiteStands(img, s, t);
    var (at, l, g0, m) := (IslandAt(s.pools, t), Literals(img.dispatcher, t.instr + 4), back.(pc := 19), s.mem);
    CodeShape();
    StepsThrough(m, at, l, g0, 16);
    BackRestores(l, g0);
    var r := GuestRun(Back(), l, g0);
    LeavesIsland(m, at, l, r);
    OneStep(m, Placed(r, at));
    StepsJoin(m, back, 16, 1);
  }

  // The dispatcher returns to its link address with SP and the callee-saved registers as
  // they were.
  predicate Returns(called: Guest, back: Guest) {
    && back.pc == called.x[30] && back.sp == called.sp
    && forall r :: 19 <= r <= 29 ==> back.x[r] == called.x[r]
  }

  // For every site of the gate: a guest that comes to the svc and runs what it fetches
  // is in the dispatcher after 20 instructions, its registers in the frame, nothing
  // written but the 192 bytes below SP. After a dispatcher that returns, whatever it
  // wrote, 17 more lead to the frame's pc, which is the word after the svc unless the
  // dispatcher changed it, with SP and the callee-saved registers as the guest had them
  // and the others and the flags as the frame has them.
  lemma SvcHandled(img: Image, s: State, t: Site, g: Guest, back: Guest) returns (called: Guest, r: Guest)
    requires Ok(img, s) && t in s.sites
    requires IslandAddress(IslandAt(s.pools, t)) && g.pc == t.instr && FRAME <= g.sp
    requires Steps(s.mem, g, 20).Some? ==> Returns(Steps(s.mem, g, 20).value, back)
    ensures Steps(s.mem, g, 20) == Some(called) && called.pc == img.dispatcher
    ensures var base := g.sp - FRAME;
            && (forall b :: b < base || g.sp <= b ==> Byte(called.mem, b) == Byte(g.mem, b))
            && (forall k :: 0 <= k < 19 ==> Slot(called.mem, base, k) == g.x[k])
            && Slot(called.mem, base, 19) == g.x[30] && Slot(called.mem, base, 20) == FlagWord(g.nzcv)
            && Slot(called.mem, base, 21) == t.instr + 4
            && called.x[0] == base == called.sp
    ensures Steps(s.mem, back, 17) == Some(r)
    ensures var base := g.sp - FRAME;
            && r.pc == r.x[16] == Slot(back.mem, base, 21)
            && (Slot(back.mem, base, 21) == Slot(called.mem, base, 21) ==> r.pc == t.instr + 4)
            && r.sp == g.sp && r.mem == back.mem && r.nzcv == WordFlags(Slot(back.mem, base, 20))
            && (forall k :: 0 <= k <= 15 || k == 17 || k == 18 ==> r.x[k] == Slot(back.mem, base, k))
            && r.x[30] == Slot(back.mem, base, 19)
            && (forall k :: 19 <= k <= 29 ==> r.x[k] == g.x[k])
  {
    hide Ok, SiteOk, Steps, WordFlags, Load64, FlagWord, WriteSlots;
    SiteIsOk(img, s, t);
    SvcCalls(img, s, t, g);
    called := Steps(s.mem, g, 20).value;
    FrameHolds(Literals(img.dispatcher, t.instr + 4), g, g.sp - FRAME);
    SvcResumes(img, s, t, back);
    r := Steps(s.mem, back, 17).value;
  }

  lemma SiteIsOk(img: Image, s: State, t: Site)
    requires Ok(img, s) && t in s.sites
    ensures SiteOk(img, s, t) && t.pool < |s.pools| && 0 <= t.instr + 4 < TWO64
  {
  }
}
