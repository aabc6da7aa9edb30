// emit_island of isa_emul.c as it runs: instruction by instruction, with the loop's and
// the return's displacements computed from the position reached.
module IslandEmit {
  import opened A64
  import opened Lse
  import opened Island

  lemma CasParts(k: Plan)
    requires k.d.op == CAS
    ensures Prologue(k) == [StrPre(k.s1), StrPre(k.s2), MrsNzcv(k.s1), StrPre(k.s1)]
    ensures Loop(k) == [Ldxr(k.d.size, k.d.acquire, k.s2, k.d.rn), Cmp(IsX(k), k.s2, k.d.rs), BCond(NE, 3),
                        Stxr(k.d.size, k.d.release, k.s1, k.d.rt, k.d.rn), CbnzW(k.s1, -4)]
    ensures After(k) == [Clrex] + if k.d.rs != 31 then [Mov(IsX(k), k.d.rs, k.s2)] else []
    ensures Epilogue(k) == [LdrPost(k.s1), MsrNzcv(k.s1), LdrPost(k.s2), LdrPost(k.s1)]
  {
  }

  lemma OtherParts(k: Plan)
    requires k.d.op != CAS
    ensures Prologue(k) == [StrPre(k.s1), StrPre(k.s2), StrPre(k.s3), MrsNzcv(k.s1), StrPre(k.s1)]
    ensures Loop(k) == [Ldxr(k.d.size, k.d.acquire, k.s1, k.d.rn)] + Body(k)
                       + [Stxr(k.d.size, k.d.release, k.s3, k.s2, k.d.rn), CbnzW(k.s3, -(2 + |Body(k)|))]
    ensures After(k) == if k.d.rt != 31 then [Mov(IsX(k), k.d.rt, k.s1)] else []
    ensures Epilogue(k) == [LdrPost(k.s1), MsrNzcv(k.s1), LdrPost(k.s3), LdrPost(k.s2), LdrPost(k.s1)]
  {
    hide Body;
  }

  method EmitCas(d: Lse, ret: int) returns (island: seq<Instr>)
    requires d.op == CAS
    ensures island == IslandCode(PlanFor(d), ret)
  {
    var used: set<Reg> := {31, d.rs, d.rt, d.rn};
    var s1 := PickScratch(used);
    var s2 := PickScratch(used + {s1});
    ghost var k := PlanFor(d);
    assert k.s1 == s1 && k.s2 == s2 && k.d == d;
    hide PickScratch, PlanFor;
    CasParts(k);
    hide Prologue, Loop, After, Epilogue;
    var isX := d.size == 3;
    island := [StrPre(s1)];
    island := island + [StrPre(s2)];
    island := island + [MrsNzcv(s1)];
    island := island + [StrPre(s1)];
    assert island == Prologue(k);
    var loopStart := |island|;
    island := island + [Ldxr(d.size, d.acquire, s2, d.rn)];
    island := island + [Cmp(isX, s2, d.rs)];
    island := island + [BCond(NE, 3)];
    island := island + [Stxr(d.size, d.release, s1, d.rt, d.rn)];
    island := island + [CbnzW(s1, loopStart - |island|)];
    assert island == Prologue(k) + Loop(k);
    island := island + [Clrex];
    if d.rs != 31 {
      island := island + [Mov(isX, d.rs, s2)];
    }
    assert island == Prologue(k) + Loop(k) + After(k);
    island := island + [LdrPost(s1)];
    island := island + [MsrNzcv(s1)];
    island := island + [LdrPost(s2)];
    island := island + [LdrPost(s1)];
    assert island == Straight(k);
    island := island + [B(ret - |island|)];
  }

  // The switch between the exclusives.
  method EmitBody(k: Plan, before: seq<Instr>) returns (island: seq<Instr>)
    requires k.d.op != CAS
    ensures island == before + Body(k)
  {
    var isX := k.d.size == 3;
    island := before;
    match k.d.op
    case LDADD => island := island + [Alu(ADD, isX, k.s2, k.s1, k.d.rs)];
    case LDCLR => island := island + [Alu(BIC, isX, k.s2, k.s1, k.d.rs)];
    case LDEOR => island := island + [Alu(EOR, isX, k.s2, k.s1, k.d.rs)];
    case LDSET => island := island + [Alu(ORR, isX, k.s2, k.s1, k.d.rs)];
    case SWP => island := island + [Mov(isX, k.s2, k.d.rs)];
    case LDUMAX => island := EmitSelect(k, island + [Cmp(isX, k.s1, k.d.rs)], LO);
    case LDUMIN => island := EmitSelect(k, island + [Cmp(isX, k.s1, k.d.rs)], HI);
    case LDSMAX =>
      island := EmitSignedCompare(k, island);
      island := EmitSelect(k, island, LT);
    case LDSMIN =>
      island := EmitSignedCompare(k, island);
      island := EmitSelect(k, island, GT);
  }

  method EmitSelect(k: Plan, before: seq<Instr>, cond: Reg) returns (island: seq<Instr>)
    ensures island == before + [Csel(k.d.size == 3, k.s2, k.d.rs, k.s1, cond)]
  {
    island := before + [Csel(k.d.size == 3, k.s2, k.d.rs, k.s1, cond)];
  }

  method EmitSignedCompare(k: Plan, before: seq<Instr>) returns (island: seq<Instr>)
    ensures island == before + SignedCompare(k)
  {
    island := before;
    if k.d.size < 2 {
      island := island + [if k.d.size == 0 then Sxtb(k.s2, k.s1) else Sxth(k.s2, k.s1)];
      island := island + [if k.d.size == 0 then Sxtb(k.s3, k.d.rs) else Sxth(k.s3, k.d.rs)];
      island := island + [Cmp(false, k.s2, k.s3)];
    } else {
      island := island + [Cmp(k.d.size == 3, k.s1, k.d.rs)];
    }
  }

  // The scratch registers, chosen one after the other.
  method ChooseScratch(d: Lse) returns (k: Plan)
    ensures k == PlanFor(d)
  {
    hide PickScratch;
    var used: set<Reg> := {31, d.rs, d.rn};
    if d.rt != 31 {
      used := used + {d.rt};
    }
    assert used == {31, d.rs, d.rt, d.rn};
    var s1 := PickScratch(used);
    used := used + {s1};
    var s2 := PickScratch(used);
    used := used + {s2};
    assert used == {31, d.rs, d.rt, d.rn} + {s1, s2};
    k := Plan(d, s1, s2, PickScratch(used));
  }

  method EmitLoop(k: Plan, before: seq<Instr>) returns (island: seq<Instr>)
    requires k.d.op != CAS
    ensures island == before + Loop(k)
  {
    OtherParts(k);
    hide Loop, Prologue, After, Epilogue, Body;
    var loopStart := |before|;
    island := before + [Ldxr(k.d.size, k.d.acquire, k.s1, k.d.rn)];
    island := EmitBody(k, island);
    island := island + [Stxr(k.d.size, k.d.release, k.s3, k.s2, k.d.rn)];
    island := island + [CbnzW(k.s3, loopStart - |island|)];
  }

  method EmitOther(d: Lse, ret: int) returns (island: seq<Instr>)
    requires d.op != CAS
    ensures island == IslandCode(PlanFor(d), ret)
  {
    hide *;
    PlanKeeps(d);
    var k := ChooseScratch(d);
    island := EmitPlanned(k, ret);
  }

  method EmitPlanned(k: Plan, ret: int) returns (island: seq<Instr>)
    requires k.d.op != CAS
    ensures island == IslandCode(k, ret)
  {
    hide Prologue, Loop, After, Epilogue;
    island := EmitSaves(k);
    island := EmitLoop(k, island);
    island := EmitResult(k, island);
    island := EmitRestore(k, island);
    island := island + [B(ret - |island|)];
  }

  method EmitSaves(k: Plan) returns (island: seq<Instr>)
    requires k.d.op != CAS
    ensures island == Prologue(k)
  {
    OtherParts(k);
    hide Loop, Prologue, After, Epilogue, Body;
    island := [StrPre(k.s1)];
    island := island + [StrPre(k.s2)];
    island := island + [StrPre(k.s3)];
    island := island + [MrsNzcv(k.s1)];
    island := island + [StrPre(k.s1)];
  }

  method EmitResult(k: Plan, before: seq<Instr>) returns (island: seq<Instr>)
    requires k.d.op != CAS
    ensures island == before + After(k)
  {
    OtherParts(k);
    hide Loop, Prologue, After, Epilogue, Body;
    island := before;
    if k.d.rt != 31 {
      island := island + [Mov(k.d.size == 3, k.d.rt, k.s1)];
    }
  }

  method EmitRestore(k: Plan, before: seq<Instr>) returns (island: seq<Instr>)
    requires k.d.op != CAS
    ensures island == before + Epilogue(k)
  {
    OtherParts(k);
    hide Loop, Prologue, After, Epilogue, Body;
    island := before + [LdrPost(k.s1)];
    island := island + [MsrNzcv(k.s1)];
    island := island + [LdrPost(k.s3)];
    island := island + [LdrPost(k.s2)];
    island := island + [LdrPost(k.s1)];
  }

  lemma PlanKeeps(d: Lse)
    ensures PlanFor(d).d == d
  {
  }

  // emit_island; ret is the word after the site, relative to the island.
  method EmitIsland(d: Lse, ret: int) returns (island: seq<Instr>)
    ensures island == IslandCode(PlanFor(d), ret)
  {
    if d.op == CAS {
      island := EmitCas(d, ret);
    } else {
      island := EmitOther(d, ret);
    }
  }
}
