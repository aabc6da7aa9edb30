// What one pass through an island's loop body computes.
module IslandBody {
  import opened Bits
  import opened A64
  import opened Lse
  import opened Machine
  import opened Island

  // The two register files hold the same values outside `except`.
  predicate Agree(x: Regs, y: Regs, except: set<Reg>) {
    forall r: Reg :: r < 31 && r !in except ==> x[r] == y[r]
  }

  function Scratch(k: Plan): set<Reg> {
    if k.d.op == CAS then {k.s1, k.s2} else {k.s1, k.s2, k.s3}
  }

  // The value the island puts in memory when Rs and Rt held their values in x.
  function NewValue(k: Plan, x: Regs, was: nat): nat {
    Emulated(k.d.op, k.d.size, was, X(x, k.d.rs), X(x, k.d.rt))
  }

  // Does the instruction store at all? Only a CAS whose comparison fails does not.
  predicate Stores(k: Plan, x: Regs, was: nat) {
    k.d.op == CAS ==> was == X(x, k.d.rs) % RegSpan(k.d.size)
  }

  // After the body, having loaded `was` with the guest's registers x.
  predicate Computed(k: Plan, x: Regs, l: Local, was: nat) {
    && k.Ok()
    && Agree(l.x, x, Scratch(k))
    && l.x[LoadReg(k)] == was < Span(k.d.size)
    && (k.d.op == CAS ==> (l.nzcv.z <==> Stores(k, x, was)))
    && (Stores(k, x, was) ==> X(l.x, NewReg(k)) % Span(k.d.size) == NewValue(k, x, was))
  }

  // Just after the load-exclusive.
  predicate Loaded(k: Plan, x: Regs, l: Local, was: nat) {
    && k.Ok() && k.d.size < 4
    && Agree(l.x, x, Scratch(k))
    && l.x[LoadReg(k)] == was < Span(k.d.size)
  }

  lemma Run1(a: Instr, l: Local)
    ensures RunLocal([a], l) == LocalStep(a, l)
  {
    assert [a][1..] == [];
  }

  lemma Run2(a: Instr, b: Instr, l: Local)
    ensures RunLocal([a, b], l) == LocalStep(b, LocalStep(a, l))
  {
    assert [a, b][1..] == [b];
    Run1(b, LocalStep(a, l));
  }

  lemma Run4(a: Instr, b: Instr, c: Instr, e: Instr, l: Local)
    ensures RunLocal([a, b, c, e], l) == LocalStep(e, LocalStep(c, LocalStep(b, LocalStep(a, l))))
  {
    assert [a, b, c, e][1..] == [b, c, e] && [b, c, e][1..] == [c, e];
    Run2(c, e, LocalStep(b, LocalStep(a, l)));
  }

  lemma RunTail(code: seq<Instr>, j: nat, l: Local)
    requires j < |code|
    ensures RunLocal(code[j..], l) == RunLocal(code[j + 1..], LocalStep(code[j], l))
    ensures RunLocal(code[|code|..], l) == l
  {
    assert code[j..][1..] == code[j + 1..];
    assert code[|code|..] == [];
  }

  lemma ViewIs(size: nat, v: U64)
    requires size < 4
    ensures View(size == 3, v) == v % RegSpan(size) && WidthOf(size == 3) == RegSpan(size)
    ensures View(size == 3, v) % Span(size) == v % Span(size)
    ensures v < Span(size) ==> View(size == 3, v) == v
  {
    Truncate(size, v);
  }

  // Truncating a sum to the operand width forgets exactly what the operands'
  // upper bits contributed.
  lemma AddTruncates(size: nat, m: U64, s: U64)
    requires size < 4 && m < Span(size)
    ensures AluValue(ADD, size == 3, m, s) % Span(size) == (m + s % Span(size)) % Span(size)
  {
    ViewIs(size, m);
    ViewIs(size, s);
    var v := s % RegSpan(size);
    Truncate(size, m + v);
    SumMod(m, v, Span(size));
  }

  lemma {:induction false} LowBits(op: BitOp, k: nat, p: nat, m: nat, v: nat)
    requires p == Pow2(k) && m < p
    ensures Bitwise(op, m, v) % p == Bitwise(op, m, v % p)
  {
    BitwiseLow(op, k, m, v);
    DivModUnique(m, p, 0, m);
  }

  lemma BitwiseTruncates(op: AluOp, size: nat, m: U64, s: U64)
    requires op != ADD
    requires size < 4 && m < Span(size)
    ensures AluValue(op, size == 3, m, s) % Span(size) == Bitwise(BitOpOf(op), m, s % Span(size))
  {
    ViewIs(size, m);
    ViewIs(size, s);
    SpanIsPow2(size);
    LowBits(BitOpOf(op), 8 * Bytes(size), Span(size), m, View(size == 3, s));
  }

  lemma MovMoves(is64: bool, rd: Reg, rn: Reg, l: Local)
    ensures LocalStep(Mov(is64, rd, rn), l) == l.(x := SetX(l.x, rd, View(is64, X(l.x, rn))))
  {
    OrZero(View(is64, X(l.x, rn)));
  }

  // A register file changed in scratch registers other than the load register.
  lemma StillLoaded(k: Plan, x: Regs, l: Local, l': Local, was: nat)
    requires Loaded(k, x, l, was)
    requires k.d.op != CAS
    requires Agree(l.x, l'.x, {k.s2, k.s3})
    ensures Loaded(k, x, l', was)
    ensures X(l'.x, k.d.rs) == X(x, k.d.rs)
  {
  }

  lemma ComputeAlu(k: Plan, x: Regs, l: Local, was: nat)
    requires Loaded(k, x, l, was)
    requires k.d.op in {LDADD, LDCLR, LDEOR, LDSET}
    ensures Computed(k, x, RunLocal(Body(k), l), was)
  {
    Run1(Body(k)[0], l);
    StillLoaded(k, x, l, l, was);
    StillLoaded(k, x, l, LocalStep(Body(k)[0], l), was);
    match k.d.op
    case LDADD => AddTruncates(k.d.size, was, X(x, k.d.rs));
    case LDCLR => BitwiseTruncates(BIC, k.d.size, was, X(x, k.d.rs));
    case LDEOR => BitwiseTruncates(EOR, k.d.size, was, X(x, k.d.rs));
    case LDSET => BitwiseTruncates(ORR, k.d.size, was, X(x, k.d.rs));
  }

  lemma ComputeSwap(k: Plan, x: Regs, l: Local, was: nat)
    requires Loaded(k, x, l, was)
    requires k.d.op == SWP
    ensures Computed(k, x, RunLocal(Body(k), l), was)
  {
    Run1(Body(k)[0], l);
    MovMoves(IsX(k), k.s2, k.d.rs, l);
    ViewIs(k.d.size, X(x, k.d.rs));
    StillLoaded(k, x, l, l, was);
    StillLoaded(k, x, l, LocalStep(Body(k)[0], l), was);
  }

  lemma ComputeCas(k: Plan, x: Regs, l: Local, was: nat)
    requires Loaded(k, x, l, was)
    requires k.d.op == CAS
    ensures Computed(k, x, RunLocal(Body(k), l), was)
  {
    Run1(Body(k)[0], l);
    ViewIs(k.d.size, X(x, k.d.rs));
    ViewIs(k.d.size, was);
    assert X(l.x, k.d.rs) == X(x, k.d.rs) && X(l.x, k.d.rt) == X(x, k.d.rt);
    CompareMeans(WidthOf(IsX(k)), View(IsX(k), was), View(IsX(k), X(x, k.d.rs)));
  }

  // The last instruction of the minimum and maximum bodies: select Rs or the
  // loaded value, knowing which of them the comparison chose.
  lemma ComputeSelect(k: Plan, x: Regs, l: Local, l': Local, was: nat, cond: Reg)
    requires Loaded(k, x, l, was) && k.d.op in {LDSMAX, LDSMIN, LDUMAX, LDUMIN}
    requires Agree(l.x, l'.x, {k.s2, k.s3})
    requires Holds(cond, l'.nzcv) ==> NewValue(k, x, was) == X(x, k.d.rs) % Span(k.d.size)
    requires !Holds(cond, l'.nzcv) ==> NewValue(k, x, was) == was
    ensures Computed(k, x, LocalStep(Csel(IsX(k), k.s2, k.d.rs, k.s1, cond), l'), was)
  {
    StillLoaded(k, x, l, l', was);
    SelectStep(k.d.size, k.s1, k.s2, k.d.rs, cond, l');
    StillLoaded(k, x, l', LocalStep(Csel(IsX(k), k.s2, k.d.rs, k.s1, cond), l'), was);
  }

  lemma SelectStep(size: nat, r1: Reg, r2: Reg, rs: Reg, cond: Reg, l: Local)
    requires size < 4 && r1 < 31 && r2 < 31 && r1 != r2
    requires l.x[r1] < Span(size)
    ensures var l' := LocalStep(Csel(size == 3, r2, rs, r1, cond), l);
            && Agree(l.x, l'.x, {r2})
            && l'.x[r2] % Span(size) == if Holds(cond, l.nzcv) then X(l.x, rs) % Span(size) else l.x[r1]
  {
    ViewIs(size, X(l.x, rs));
    ViewIs(size, l.x[r1]);
  }

  lemma ComputeUnsigned(k: Plan, x: Regs, l: Local, was: nat)
    requires Loaded(k, x, l, was)
    requires k.d.op in {LDUMAX, LDUMIN}
    ensures Computed(k, x, RunLocal(Body(k), l), was)
  {
    Run2(Body(k)[0], Body(k)[1], l);
    StillLoaded(k, x, l, l, was);
    ViewIs(k.d.size, X(x, k.d.rs));
    ViewIs(k.d.size, was);
    CompareMeans(RegSpan(k.d.size), was, X(x, k.d.rs) % RegSpan(k.d.size));
    ComputeSelect(k, x, l, LocalStep(Body(k)[0], l), was, if k.d.op == LDUMAX then LO else HI);
  }

  lemma ComputeSignedWide(k: Plan, x: Regs, l: Local, was: nat)
    requires Loaded(k, x, l, was)
    requires k.d.op in {LDSMAX, LDSMIN} && k.d.size >= 2
    ensures Computed(k, x, RunLocal(Body(k), l), was)
  {
    Run2(Body(k)[0], Body(k)[1], l);
    StillLoaded(k, x, l, l, was);
    ViewIs(k.d.size, X(x, k.d.rs));
    ViewIs(k.d.size, was);
    CompareMeans(Span(k.d.size), was, X(x, k.d.rs) % Span(k.d.size));
    SelectsSigned(k, x, was);
    ComputeSelect(k, x, l, LocalStep(Body(k)[0], l), was, if k.d.op == LDSMAX then LT else GT);
  }

  lemma SelectsSigned(k: Plan, x: Regs, was: nat)
    requires k.d.op in {LDSMAX, LDSMIN}
    ensures var w, v := Span(k.d.size), X(x, k.d.rs) % Span(k.d.size);
            NewValue(k, x, was) ==
            if (if k.d.op == LDSMAX then Signed(was, w) < Signed(v, w) else Signed(was, w) > Signed(v, w)) then v else was
  {
  }

  // Sign extension to 32 bits keeps the signed value.
  lemma ExtendKeeps(v: int, span: nat)
    requires span == 0x100 || span == 0x1_0000
    ensures Signed(Signed(v % span, span) % TWO32, TWO32) == Signed(v % span, span)
  {
  }

  lemma ComputeSignedNarrow(k: Plan, x: Regs, l: Local, was: nat)
    requires Loaded(k, x, l, was)
    requires k.d.op in {LDSMAX, LDSMIN} && k.d.size < 2
    ensures Computed(k, x, RunLocal(Body(k), l), was)
  {
    var b := Body(k);
    assert b == [b[0], b[1], b[2], b[3]];
    Run4(b[0], b[1], b[2], b[3], l);
    StillLoaded(k, x, l, l, was);
    ExtendedCompare(k, x, l, was);
    SelectsSigned(k, x, was);
    var l' := LocalStep(b[2], LocalStep(b[1], LocalStep(b[0], l)));
    ComputeSelect(k, x, l, l', was, if k.d.op == LDSMAX then LT else GT);
  }

  lemma ExtendStep(size: nat, rd: Reg, rn: Reg, l: Local)
    requires size < 2
    ensures LocalStep(if size == 0 then Sxtb(rd, rn) else Sxth(rd, rn), l) ==
            l.(x := SetX(l.x, rd, Signed(X(l.x, rn) % Span(size), Span(size)) % TWO32))
  {
  }

  lemma ExtendedCompare(k: Plan, x: Regs, l: Local, was: nat)
    requires Loaded(k, x, l, was)
    requires k.d.op in {LDSMAX, LDSMIN} && k.d.size < 2
    requires X(l.x, k.d.rs) == X(x, k.d.rs)
    ensures var c := SignedCompare(k);
            var l', w, v := LocalStep(c[2], LocalStep(c[1], LocalStep(c[0], l))), Span(k.d.size), X(x, k.d.rs) % Span(k.d.size);
            && Agree(l.x, l'.x, {k.s2, k.s3})
            && (Holds(LT, l'.nzcv) <==> Signed(was, w) < Signed(v, w))
            && (Holds(GT, l'.nzcv) <==> Signed(was, w) > Signed(v, w))
  {
    ExtendBoth(k.d.size, k.s1, k.s2, k.s3, k.d.rs, l);
    ComparesExtended(was, X(x, k.d.rs), Span(k.d.size));
  }

  function Extend(size: nat, rd: Reg, rn: Reg): Instr {
    if size == 0 then Sxtb(rd, rn) else Sxth(rd, rn)
  }

  // The two extensions and the compare, on registers alone.
  lemma ExtendBoth(size: nat, r1: Reg, r2: Reg, r3: Reg, rs: Reg, l: Local)
    requires size < 2
    requires r1 < 31 && r2 < 31 && r3 < 31 && r1 != r2 && r2 != r3 && rs != r2
    ensures var w := Span(size);
            var l' := LocalStep(Cmp(false, r2, r3), LocalStep(Extend(size, r3, rs), LocalStep(Extend(size, r2, r1), l)));
            && Agree(l.x, l'.x, {r2, r3})
            && l'.nzcv == CmpFlags(TWO32, Signed(l.x[r1] % w, w) % TWO32, Signed(X(l.x, rs) % w, w) % TWO32)
  {
    var w := Span(size);
    var t1, t2 := Signed(l.x[r1] % w, w) % TWO32, Signed(X(l.x, rs) % w, w) % TWO32;
    ExtendStep(size, r2, r1, l);
    var l1 := Local(l.x[r2 := t1], l.nzcv);
    ExtendStep(size, r3, rs, l1);
    CmpWords(r2, r3, Local(l1.x[r3 := t2], l.nzcv));
  }

  lemma CmpWords(rn: Reg, rm: Reg, l: Local)
    requires rn < 31 && rm < 31 && l.x[rn] < TWO32 && l.x[rm] < TWO32
    ensures LocalStep(Cmp(false, rn, rm), l) == l.(nzcv := CmpFlags(TWO32, l.x[rn], l.x[rm]))
  {
  }

  lemma ComparesExtended(m: nat, s: U64, w: nat)
    requires (w == 0x100 || w == 0x1_0000) && m < w
    ensures var f := CmpFlags(TWO32, Signed(m % w, w) % TWO32, Signed(s % w, w) % TWO32);
            && (Holds(LT, f) <==> Signed(m, w) < Signed(s % w, w))
            && (Holds(GT, f) <==> Signed(m, w) > Signed(s % w, w))
  {
    assert m % w == m;
    hide Holds, CmpFlags;
    ExtendKeeps(m, w);
    ExtendKeeps(s, w);
    CompareMeans(TWO32, Signed(m % w, w) % TWO32, Signed(s % w, w) % TWO32);
  }

  // One pass through the body computes the operation.
  lemma BodyComputes(k: Plan, x: Regs, l: Local, was: nat)
    requires Loaded(k, x, l, was)
    ensures Computed(k, x, RunLocal(Body(k), l), was)
  {
    match k.d.op
    case LDADD => ComputeAlu(k, x, l, was);
    case LDCLR => ComputeAlu(k, x, l, was);
    case LDEOR => ComputeAlu(k, x, l, was);
    case LDSET => ComputeAlu(k, x, l, was);
    case SWP => ComputeSwap(k, x, l, was);
    case CAS => ComputeCas(k, x, l, was);
    case LDUMAX => ComputeUnsigned(k, x, l, was);
    case LDUMIN => ComputeUnsigned(k, x, l, was);
    case LDSMAX => if k.d.size < 2 { ComputeSignedNarrow(k, x, l, was); } else { ComputeSignedWide(k, x, l, was); }
    case LDSMIN => if k.d.size < 2 { ComputeSignedNarrow(k, x, l, was); } else { ComputeSignedWide(k, x, l, was); }
  }

  // The instructions after the loop put the loaded value in the destination.
  lemma AfterMoves(k: Plan, x: Regs, l: Local, was: U64)
    requires Loaded(k, x, l, was)
    ensures Agree(RunLocal(After(k), l).x, SetX(x, DestReg(k), was), Scratch(k))
  {
    var mov := Mov(IsX(k), DestReg(k), LoadReg(k));
    MovMoves(IsX(k), DestReg(k), LoadReg(k), l);
    ViewIs(k.d.size, was);
    if k.d.op == CAS {
      Run1(Clrex, l);
      Run2(Clrex, mov, l);
    } else {
      Run1(mov, l);
    }
  }
}
