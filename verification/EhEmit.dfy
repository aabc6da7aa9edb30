// Building the synthetic .eh_frame (eh_frame.c): CIEs and FDEs with lengths patched in
// afterwards, for the layout of the "Exception Frames" section of the LSB Core
// specification.
module EhEmit {
  import opened Bits
  import opened Options
  import opened Leb
  import opened Words
  import opened Cfi

  // --- The layout ---

  // Bytes from n to the next multiple of 8.
  function Pad(n: nat): (r: nat)
    ensures r < 8 && (n + r) % 8 == 0
  {
    (8 - n % 8) % 8
  }

  // A record at position pos: its length, its body, and nops up to the next multiple
  // of 8.
  function Record(pos: nat, body: seq<U8>): seq<U8> {
    var pad := Pad(pos + 4 + |body|);
    Le(|body| + pad, 4) + body + Nops(pad)
  }

  // id 0, version 1, augmentation string "zPLR" or "zR"
  function CieHead(personality: U64): seq<U8> {
    [0, 0, 0, 0, 1] + if personality != 0 then [0x7a, 0x50, 0x4c, 0x52, 0] else [0x7a, 0x52, 0]
  }

  // Its length; then for P an encoding and the address, and the encodings of L and R.
  function CieData(personality: U64): seq<U8> {
    if personality != 0 then [11] + [0] + Le(personality, 8) + [0] + [0] else [1] + [0]
  }

  // In between, code alignment 4, data alignment -8 and return column 30; at the end
  // DW_CFA_def_cfa SP+0.
  function CieBody(personality: U64): seq<U8> {
    CieHead(personality) + [4, 0x78, 30] + CieData(personality) + ([12] + [31] + [0])
  }

  datatype Fde = Fde(cie: nat, addr: U64, size: U32, lsda: U64, cfi: seq<U8>)

  function Augmentation(lsda: U64): seq<U8> {
    if lsda == 0 then [0] else [8] + Le(lsda, 8)
  }

  // The distance back to the CIE, the address range, the augmentation.
  function FdeHead(distance: nat, addr: U64, size: U32, lsda: U64): seq<U8> {
    Le(distance, 4) + Le(addr, 8) + Le(size, 8) + Augmentation(lsda)
  }

  function FdeBody(pos: nat, f: Fde): seq<U8>
    requires f.cie <= pos
  {
    FdeHead(pos + 4 - f.cie, f.addr, f.size, f.lsda) + f.cfi
  }

  function FdeRecord(pos: nat, f: Fde): seq<U8>
    requires f.cie <= pos
  {
    Record(pos, FdeBody(pos, f))
  }

  lemma PadStep(s: seq<U8>)
    requires |s| % 8 != 0
    ensures Pad(|s|) == Pad(|s| + 1) + 1
    ensures s + Nops(Pad(|s|)) == (s + [0]) + Nops(Pad(|s| + 1))
  {
    PadArithmetic(|s|);
    hide Pad;
    Assoc2(s, [0], Nops(Pad(|s| + 1)));
  }

  lemma PadArithmetic(n: nat)
    requires n % 8 != 0
    ensures Pad(n) == Pad(n + 1) + 1
  {
    var (q, r) := (n / 8, n % 8);
    if r < 7 {
      DivModUnique(n + 1, 8, q, r + 1);
    } else {
      DivModUnique(n + 1, 8, q + 1, 0);
    }
  }

  lemma PadDone(s: seq<U8>)
    requires |s| % 8 == 0
    ensures s + Nops(Pad(|s|)) == s
  {
  }

  lemma Assoc2(p: seq<U8>, a: seq<U8>, b: seq<U8>)
    ensures p + a + b == p + (a + b)
  {
  }

  lemma Assoc3(p: seq<U8>, a: seq<U8>, b: seq<U8>, c: seq<U8>)
    ensures p + a + b + c == p + (a + b + c)
  {
    Assoc2(p, a, b);
    Assoc2(p, a + b, c);
  }

  lemma Assoc4(p: seq<U8>, a: seq<U8>, b: seq<U8>, c: seq<U8>, d: seq<U8>)
    ensures p + a + b + c + d == p + (a + b + c + d)
  {
    Assoc3(p, a, b, c);
    Assoc2(p, a + b + c, d);
  }

  lemma Assoc5(p: seq<U8>, a: seq<U8>, b: seq<U8>, c: seq<U8>, d: seq<U8>, e: seq<U8>)
    ensures p + a + b + c + d + e == p + (a + b + c + d + e)
  {
    Assoc4(p, a, b, c, d);
    Assoc2(p, a + b + c + d, e);
  }

  lemma RecordAligned(pos: nat, body: seq<U8>)
    ensures |Record(pos, body)| == 4 + |body| + Pad(pos + 4 + |body|)
    ensures (pos + |Record(pos, body)|) % 8 == 0
  {
  }

  // --- Which FDE an unwind entry gets ---

  // func_offset, func_size, encoding, lsda_offset
  datatype CuEntry = CuEntry(offset: U32, size: U32, encoding: U32, lsda: U32)

  // A native FDE and its instructions.
  datatype Native = Native(start: U64, range: U64, cfi: seq<U8>)

  function Mode(encoding: U32): nat {
    encoding / 0x100_0000 % 16
  }

  predicate HasLsda(encoding: U32) {
    encoding / 0x4000_0000 % 2 == 1
  }

  predicate NotFunctionStart(encoding: U32) {
    encoding / 0x8000_0000 % 2 == 1
  }

  // find_native_fde's test: same start, or strictly inside.
  predicate Covers(n: Native, addr: U64) {
    n.start == addr || (n.range != 0 && n.start < addr < Wrap(n.start + n.range))
  }

  function FindFrom(natives: seq<Native>, addr: U64, i: nat): (r: nat)
    requires i <= |natives|
    ensures i <= r <= |natives|
    ensures r < |natives| ==> Covers(natives[r], addr)
    ensures forall k :: i <= k < r ==> !Covers(natives[k], addr)
    decreases |natives| - i
  {
    if i == |natives| || Covers(natives[i], addr) then i else FindFrom(natives, addr, i + 1)
  }

  // Where everything goes: text base plus slide, the two CIEs, the native FDEs.
  datatype Plan = Plan(text: U64, withCie: nat, plainCie: nat, natives: seq<Native>)

  function LsdaOf(plan: Plan, e: CuEntry): U64 {
    if HasLsda(e.encoding) && e.lsda != 0 then Wrap(plan.text + e.lsda) else 0
  }

  predicate UsesNative(plan: Plan, e: CuEntry) {
    LsdaOf(plan, e) != 0 &&
    var k := FindFrom(plan.natives, Wrap(plan.text + e.offset), 0);
    k < |plan.natives| && plan.natives[k].cfi != []
  }

  function CfiFor(encoding: U32): seq<U8> {
    if Mode(encoding) == 4 then FrameCfi(encoding)
    else if Mode(encoding) == 2 then FramelessCfi(encoding)
    else []
  }

  // The FDE of an entry; none for DWARF mode and for continuations.
  function FdeOf(plan: Plan, e: CuEntry): Option<Fde> {
    var addr := Wrap(plan.text + e.offset);
    if UsesNative(plan, e) then
      var n := plan.natives[FindFrom(plan.natives, addr, 0)];
      var range := if n.range != 0 then n.range % TWO32 else e.size;
      Some(Fde(plan.withCie, addr, range, LsdaOf(plan, e), n.cfi))
    else if Mode(e.encoding) == 3 || NotFunctionStart(e.encoding) then None
    else
      Some(Fde(if HasLsda(e.encoding) then plan.withCie else plan.plainCie,
               addr, e.size, LsdaOf(plan, e), CfiFor(e.encoding)))
  }

  function FdesOf(plan: Plan, es: seq<CuEntry>): seq<Fde> {
    if es == [] then []
    else
      match FdeOf(plan, es[0])
      case None => FdesOf(plan, es[1..])
      case Some(f) => [f] + FdesOf(plan, es[1..])
  }

  predicate CiesBelow(pos: nat, fs: seq<Fde>) {
    forall i :: 0 <= i < |fs| ==> fs[i].cie <= pos
  }

  function Records(pos: nat, fs: seq<Fde>): seq<U8>
    requires CiesBelow(pos, fs)
    decreases |fs|
  {
    if fs == [] then []
    else FdeRecord(pos, fs[0]) + Records(pos + |FdeRecord(pos, fs[0])|, fs[1..])
  }

  // --- The emitter ---

  class Emitter {
    // The bytes written so far, the size of the mapping they go to, and whether a write
    // has been reported as reaching beyond it; the write happens all the same.
    var buf: seq<U8>
    const capacity: nat
    var reported: bool

    predicate Valid()
      reads this
    {
      reported <==> |buf| > capacity
    }

    constructor (capacity: nat)
      ensures Valid() && buf == [] && this.capacity == capacity
    {
      buf, this.capacity, reported := [], capacity, false;
    }

    // ehf_ensure, and the bytes it makes room for.
    method Append(bytes: seq<U8>)
      requires Valid()
      modifies this
      ensures Valid()
      ensures buf == old(buf) + bytes
    {
      if |buf| + |bytes| > capacity {
        reported := true;
      }
      buf := buf + bytes;
    }

    method Put(v: U8)
      requires Valid()
      modifies this
      ensures Valid()
      ensures buf == old(buf) + [v]
    {
      Append([v]);
    }

    method PutWord(v: nat, n: nat)
      requires Valid()
      modifies this
      ensures Valid()
      ensures buf == old(buf) + Le(v, n)
    {
      Append(Le(v, n));
    }

    method PutUleb(v: U64)
      requires Valid()
      modifies this
      ensures Valid()
      ensures buf == old(buf) + Uleb(v)
    {
      var bytes := WriteUleb([], v);
      Append(bytes);
    }

    method PutSleb(v: I64)
      requires Valid()
      modifies this
      ensures Valid()
      ensures buf == old(buf) + Sleb(v)
    {
      var bytes := WriteSleb([], v);
      Append(bytes);
    }

    // ehf_align(8)
    method Align()
      requires Valid()
      modifies this
      ensures Valid()
      ensures buf == old(buf) + Nops(Pad(|old(buf)|))
    {
      ghost var left := Pad(|buf|);
      hide Pad, Nops;
      while |buf| % 8 != 0
        invariant Valid() && left == Pad(|buf|) && buf + Nops(left) == old(buf) + Nops(Pad(|old(buf)|))
        decreases left
      {
        PadStep(buf);
        Put(0);
        left := left - 1;
      }
      PadDone(buf);
    }

    // The tail of every record: pad, then patch the length at start.
    method Finish(start: nat, ghost body: seq<U8>)
      requires start + 4 <= |buf| && buf[start + 4..] == body
      requires Valid()
      modifies this
      ensures Valid()
      ensures buf == old(buf)[..start] + Record(start, body)
    {
      ghost var was := buf;
      ghost var pad := Pad(|buf|);
      Align();
      var length := |buf| - (start + 4);
      buf := buf[..start] + Le(length, 4) + buf[start + 4..];
      assert |was| == start + 4 + |body|;
      assert was[start + 4..] + Nops(pad) == (was + Nops(pad))[start + 4..];
    }

    method PutCieHead(personality: U64)
      requires Valid()
      modifies this
      ensures Valid()
      ensures buf == old(buf) + CieHead(personality)
    {
      LeZero();
      PutWord(0, 4);
      Put(1);
      if personality != 0 {
        Put(0x7a);
        Put(0x50);
        Put(0x4c);
        Put(0x52);
        Put(0);
      } else {
        Put(0x7a);
        Put(0x52);
        Put(0);
      }
    }

    method PutCieFactors()
      requires Valid()
      modifies this
      ensures Valid()
      ensures buf == old(buf) + [4, 0x78, 30]
    {
      SmallUleb(4);
      SmallUleb(30);
      SlebMinusEight();
      PutUleb(4);
      PutSleb(-8);
      PutUleb(30);
    }

    method PutCieData(personality: U64)
      requires Valid()
      modifies this
      ensures Valid()
      ensures buf == old(buf) + CieData(personality)
    {
      SmallUleb(11);
      SmallUleb(1);
      hide Le, Uleb;
      Assoc5(buf, [11], [0], Le(personality, 8), [0], [0]);
      Assoc2(buf, [1], [0]);
      if personality != 0 {
        PutUleb(11);
        Put(0);
        PutWord(personality, 8);
        Put(0);
        Put(0);
      } else {
        PutUleb(1);
        Put(0);
      }
    }

    method PutDefCfa(reg: nat, offset: U64)
      requires reg < 128
      requires Valid()
      modifies this
      ensures Valid()
      ensures buf == old(buf) + ([0x0c] + Uleb(reg) + Uleb(offset))
    {
      hide Uleb;
      Put(0x0c);
      PutUleb(reg);
      PutUleb(offset);
    }

    // emit_cie
    method EmitCie(personality: U64) returns (start: nat)
      requires Valid()
      modifies this
      ensures Valid()
      ensures start == |old(buf)|
      ensures buf == old(buf) + Record(start, CieBody(personality))
    {
      SmallUleb(31);
      SmallUleb(0);
      hide Le, Uleb, CieHead, CieData, Record;
      start := |buf|;
      ghost var was, body := buf, CieBody(personality);
      PutWord(0, 4);
      PutCieHead(personality);
      PutCieFactors();
      PutCieData(personality);
      PutDefCfa(31, 0);
      Assoc4(was + Le(0, 4), CieHead(personality), [4, 0x78, 30], CieData(personality), [12] + [31] + [0]);
      Built(was, Le(0, 4), body, buf);
      Finish(start, body);
    }

    // The part common to all FDEs.
    method PutFdeHead(cie: nat, addr: U64, size: U32, lsda: U64)
      requires cie <= |buf|
      requires Valid()
      modifies this
      ensures Valid()
      ensures buf == old(buf) + (Le(0, 4) + FdeHead(|old(buf)| + 4 - cie, addr, size, lsda))
    {
      SmallUleb(0);
      SmallUleb(8);
      hide Le, Uleb;
      ghost var (was, l, a, b, c) := (buf, Le(0, 4), Le(|buf| + 4 - cie, 4), Le(addr, 8), Le(size, 8));
      Assoc2(was + l + a + b + c, [8], Le(lsda, 8));
      Assoc4(was + l, a, b, c, Augmentation(lsda));
      Assoc2(was, l, a + b + c + Augmentation(lsda));
      PutWord(0, 4);
      PutWord(|buf| - cie, 4);
      PutWord(addr, 8);
      PutWord(size, 8);
      if lsda != 0 {
        PutUleb(8);
        PutWord(lsda, 8);
      } else {
        PutUleb(0);
      }
    }

    // Both registers of a pair, when its bit is set.
    method PutPair(encoding: nat, bit: nat, reg: nat, first: nat) returns (slot: nat)
      requires reg < 127 && first < 100
      requires Valid()
      modifies this
      ensures Valid()
      ensures var regs := if Bit(encoding, bit) then [reg, reg + 1] else [];
              Registers(regs) && buf == old(buf) + SaveAll(regs, first) && slot == first + |regs|
    {
      slot := first;
      if Bit(encoding, bit) {
        SavePair(reg, slot);
        hide Uleb, SaveAll;
        PutSave(reg, slot);
        PutSave(reg + 1, slot + 1);
        slot := slot + 2;
      }
    }

    method PutSave(reg: nat, slot: U64)
      requires reg < 128
      requires Valid()
      modifies this
      ensures Valid()
      ensures buf == old(buf) + SaveOne(reg, slot)
    {
      hide Uleb;
      if reg < 64 {
        Put(0x80 + reg);
      } else {
        Put(5);
        PutUleb(reg);
      }
      PutUleb(slot);
    }

    // The i-th pair, after the pairs before it have been written to start.
    method PutNext(encoding: nat, i: nat, first: nat, slot0: nat, ghost start: seq<U8>, ghost done0: seq<nat>)
      returns (slot: nat, ghost done: seq<nat>)
      requires i < 9 && first < 80 && Written(encoding, i, first, slot0, done0)
      requires buf == start + SaveAll(done0, first)
      requires Valid()
      modifies this
      ensures Valid()
      ensures Written(encoding, i + 1, first, slot, done) && buf == start + SaveAll(done, first)
    {
      ghost var more := WrittenStep(encoding, i, first, slot0, done0);
      SaveMore(done0, more, first);
      hide Bit, SaveAll, Written;
      slot := PutPair(encoding, PairBit(i), PairReg(i), slot0);
      done := done0 + more;
      Assoc2(start, SaveAll(done0, first), SaveAll(more, slot0));
    }

    // All nine pairs in turn.
    method PutSaved(encoding: nat, first: nat)
      requires first < 80
      requires Valid()
      modifies this
      ensures Valid()
      ensures Registers(Saved(encoding)) && buf == old(buf) + SaveAll(Saved(encoding), first)
    {
      ghost var (start, done: seq<nat>) := (buf, []);
      WrittenNone(encoding, first);
      hide Written, SaveAll;
      var slot := first;
      slot, done := PutNext(encoding, 0, first, slot, start, done);
      slot, done := PutNext(encoding, 1, first, slot, start, done);
      slot, done := PutNext(encoding, 2, first, slot, start, done);
      slot, done := PutNext(encoding, 3, first, slot, start, done);
      slot, done := PutNext(encoding, 4, first, slot, start, done);
      slot, done := PutNext(encoding, 5, first, slot, start, done);
      slot, done := PutNext(encoding, 6, first, slot, start, done);
      slot, done := PutNext(encoding, 7, first, slot, start, done);
      slot, done := PutNext(encoding, 8, first, slot, start, done);
      WrittenAll(encoding, first, slot, done);
    }

    // The CFI of a FRAME function.
    method PutFrameCfi(encoding: nat)
      requires Valid()
      modifies this
      ensures Valid()
      ensures buf == old(buf) + FrameCfi(encoding)
    {
      SavedRegisters(encoding);
      hide Uleb, SaveOne, SaveAll, Saved;
      ghost var (was, regs) := (buf, Saved(encoding));
      Put(0x41);
      PutDefCfa(FP, 16);
      PutSave(LR, 1);
      PutSave(FP, 2);
      PutSaved(encoding, 3);
      Assoc5(was, [0x41], [0x0c] + Uleb(FP) + Uleb(16), SaveOne(LR, 1), SaveOne(FP, 2), SaveAll(regs, 3));
    }

    // The CFI of a FRAMELESS function.
    method PutFramelessCfi(encoding: nat)
      requires Valid()
      modifies this
      ensures Valid()
      ensures buf == old(buf) + FramelessCfi(encoding)
    {
      SavedRegisters(encoding);
      hide Uleb, SaveAll, Saved;
      ghost var (was, regs) := (buf, Saved(encoding));
      var size := StackSize(encoding);
      if size > 0 {
        Put(0x41);
        PutDefCfa(SP, size);
        PutSaved(encoding, 1);
        Assoc3(was, [0x41], [0x0c] + Uleb(SP) + Uleb(size), SaveAll(regs, 1));
      }
    }

    // emit_fde_frame
    method EmitFrame(cie: nat, addr: U64, size: U32, encoding: U32, lsda: U64)
      requires cie <= |buf|
      requires Valid()
      modifies this
      ensures Valid()
      ensures buf == old(buf) + FdeRecord(|old(buf)|, Fde(cie, addr, size, lsda, FrameCfi(encoding)))
    {
      var start := |buf|;
      hide FdeHead, Le, Record, FrameCfi;
      ghost var was := buf;
      PutFdeHead(cie, addr, size, lsda);
      PutFrameCfi(encoding);
      FdeBuilt(was, Fde(cie, addr, size, lsda, FrameCfi(encoding)), buf);
      Finish(start, FdeBody(start, Fde(cie, addr, size, lsda, FrameCfi(encoding))));
    }

    // emit_fde_frameless
    method EmitFrameless(cie: nat, addr: U64, size: U32, encoding: U32, lsda: U64)
      requires cie <= |buf|
      requires Valid()
      modifies this
      ensures Valid()
      ensures buf == old(buf) + FdeRecord(|old(buf)|, Fde(cie, addr, size, lsda, FramelessCfi(encoding)))
    {
      var start := |buf|;
      hide FdeHead, Le, Record, FramelessCfi;
      ghost var was := buf;
      PutFdeHead(cie, addr, size, lsda);
      PutFramelessCfi(encoding);
      FdeBuilt(was, Fde(cie, addr, size, lsda, FramelessCfi(encoding)), buf);
      Finish(start, FdeBody(start, Fde(cie, addr, size, lsda, FramelessCfi(encoding))));
    }

    // emit_fde_minimal, and with instructions emit_fde_with_native_cfi
    method EmitCopied(cie: nat, addr: U64, size: U32, lsda: U64, cfi: seq<U8>)
      requires cie <= |buf|
      requires Valid()
      modifies this
      ensures Valid()
      ensures buf == old(buf) + FdeRecord(|old(buf)|, Fde(cie, addr, size, lsda, cfi))
    {
      var start := |buf|;
      hide FdeHead, Le, Record;
      ghost var was := buf;
      PutFdeHead(cie, addr, size, lsda);
      Append(cfi);
      FdeBuilt(was, Fde(cie, addr, size, lsda, cfi), buf);
      Finish(start, FdeBody(start, Fde(cie, addr, size, lsda, cfi)));
    }

    // The loop body: the FDE of one entry, if it gets one.
    method EmitEntry(plan: Plan, e: CuEntry) returns (emitted: bool)
      requires plan.withCie <= |buf| && plan.plainCie <= |buf|
      requires Valid()
      modifies this
      ensures Valid()
      ensures emitted == FdeOf(plan, e).Some?
      ensures emitted ==> FdeOf(plan, e).value.cie <= |old(buf)|
      ensures buf == if emitted then old(buf) + FdeRecord(|old(buf)|, FdeOf(plan, e).value) else old(buf)
    {
      hide FdeRecord, FrameCfi, FramelessCfi;
      var addr := Wrap(plan.text + e.offset);
      var lsda := LsdaOf(plan, e);
      var cie := if HasLsda(e.encoding) then plan.withCie else plan.plainCie;
      if lsda != 0 {
        var k := FindNative(plan.natives, addr);
        if k < |plan.natives| && plan.natives[k].cfi != [] {
          var n := plan.natives[k];
          var range := if n.range != 0 then n.range % TWO32 else e.size;
          EmitCopied(plan.withCie, addr, range, lsda, n.cfi);
          return true;
        }
      }
      if Mode(e.encoding) == 3 || NotFunctionStart(e.encoding) {
        return false;
      }
      if Mode(e.encoding) == 4 {
        EmitFrame(cie, addr, e.size, e.encoding, lsda);
      } else if Mode(e.encoding) == 2 {
        EmitFrameless(cie, addr, e.size, e.encoding, lsda);
      } else {
        EmitCopied(cie, addr, e.size, lsda, []);
      }
      emitted := true;
    }

    // The whole section: two CIEs, the FDEs, a zero length. By Valid an overflow has been
    // reported exactly when the section is longer than the mapping.
    method EmitAll(text: U64, personality: U64, natives: seq<Native>, es: seq<CuEntry>) returns (count: nat)
      requires buf == []
      requires Valid()
      modifies this
      ensures Valid()
      ensures buf == Section(text, personality, natives, es)
      ensures reported <==> |Section(text, personality, natives, es)| > capacity
      ensures count == |FdesOf(PlanFor(text, personality, natives), es)|
    {
      hide Record, CieBody, FdeOf;
      var withCie := EmitCie(personality);
      var plainCie := EmitCie(0);
      var plan := Plan(text, withCie, plainCie, natives);
      ghost var cies := buf;
      assert plan == PlanFor(text, personality, natives) && cies == Cies(personality);
      CiesFit(text, personality, natives, es);
      count := 0;
      hide PlanFor, Cies, FdesOf, Records;
      assert es[0..] == es;
      for i := 0 to |es|
        invariant Valid() && plan.withCie <= |buf| && plan.plainCie <= |buf|
        invariant CiesBelow(|buf|, FdesOf(plan, es[i..]))
        invariant buf + Records(|buf|, FdesOf(plan, es[i..])) == cies + Records(|cies|, FdesOf(plan, es))
        invariant count + |FdesOf(plan, es[i..])| == |FdesOf(plan, es)|
      {
        assert es[i..][0] == es[i] && es[i..][1..] == es[i + 1..];
        EmitStep(plan, es[i..], buf);
        var emitted := EmitEntry(plan, es[i]);
        if emitted {
          count := count + 1;
        }
      }
      NoneLeft(plan, buf);
      assert es[|es|..] == [];
      PutWord(0, 4);
    }
  }

  method FindNative(natives: seq<Native>, addr: U64) returns (k: nat)
    ensures k == FindFrom(natives, addr, 0)
  {
    k := 0;
    while k < |natives|
      invariant k <= |natives| && FindFrom(natives, addr, k) == FindFrom(natives, addr, 0)
    {
      if Covers(natives[k], addr) {
        return;
      }
      k := k + 1;
    }
  }

  function Cies(personality: U64): seq<U8> {
    var first := Record(0, CieBody(personality));
    first + Record(|first|, CieBody(0))
  }

  function PlanFor(text: U64, personality: U64, natives: seq<Native>): Plan {
    Plan(text, 0, |Record(0, CieBody(personality))|, natives)
  }

  function Section(text: U64, personality: U64, natives: seq<Native>, es: seq<CuEntry>): seq<U8> {
    CiesFit(text, personality, natives, es);
    var cies := Cies(personality);
    cies + Records(|cies|, FdesOf(PlanFor(text, personality, natives), es)) + Le(0, 4)
  }

  lemma {:induction false} PlanBelow(plan: Plan, pos: nat, es: seq<CuEntry>)
    requires plan.withCie <= pos && plan.plainCie <= pos
    ensures CiesBelow(pos, FdesOf(plan, es))
    decreases |es|
  {
    if es != [] {
      hide UsesNative, CfiFor, LsdaOf;
      PlanBelow(plan, pos, es[1..]);
    }
  }

  lemma CiesFit(text: U64, personality: U64, natives: seq<Native>, es: seq<CuEntry>)
    ensures CiesBelow(|Cies(personality)|, FdesOf(PlanFor(text, personality, natives), es))
  {
    hide Record, CieBody, FdesOf, CiesBelow;
    PlanBelow(PlanFor(text, personality, natives), |Cies(personality)|, es);
  }

  // One entry of the list moves its record from the right of the sum to the buffer.
  lemma EmitStep(plan: Plan, es: seq<CuEntry>, buf: seq<U8>)
    requires es != [] && plan.withCie <= |buf| && plan.plainCie <= |buf|
    ensures var f := FdeOf(plan, es[0]);
            && CiesBelow(|buf|, FdesOf(plan, es))
            && (f.None? ==> FdesOf(plan, es[1..]) == FdesOf(plan, es))
            && (f.Some? ==>
                  && f.value.cie <= |buf|
                  && var next := buf + FdeRecord(|buf|, f.value);
                  && |FdesOf(plan, es)| == 1 + |FdesOf(plan, es[1..])|
                  && CiesBelow(|next|, FdesOf(plan, es[1..]))
                  && next + Records(|next|, FdesOf(plan, es[1..])) == buf + Records(|buf|, FdesOf(plan, es)))
  {
    PlanBelow(plan, |buf|, es);
    hide FdeOf, FdeRecord;
    var f := FdeOf(plan, es[0]);
    if f.Some? {
      var fs := FdesOf(plan, es[1..]);
      assert FdesOf(plan, es) == [f.value] + fs;
      assert f.value == FdesOf(plan, es)[0];
      PlanBelow(plan, |buf + FdeRecord(|buf|, f.value)|, es[1..]);
      hide FdesOf;
      RecordsCons(buf, f.value, fs);
    }
  }

  lemma RecordsCons(buf: seq<U8>, f: Fde, fs: seq<Fde>)
    requires f.cie <= |buf| && CiesBelow(|buf|, [f] + fs)
    requires CiesBelow(|buf + FdeRecord(|buf|, f)|, fs)
    ensures var next := buf + FdeRecord(|buf|, f);
            next + Records(|next|, fs) == buf + Records(|buf|, [f] + fs)
  {
    hide FdeRecord;
    var r := FdeRecord(|buf|, f);
    assert ([f] + fs)[1..] == fs;
    Assoc2(buf, r, Records(|buf| + |r|, fs));
  }

  lemma NoneLeft(plan: Plan, buf: seq<U8>)
    ensures FdesOf(plan, []) == [] && Records(|buf|, []) == [] && buf + [] == buf
  {
  }

  lemma FdeBuilt(was: seq<U8>, f: Fde, now: seq<U8>)
    requires f.cie <= |was|
    requires now == was + (Le(0, 4) + FdeHead(|was| + 4 - f.cie, f.addr, f.size, f.lsda)) + f.cfi
    ensures |was| + 4 <= |now| && now[|was| + 4..] == FdeBody(|was|, f) && now[..|was|] == was
  {
    hide Le, FdeHead;
    var h := FdeHead(|was| + 4 - f.cie, f.addr, f.size, f.lsda);
    Assoc2(was, Le(0, 4), h);
    Assoc2(was + Le(0, 4), h, f.cfi);
    Built(was, Le(0, 4), h + f.cfi, now);
  }

  // done holds the registers of the first i pairs, and slot comes after them.
  ghost predicate Written(encoding: nat, i: nat, first: nat, slot: nat, done: seq<nat>) {
    && i <= 9 && slot == first + |done| && |done| <= 2 * i
    && Registers(done) && done + Remaining(encoding, i) == Saved(encoding)
  }

  lemma WrittenNone(encoding: nat, first: nat)
    ensures Written(encoding, 0, first, first, []) && SaveAll([], first) == []
  {
  }

  lemma WrittenStep(encoding: nat, i: nat, first: nat, slot: nat, done: seq<nat>) returns (more: seq<nat>)
    requires i < 9 && first < 80 && Written(encoding, i, first, slot, done)
    ensures more == if Bit(encoding, PairBit(i)) then [PairReg(i), PairReg(i) + 1] else []
    ensures Registers(more) && Registers(done) && slot == first + |done| && slot < 100 && PairReg(i) < 127
    ensures Written(encoding, i + 1, first, slot + |more|, done + more)
  {
    more := if Bit(encoding, PairBit(i)) then [PairReg(i), PairReg(i) + 1] else [];
    hide Bit, Remaining, Saved;
    RemainingStep(encoding, i);
    Rejoin(done, more, Remaining(encoding, i + 1));
  }

  lemma Rejoin(a: seq<nat>, b: seq<nat>, c: seq<nat>)
    ensures a + (b + c) == (a + b) + c
  {
  }

  lemma WrittenAll(encoding: nat, first: nat, slot: nat, done: seq<nat>)
    requires Written(encoding, 9, first, slot, done)
    ensures done == Saved(encoding) && Registers(done)
  {
  }

  // The i-th of the nine pairs.
  function PairBit(i: nat): nat {
    if i < 5 then i else i + 3
  }

  function PairReg(i: nat): nat {
    if i < 5 then 19 + 2 * i else 62 + 2 * i
  }

  ghost function Remaining(encoding: nat, i: nat): seq<nat>
    requires i <= 9
  {
    if i <= 5 then Pairs(encoding, i, 19 + 2 * i, 5 - i) + Pairs(encoding, 8, 72, 4)
    else Pairs(encoding, i + 3, 62 + 2 * i, 9 - i)
  }

  lemma PairsStep(encoding: nat, bit: nat, reg: nat, n: nat)
    ensures Pairs(encoding, bit, reg, n)
         == if n == 0 then []
            else (if Bit(encoding, bit) then [reg, reg + 1] else []) + Pairs(encoding, bit + 1, reg + 2, n - 1)
  {
  }

  lemma RemainingStep(encoding: nat, i: nat)
    requires i < 9
    ensures Remaining(encoding, i)
         == (if Bit(encoding, PairBit(i)) then [PairReg(i), PairReg(i) + 1] else []) + Remaining(encoding, i + 1)
  {
    hide Bit, Pairs;
    if i < 5 {
      PairsStep(encoding, i, 19 + 2 * i, 5 - i);
      Rejoin(if Bit(encoding, i) then [19 + 2 * i, 20 + 2 * i] else [],
             Pairs(encoding, i + 1, 21 + 2 * i, 4 - i), Pairs(encoding, 8, 72, 4));
    } else {
      PairsStep(encoding, i, 19 + 2 * i, 0);
      PairsStep(encoding, i + 3, 62 + 2 * i, 9 - i);
    }
  }

  lemma SavePair(reg: nat, slot: nat)
    requires reg < 127
    ensures Registers([reg, reg + 1])
    ensures SaveAll([reg, reg + 1], slot) == SaveOne(reg, slot) + SaveOne(reg + 1, slot + 1)
  {
    hide SaveOne;
    var s := [reg, reg + 1];
    assert s[1..] == [reg + 1] && s[1..][1..] == [];
    assert SaveAll(s[1..], slot + 1) == SaveOne(reg + 1, slot + 1) + SaveAll([], slot + 2);
  }

  lemma {:induction false} SaveMore(a: seq<nat>, b: seq<nat>, slot: nat)
    requires Registers(a) && Registers(b)
    ensures Registers(a + b) && SaveAll(a + b, slot) == SaveAll(a, slot) + SaveAll(b, slot + |a|)
    decreases |a|
  {
    hide SaveOne;
    if a == [] {
      assert a + b == b;
    } else {
      assert (a + b)[1..] == a[1..] + b;
      SaveMore(a[1..], b, slot + 1);
    }
  }

  // What was appended after the length word.
  lemma Built(was: seq<U8>, length: seq<U8>, body: seq<U8>, now: seq<U8>)
    requires |length| == 4 && now == was + length + body
    ensures |was| + 4 <= |now| && now[|was| + 4..] == body && now[..|was|] == was
  {
  }

  lemma LeZero()
    ensures Le(0, 4) == [0, 0, 0, 0]
  {
    assert Le(0, 0) == [] && Le(0, 1) == [0] && Le(0, 2) == [0, 0] && Le(0, 3) == [0, 0, 0];
  }

  lemma SmallUleb(v: nat)
    ensures v < 128 ==> Uleb(v) == [v]
  {
  }

  lemma SlebMinusEight()
    ensures Sleb(-8) == [0x78]
  {
  }
}
