// BCAX of ARMv8.2 SHA3 and the NEON island that emit_bcax_island puts in its place.
module Bcax {
  import opened Bits
  import opened Options
  import opened Memory
  import opened A64

  type V128 = n: int | 0 <= n < 0x1_0000_0000_0000_0000_0000_0000_0000_0000

  type Vectors = s: seq<V128> | |s| == 32 witness seq(32, i => 0)

  datatype Simd = Simd(v: Vectors, sp: U64, mem: Mem)

  datatype Bcax = Bcax(vd: Reg, vn: Reg, vm: Reg, va: Reg)

  // decode_bcax: the mask 0xFFE08000 fixes bits 31..21 and bit 15.
  function DecodeBcax(w: U32): Option<Bcax> {
    var f := Unpack(w);
    if f.top == 0xCE && f.h == 1 && f.s < 32 then Some(Bcax(f.d, f.n, f.m, f.s)) else None
  }

  function EncodeBcax(b: Bcax): U32 {
    0xCE20_0000 + b.vm * 0x1_0000 + b.va * 0x400 + b.vn * 32 + b.vd
  }

  lemma DecodeEncodeBcax(b: Bcax)
    ensures DecodeBcax(EncodeBcax(b)) == Some(b)
  {
    UnpackPack(EncodeBcax(b), Fields(0xCE, 1, b.vm, b.va, b.vn, b.vd));
  }

  // And nothing else is taken for one.
  lemma OnlyBcax(w: U32)
    requires DecodeBcax(w).Some?
    ensures w == EncodeBcax(DecodeBcax(w).value)
  {
    PackUnpack(w);
    hide Unpack;
  }

  lemma Pow2Wide()
    ensures Pow2(128) == 0x1_0000_0000_0000_0000_0000_0000_0000_0000
  {
    Pow2Values();
    Pow2Add(64, 64);
  }

  function Apply(op: BitOp, x: V128, y: V128): V128 {
    Pow2Wide();
    BitwiseBound(op, 128, x, y);
    Bitwise(op, x, y)
  }

  function LoadQ(m: Mem, a: int): V128 {
    Pow2Wide();
    LoadBound(m, a, 16);
    Load(m, a, 16)
  }

  function VStep(i: Instr, s: Simd): Simd {
    match i
    case VBic(vd, vn, vm) => s.(v := s.v[vd := Apply(AndNot, s.v[vn], s.v[vm])])
    case VEor(vd, vn, vm) => s.(v := s.v[vd := Apply(Xor, s.v[vn], s.v[vm])])
    case StrQPre(vt) =>
      var sp := (s.sp - 16) % TWO64;
      s.(sp := sp, mem := Store(s.mem, sp, 16, s.v[vt]))
    case LdrQPost(vt) => s.(v := s.v[vt := LoadQ(s.mem, s.sp)], sp := (s.sp + 16) % TWO64)
    case _ => s
  }

  function VRun(code: seq<Instr>, s: Simd): Simd {
    if code == [] then s else VRun(code[1..], VStep(code[0], s))
  }

  // The highest vector register that is not used, or 31.
  function PickVector(used: set<Reg>, r: int): (t: Reg)
    requires -1 <= r < 32
    ensures (exists k: Reg :: k <= r && k !in used) ==> t !in used
    decreases r + 1
  {
    if r < 0 then 31 else if r !in used then r else PickVector(used, r - 1)
  }

  function Temporary(b: Bcax): Reg {
    PickVector({b.vd, b.vn, b.vm, b.va}, 31)
  }

  lemma TemporaryIsFree(b: Bcax)
    ensures Temporary(b) !in {b.vd, b.vn, b.vm, b.va}
  {
    var used: set<Reg> := {b.vd, b.vn, b.vm, b.va};
    var k: Reg := if 31 !in used then 31 else if 30 !in used then 30 else if 29 !in used then 29
                  else if 28 !in used then 28 else 27;
    assert k !in used;
  }

  // Everything but the return branch.
  function BcaxBody(b: Bcax): seq<Instr> {
    if b.va == b.vd then [VBic(b.vd, b.vm, b.vd), VEor(b.vd, b.vn, b.vd)]
    else
      var t := Temporary(b);
      [StrQPre(t), VBic(t, b.vm, b.va), VEor(b.vd, b.vn, t), LdrQPost(t)]
  }

  function BcaxCode(b: Bcax, ret: int): (code: seq<Instr>)
    ensures |code| <= 5
  {
    BcaxBody(b) + [B(ret - |BcaxBody(b)|)]
  }

  // Vd = Vn XOR (Vm AND NOT Va)
  function Architectural(b: Bcax, v: Vectors): V128 {
    Apply(Xor, v[b.vn], Apply(AndNot, v[b.vm], v[b.va]))
  }

  // Where the island uses Vd as its own temporary although Vd is also Vn.
  predicate Clobbers(b: Bcax) {
    b.va == b.vd && b.vn == b.vd
  }

  lemma VRun2(a: Instr, c: Instr, s: Simd)
    ensures VRun([a, c], s) == VStep(c, VStep(a, s))
  {
    assert [a, c][1..] == [c] && [c][1..] == [];
    assert VRun([c], VStep(a, s)) == VRun([], VStep(c, VStep(a, s)));
  }

  lemma VRun4(a: Instr, c: Instr, e: Instr, f: Instr, s: Simd)
    ensures VRun([a, c, e, f], s) == VStep(f, VStep(e, VStep(c, VStep(a, s))))
  {
    assert [a, c, e, f][1..] == [c, e, f] && [c, e, f][1..] == [e, f];
    VRun2(e, f, VStep(c, VStep(a, s)));
  }

  // With a temporary of its own the island computes BCAX for every choice of
  // registers, restores the temporary and SP, and writes only the 16 bytes below SP.
  lemma WithTemporary(b: Bcax, s: Simd)
    requires b.va != b.vd && s.sp >= 16
    ensures var s' := VRun(BcaxBody(b), s);
            && s'.v == s.v[b.vd := Architectural(b, s.v)] && s'.sp == s.sp
            && forall a :: a < s.sp - 16 || s.sp <= a ==> Byte(s'.mem, a) == Byte(s.mem, a)
  {
    TemporaryIsFree(b);
    var (t, code) := (Temporary(b), BcaxBody(b));
    VRun4(code[0], code[1], code[2], code[3], s);
    SaveRestore(s, t);
    ComputeWith(b, t, s);
  }

  // On registers alone: compute through t, then put t back.
  lemma ComputeWith(b: Bcax, t: Reg, s: Simd)
    requires t !in {b.vd, b.vn, b.vm, b.va}
    ensures VStep(VEor(b.vd, b.vn, t), VStep(VBic(t, b.vm, b.va), s)).v[t := s.v[t]]
            == s.v[b.vd := Architectural(b, s.v)]
  {
  }

  lemma SaveRestore(s: Simd, t: Reg)
    requires s.sp >= 16
    ensures var s1 := VStep(StrQPre(t), s);
            && s1.v == s.v && s1.sp == s.sp - 16 && LoadQ(s1.mem, s1.sp) == s.v[t]
            && forall a :: a < s.sp - 16 || s.sp <= a ==> Byte(s1.mem, a) == Byte(s.mem, a)
  {
    LoadStored(s.mem, s.sp - 16, 16, s.v[t]);
    Pow2Wide();
    forall a | a < s.sp - 16 || s.sp <= a
      ensures Byte(Store(s.mem, s.sp - 16, 16, s.v[t]), a) == Byte(s.mem, a)
    {
      StoreElsewhere(s.mem, s.sp - 16, 16, s.v[t], a);
    }
  }

  lemma InPlace(b: Bcax, s: Simd)
    requires b.va == b.vd && b.vn != b.vd
    ensures VRun(BcaxBody(b), s) == s.(v := s.v[b.vd := Architectural(b, s.v)])
  {
    VRun2(BcaxBody(b)[0], BcaxBody(b)[1], s);
  }

  lemma {:induction false} XorSelf(x: nat)
    ensures Bitwise(Xor, x, x) == 0
  {
    if x != 0 {
      XorSelf(x / 2);
    }
  }

  lemma {:induction false} XorAndNotZero(x: nat, y: nat)
    ensures Bitwise(Xor, x, Bitwise(AndNot, y, x)) == 0 <==> x == 0 && y == 0
    decreases x + y
  {
    if x != 0 || y != 0 {
      XorAndNotZero(x / 2, y / 2);
      Halve(AndNot, y, x);
      Halve(Xor, x, Bitwise(AndNot, y, x));
    }
  }

  // When Vd, Vn and Va are one register the island always leaves 0.
  lemma Clobbered(b: Bcax, s: Simd)
    requires Clobbers(b)
    ensures VRun(BcaxBody(b), s) == s.(v := s.v[b.vd := 0])
  {
    VRun2(BcaxBody(b)[0], BcaxBody(b)[1], s);
    XorSelf(Apply(AndNot, s.v[b.vm], s.v[b.vd]));
  }

  // The island computes BCAX exactly when Vd, Vn and Va are not one and the
  // same register, or that register and Vm are both 0.
  lemma BcaxExact(b: Bcax, s: Simd)
    requires s.sp >= 16
    ensures VRun(BcaxBody(b), s).v == s.v[b.vd := Architectural(b, s.v)] <==>
            !Clobbers(b) || (s.v[b.vd] == 0 && s.v[b.vm] == 0)
  {
    if Clobbers(b) {
      Clobbered(b, s);
      XorAndNotZero(s.v[b.vd], s.v[b.vm]);
      assert s.v[b.vd := 0][b.vd] == 0;
      assert s.v[b.vd := Architectural(b, s.v)][b.vd] == Architectural(b, s.v);
    } else if b.va == b.vd {
      InPlace(b, s);
    } else {
      WithTemporary(b, s);
    }
  }

  // BCAX V0, V0, V1, V0 with 1 in V0 and 0 in V1: the island leaves 0 where BCAX gives 1.
  lemma ClobberBreaksBcax()
    ensures var b, v := Bcax(0, 0, 1, 0), seq(32, i => if i == 0 then 1 else 0);
            var s := Simd(v, 16, map[]);
            VRun(BcaxBody(b), s).v[0] == 0 && Architectural(b, v) == 1
  {
    var b, v := Bcax(0, 0, 1, 0), seq(32, i => if i == 0 then 1 else 0);
    Clobbered(b, Simd(v, 16, map[]));
  }
}
