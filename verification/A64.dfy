// The A64 instructions that the emitted islands are made of: the encoders of
// the C sources and, from sections C6.2 and C7.2 of the Arm ARM (DDI 0487),
// the decoder for the same encodings. A word is an integer below 2^32; an OR
// of disjoint fields is written as a sum, a field as a quotient and remainder.
module A64 {
  import opened Bits

  type Reg = r: int | 0 <= r < 32

  const EQ: Reg := 0x0
  const NE: Reg := 0x1
  const LO: Reg := 0x3
  const HI: Reg := 0x8
  const LT: Reg := 0xB
  const GT: Reg := 0xC

  datatype AluOp = ADD | BIC | EOR | ORR

  datatype Instr =
    | StrPre(rt: Reg)                                  // str Xt, [sp, #-16]!
    | LdrPost(rt: Reg)                                 // ldr Xt, [sp], #16
    | MrsNzcv(rt: Reg)
    | MsrNzcv(rt: Reg)
    | Ldxr(size: nat, acquire: bool, rt: Reg, rn: Reg)
    | Stxr(size: nat, release: bool, rs: Reg, rt: Reg, rn: Reg)
    | Alu(op: AluOp, is64: bool, rd: Reg, rn: Reg, rm: Reg)
    | Cmp(is64: bool, rn: Reg, rm: Reg)
    | Csel(is64: bool, rd: Reg, rn: Reg, rm: Reg, cond: Reg)
    | Sxtb(rd: Reg, rn: Reg)
    | Sxth(rd: Reg, rn: Reg)
    | Clrex
    | Nop
    | BCond(cond: Reg, offset: int)
    | CbnzW(rt: Reg, offset: int)
    | B(offset: int)
    | Bl(offset: int)
    | VBic(vd: Reg, vn: Reg, vm: Reg)
    | VEor(vd: Reg, vn: Reg, vm: Reg)
    | StrQPre(vt: Reg)                                 // str Qt, [sp, #-16]!
    | LdrQPost(vt: Reg)                                // ldr Qt, [sp], #16
    | AddSpImm(rd: Reg, imm: int)                      // add Xd|sp, sp, #imm
    | SubSpImm(rd: Reg, imm: int)                      // sub Xd|sp, sp, #imm
    | StpSp(rt: Reg, rt2: Reg, imm: int)               // stp Xt, Xt2, [sp, #imm]
    | LdpSp(rt: Reg, rt2: Reg, imm: int)
    | StrSp(rt: Reg, imm: int)                         // str Xt, [sp, #imm]
    | LdrSp(rt: Reg, imm: int)
    | LdrLit(rt: Reg, offset: int)                     // ldr Xt, pc + 4 * offset
    | Blr(rn: Reg)
    | Br(rn: Reg)
    | Other(word: U32)


  // Two's-complement reading of a field of the given span.
  function Signed(v: int, span: int): int {
    if v < span / 2 then v else v - span
  }

  const ENC_CLREX: U32 := 0xD503_3F5F
  const ENC_NOP: U32 := 0xD503_201F
  const ENC_SVC80: U32 := 0xD400_1001

  function EncB(offset: int): U32 {
    0x1400_0000 + offset % 0x400_0000
  }

  function EncBl(offset: int): U32 {
    0x9400_0000 + offset % 0x400_0000
  }

  // Can a B or BL at distance byteOffset encode its target?
  predicate BranchInRange(byteOffset: int) {
    byteOffset % 4 == 0 && -0x200_0000 <= byteOffset / 4 < 0x200_0000
  }

  function AluBase(op: AluOp, is64: bool): U32 {
    match op
    case ADD => if is64 then 0x8B00_0000 else 0x0B00_0000
    case BIC => if is64 then 0x8A20_0000 else 0x0A20_0000
    case EOR => if is64 then 0xCA00_0000 else 0x4A00_0000
    case ORR => if is64 then 0xAA00_0000 else 0x2A00_0000
  }

  // mov Xd, Xn is orr Xd, xzr, Xn
  function Mov(is64: bool, rd: Reg, rn: Reg): Instr {
    Alu(ORR, is64, rd, 31, rn)
  }

  // Every operand fits the field the encoder shifts it into.
  predicate FieldsFit(i: Instr) {
    match i
    case Ldxr(size, _, _, _) => size < 4
    case Stxr(size, _, _, _, _) => size < 4
    case Csel(_, _, _, _, cond) => cond < 16
    case BCond(cond, _) => cond < 16
    case AddSpImm(_, imm) => 0 <= imm < 0x1000
    case SubSpImm(_, imm) => 0 <= imm < 0x1000
    case StpSp(_, _, imm) => 0 <= imm < 512 && imm % 8 == 0
    case LdpSp(_, _, imm) => 0 <= imm < 512 && imm % 8 == 0
    case StrSp(_, imm) => 0 <= imm < 0x8000 && imm % 8 == 0
    case LdrSp(_, imm) => 0 <= imm < 0x8000 && imm % 8 == 0
    case _ => true
  }

  // The enc_* helpers. Branch and literal offsets are masked to their field.
  function Encode(i: Instr): U32
    requires FieldsFit(i)
  {
    match i
    case StrPre(rt) => 0xF81F_0FE0 + rt
    case LdrPost(rt) => 0xF841_07E0 + rt
    case MrsNzcv(rt) => 0xD53B_4200 + rt
    case MsrNzcv(rt) => 0xD51B_4200 + rt
    case Ldxr(size, acquire, rt, rn) =>
      0x0840_7C00 + (if acquire then 0x8000 else 0) + size * 0x4000_0000 + rn * 32 + rt
    case Stxr(size, release, rs, rt, rn) =>
      0x0800_7C00 + (if release then 0x8000 else 0) + size * 0x4000_0000 + rs * 0x1_0000 + rn * 32 + rt
    case Alu(op, is64, rd, rn, rm) => AluBase(op, is64) + rm * 0x1_0000 + rn * 32 + rd
    case Cmp(is64, rn, rm) => (if is64 then 0xEB00_0000 else 0x6B00_0000) + rm * 0x1_0000 + rn * 32 + 31
    case Csel(is64, rd, rn, rm, cond) =>
      (if is64 then 0x9A80_0000 else 0x1A80_0000) + rm * 0x1_0000 + cond * 0x1000 + rn * 32 + rd
    case Sxtb(rd, rn) => 0x1300_1C00 + rn * 32 + rd
    case Sxth(rd, rn) => 0x1300_3C00 + rn * 32 + rd
    case Clrex => ENC_CLREX
    case Nop => ENC_NOP
    case BCond(cond, offset) => 0x5400_0000 + (offset % 0x8_0000) * 32 + cond
    case CbnzW(rt, offset) => 0x3500_0000 + (offset % 0x8_0000) * 32 + rt
    case B(offset) => EncB(offset)
    case Bl(offset) => EncBl(offset)
    case VBic(vd, vn, vm) => 0x4E60_1C00 + vm * 0x1_0000 + vn * 32 + vd
    case VEor(vd, vn, vm) => 0x6E20_1C00 + vm * 0x1_0000 + vn * 32 + vd
    case StrQPre(vt) => 0x3C9F_0FE0 + vt
    case LdrQPost(vt) => 0x3CC1_07E0 + vt
    case AddSpImm(rd, imm) => 0x9100_03E0 + rd + imm * 0x400
    case SubSpImm(rd, imm) => 0xD100_03E0 + rd + imm * 0x400
    case StpSp(rt, rt2, imm) => 0xA900_0000 + (imm / 8) * 0x8000 + rt2 * 0x400 + 31 * 32 + rt
    case LdpSp(rt, rt2, imm) => 0xA940_0000 + (imm / 8) * 0x8000 + rt2 * 0x400 + 31 * 32 + rt
    case StrSp(rt, imm) => 0xF900_0000 + (imm / 8) * 0x400 + 31 * 32 + rt
    case LdrSp(rt, imm) => 0xF940_0000 + (imm / 8) * 0x400 + 31 * 32 + rt
    case LdrLit(rt, offset) => 0x5800_0000 + (offset % 0x8_0000) * 32 + rt
    case Blr(rn) => 0xD63F_0000 + rn * 32
    case Br(rn) => 0xD61F_0000 + rn * 32
    case Other(word) => word
  }

  // The six fields every encoding is read through:
  // bits 31..24, 23..21, 20..16, 15..10, 9..5 and 4..0.
  datatype Fields = Fields(top: nat, h: nat, m: Reg, s: nat, n: Reg, d: Reg)

  predicate InRange(f: Fields) {
    f.top < 0x100 && f.h < 8 && f.s < 64
  }

  function Pack(f: Fields): int {
    f.top * 0x100_0000 + f.h * 0x20_0000 + f.m * 0x1_0000 + f.s * 0x400 + f.n * 32 + f.d
  }

  function Unpack(w: U32): (f: Fields)
    ensures InRange(f)
  {
    Fields(w / 0x100_0000, (w / 0x20_0000) % 8, (w / 0x1_0000) % 32, (w / 0x400) % 64, (w / 32) % 32, w % 32)
  }

  lemma PackUnpack(w: U32)
    ensures Pack(Unpack(w)) == w
  {
    var (a, b, c, d, e) := (w / 32, w / 0x400, w / 0x1_0000, w / 0x20_0000, w / 0x100_0000);
    Split(w, 32, 32);
    Split(w, 0x400, 64);
    Split(w, 0x1_0000, 32);
    Split(w, 0x20_0000, 8);
    assert w == 32 * a + w % 32;
    assert a == 32 * b + a % 32 && b == 64 * c + b % 64 && c == 32 * d + c % 32 && d == 8 * e + d % 8;
  }

  lemma Split(w: nat, x: nat, y: nat)
    requires x > 0 && y > 0
    ensures w / x == y * (w / (x * y)) + w / x % y
  {
    var (q, r) := (w / x, w % x);
    var (h, l) := (q / y, q % y);
    assert q * x == h * (x * y) + l * x;
    assert (l + 1) * x <= y * x;
    DivModUnique(w, x * y, h, l * x + r);
  }

  lemma UnpackPack(w: U32, f: Fields)
    requires InRange(f) && w == Pack(f)
    ensures Unpack(w) == f
  {
    DivModUnique(w, 0x100_0000, f.top, f.h * 0x20_0000 + f.m * 0x1_0000 + f.s * 0x400 + f.n * 32 + f.d);
    DivModUnique(w, 0x20_0000, 8 * f.top + f.h, f.m * 0x1_0000 + f.s * 0x400 + f.n * 32 + f.d);
    DivModUnique(w, 0x1_0000, (8 * f.top + f.h) * 32 + f.m, f.s * 0x400 + f.n * 32 + f.d);
    DivModUnique(w, 0x400, ((8 * f.top + f.h) * 32 + f.m) * 64 + f.s, f.n * 32 + f.d);
    DivModUnique(w, 32, (((8 * f.top + f.h) * 32 + f.m) * 64 + f.s) * 32 + f.n, f.d);
    DivModUnique(w / 0x20_0000, 8, f.top, f.h);
    DivModUnique(w / 0x1_0000, 32, 8 * f.top + f.h, f.m);
    DivModUnique(w / 0x400, 64, (8 * f.top + f.h) * 32 + f.m, f.s);
    DivModUnique(w / 32, 32, ((8 * f.top + f.h) * 32 + f.m) * 64 + f.s, f.n);
  }

  function Imm19(f: Fields): nat {
    ((f.h * 32 + f.m) * 64 + f.s) * 32 + f.n
  }

  function Imm12(f: Fields): nat {
    (f.h % 2) * 2048 + f.m * 64 + f.s
  }

  // Top bytes 0x14..0x17 are B and 0x94..0x97 are BL, whose offset fills the
  // other fields and the low two bits of the top one.
  function Decode(w: U32): Instr {
    var f := Unpack(w);
    if f.top / 4 == 0x05 then B(Signed(w % 0x400_0000, 0x400_0000))
    else if f.top / 4 == 0x25 then Bl(Signed(w % 0x400_0000, 0x400_0000))
    else DecodeFields(f, w)
  }

  function DecodeFields(f: Fields, w: U32): Instr
    requires InRange(f)
  {
    var wide := f.top >= 0x80;
    match f.top
    case 0x35 => CbnzW(f.d, Signed(Imm19(f), 0x8_0000))
    case 0x54 => if f.d < 16 then BCond(f.d, Signed(Imm19(f), 0x8_0000)) else Other(w)
    case 0x58 => LdrLit(f.d, Signed(Imm19(f), 0x8_0000))
    case 0xF8 =>
      if f == Fields(0xF8, 0, 31, 3, 31, f.d) then StrPre(f.d)
      else if f == Fields(0xF8, 2, 1, 1, 31, f.d) then LdrPost(f.d)
      else Other(w)
    case 0xF9 =>
      if f.n != 31 then Other(w)
      else if f.h / 2 == 0 then StrSp(f.d, Imm12(f) * 8)
      else if f.h / 2 == 1 then LdrSp(f.d, Imm12(f) * 8)
      else Other(w)
    case 0xA9 =>
      var imm := Signed((f.h % 2) * 64 + f.m * 2 + f.s / 32, 128) * 8;
      if f.n != 31 then Other(w)
      else if f.h / 2 == 0 then StpSp(f.d, f.s % 32, imm)
      else if f.h / 2 == 1 then LdpSp(f.d, f.s % 32, imm)
      else Other(w)
    case 0x91 => if f.n == 31 && f.h < 2 then AddSpImm(f.d, Imm12(f)) else Other(w)
    case 0xD1 => if f.n == 31 && f.h < 2 then SubSpImm(f.d, Imm12(f)) else Other(w)
    case 0xD6 =>
      if f == Fields(0xD6, 1, 31, 0, f.n, 0) then Blr(f.n)
      else if f == Fields(0xD6, 0, 31, 0, f.n, 0) then Br(f.n)
      else Other(w)
    case 0xD5 =>
      if f == Fields(0xD5, 1, 27, 16, 16, f.d) then MrsNzcv(f.d)
      else if f == Fields(0xD5, 0, 27, 16, 16, f.d) then MsrNzcv(f.d)
      else if f == Fields(0xD5, 0, 3, 15, 26, 31) then Clrex
      else if f == Fields(0xD5, 0, 3, 8, 0, 31) then Nop
      else Other(w)
    case 0x08 | 0x48 | 0x88 | 0xC8 =>
      if f.s % 32 != 31 then Other(w)
      else if f.h == 2 then Ldxr(f.top / 64, f.s >= 32, f.d, f.n)
      else if f.h == 0 then Stxr(f.top / 64, f.s >= 32, f.m, f.d, f.n)
      else Other(w)
    case 0x8B | 0x0B => if f.h == 0 && f.s == 0 then Alu(ADD, wide, f.d, f.n, f.m) else Other(w)
    case 0x8A | 0x0A => if f.h == 1 && f.s == 0 then Alu(BIC, wide, f.d, f.n, f.m) else Other(w)
    case 0xCA | 0x4A => if f.h == 0 && f.s == 0 then Alu(EOR, wide, f.d, f.n, f.m) else Other(w)
    case 0xAA | 0x2A => if f.h == 0 && f.s == 0 then Alu(ORR, wide, f.d, f.n, f.m) else Other(w)
    case 0xEB | 0x6B => if f.h == 0 && f.s == 0 && f.d == 31 then Cmp(wide, f.n, f.m) else Other(w)
    case 0x9A | 0x1A => if f.h == 4 && f.s % 4 == 0 then Csel(wide, f.d, f.n, f.m, f.s / 4) else Other(w)
    case 0x13 =>
      if f.h == 0 && f.m == 0 && f.s == 7 then Sxtb(f.d, f.n)
      else if f.h == 0 && f.m == 0 && f.s == 15 then Sxth(f.d, f.n)
      else Other(w)
    case 0x4E => if f.h == 3 && f.s == 7 then VBic(f.d, f.n, f.m) else Other(w)
    case 0x6E => if f.h == 1 && f.s == 7 then VEor(f.d, f.n, f.m) else Other(w)
    case 0x3C =>
      if f == Fields(0x3C, 4, 31, 3, 31, f.d) then StrQPre(f.d)
      else if f == Fields(0x3C, 6, 1, 1, 31, f.d) then LdrQPost(f.d)
      else Other(w)
    case _ => Other(w)
  }

  function FieldsOfImm19(top: nat, imm: nat, d: Reg): Fields
    requires imm < 0x8_0000
  {
    Fields(top, imm / 0x1_0000, (imm / 0x800) % 32, (imm / 32) % 64, imm % 32, d)
  }

  function FieldsOfImm12(top: nat, h: nat, imm: nat, d: Reg): Fields
    requires imm < 0x1000
  {
    Fields(top, h + imm / 2048, (imm / 64) % 32, imm % 64, 31, d)
  }

  // The field layout that the Arm ARM gives an instruction other than B and BL.
  function FieldsOf(i: Instr): Fields
    requires FieldsFit(i) && !i.B? && !i.Bl? && !i.Other?
  {
    match i
    case StrPre(rt) => Fields(0xF8, 0, 31, 3, 31, rt)
    case LdrPost(rt) => Fields(0xF8, 2, 1, 1, 31, rt)
    case MrsNzcv(rt) => Fields(0xD5, 1, 27, 16, 16, rt)
    case MsrNzcv(rt) => Fields(0xD5, 0, 27, 16, 16, rt)
    case Ldxr(size, acquire, rt, rn) => Fields(0x08 + 64 * size, 2, 0, if acquire then 63 else 31, rn, rt)
    case Stxr(size, release, rs, rt, rn) => Fields(0x08 + 64 * size, 0, rs, if release then 63 else 31, rn, rt)
    case Alu(op, is64, rd, rn, rm) =>
      Fields(AluBase(op, is64) / 0x100_0000, if op == BIC then 1 else 0, rm, 0, rn, rd)
    case Cmp(is64, rn, rm) => Fields(if is64 then 0xEB else 0x6B, 0, rm, 0, rn, 31)
    case Csel(is64, rd, rn, rm, cond) => Fields(if is64 then 0x9A else 0x1A, 4, rm, 4 * cond, rn, rd)
    case Sxtb(rd, rn) => Fields(0x13, 0, 0, 7, rn, rd)
    case Sxth(rd, rn) => Fields(0x13, 0, 0, 15, rn, rd)
    case Clrex => Fields(0xD5, 0, 3, 15, 26, 31)
    case Nop => Fields(0xD5, 0, 3, 8, 0, 31)
    case BCond(cond, offset) => FieldsOfImm19(0x54, offset % 0x8_0000, cond)
    case CbnzW(rt, offset) => FieldsOfImm19(0x35, offset % 0x8_0000, rt)
    case LdrLit(rt, offset) => FieldsOfImm19(0x58, offset % 0x8_0000, rt)
    case VBic(vd, vn, vm) => Fields(0x4E, 3, vm, 7, vn, vd)
    case VEor(vd, vn, vm) => Fields(0x6E, 1, vm, 7, vn, vd)
    case StrQPre(vt) => Fields(0x3C, 4, 31, 3, 31, vt)
    case LdrQPost(vt) => Fields(0x3C, 6, 1, 1, 31, vt)
    case AddSpImm(rd, imm) => FieldsOfImm12(0x91, 0, imm, rd)
    case SubSpImm(rd, imm) => FieldsOfImm12(0xD1, 0, imm, rd)
    case StrSp(rt, imm) => FieldsOfImm12(0xF9, 0, imm / 8, rt)
    case LdrSp(rt, imm) => FieldsOfImm12(0xF9, 2, imm / 8, rt)
    case StpSp(rt, rt2, imm) => Fields(0xA9, 0, imm / 16, imm / 8 % 2 * 32 + rt2, 31, rt)
    case LdpSp(rt, rt2, imm) => Fields(0xA9, 2, imm / 16, imm / 8 % 2 * 32 + rt2, 31, rt)
    case Blr(rn) => Fields(0xD6, 1, 31, 0, rn, 0)
    case Br(rn) => Fields(0xD6, 0, 31, 0, rn, 0)
  }

  // What Decode must give back: the branch offsets lose what their mask dropped.
  function Masked(i: Instr): Instr {
    match i
    case B(offset) => B(Signed(offset % 0x400_0000, 0x400_0000))
    case Bl(offset) => Bl(Signed(offset % 0x400_0000, 0x400_0000))
    case BCond(cond, offset) => BCond(cond, Signed(offset % 0x8_0000, 0x8_0000))
    case CbnzW(rt, offset) => CbnzW(rt, Signed(offset % 0x8_0000, 0x8_0000))
    case LdrLit(rt, offset) => LdrLit(rt, Signed(offset % 0x8_0000, 0x8_0000))
    case _ => i
  }

  lemma Imm19Splits(top: nat, imm: nat, d: Reg)
    requires imm < 0x8_0000
    ensures var f := FieldsOfImm19(top, imm, d);
            f.h < 8 && f.s < 64 && Imm19(f) == imm && Pack(f) == top * 0x100_0000 + imm * 32 + d
  {
    var (a, b) := (imm / 32, imm / 0x800);
    DivModUnique(imm, 0x800, a / 64, a % 64 * 32 + imm % 32);
    DivModUnique(imm, 0x1_0000, b / 32, b % 32 * 0x800 + imm % 0x800);
  }

  lemma Imm12Splits(top: nat, h: nat, imm: nat, d: Reg)
    requires imm < 0x1000 && (h == 0 || h == 2)
    ensures var f := FieldsOfImm12(top, h, imm, d);
            f.h / 2 == h / 2 && f.h < 4 && f.s < 64 && Imm12(f) == imm
            && Pack(f) == top * 0x100_0000 + h * 0x20_0000 + imm * 0x400 + 31 * 32 + d
  {
  }

  predicate HasOffset(i: Instr) {
    i.BCond? || i.CbnzW? || i.LdrLit?
  }

  predicate HasImmediate(i: Instr) {
    i.AddSpImm? || i.SubSpImm? || i.StrSp? || i.LdrSp?
  }

  predicate IsControl(i: Instr) {
    i.MrsNzcv? || i.MsrNzcv? || i.Clrex? || i.Nop? || i.Blr? || i.Br?
  }

  predicate IsPush(i: Instr) {
    i.StrPre? || i.LdrPost? || i.StrQPre? || i.LdrQPost?
  }

  // The hexadecimal constants of the encoders spell out exactly that layout,
  // and the layout reads back as the instruction.
  predicate LaidOut(i: Instr, w: U32)
    requires FieldsFit(i) && !i.B? && !i.Bl? && !i.Other?
  {
    var f := FieldsOf(i);
    && InRange(f) && w == Pack(f)
    && f.top / 4 != 0x05 && f.top / 4 != 0x25
    && DecodeFields(f, w) == Masked(i)
  }

  lemma LayoutOffset(i: Instr)
    requires FieldsFit(i) && HasOffset(i)
    ensures LaidOut(i, Encode(i))
  {
    match i
    case BCond(cond, offset) => Imm19Splits(0x54, offset % 0x8_0000, cond);
    case CbnzW(rt, offset) => Imm19Splits(0x35, offset % 0x8_0000, rt);
    case LdrLit(rt, offset) => Imm19Splits(0x58, offset % 0x8_0000, rt);
  }

  lemma LayoutImmediate(i: Instr)
    requires FieldsFit(i) && HasImmediate(i)
    ensures LaidOut(i, Encode(i))
  {
    match i
    case AddSpImm(rd, imm) => Imm12Splits(0x91, 0, imm, rd);
    case SubSpImm(rd, imm) => Imm12Splits(0xD1, 0, imm, rd);
    case StrSp(rt, imm) => Imm12Splits(0xF9, 0, imm / 8, rt);
    case LdrSp(rt, imm) => Imm12Splits(0xF9, 2, imm / 8, rt);
  }

  lemma LayoutStp(i: Instr)
    requires FieldsFit(i) && i.StpSp?
    ensures LaidOut(i, Encode(i))
  {
    assert i.imm / 16 == i.imm / 8 / 2;
  }

  lemma LayoutLdp(i: Instr)
    requires FieldsFit(i) && i.LdpSp?
    ensures LaidOut(i, Encode(i))
  {
    assert i.imm / 16 == i.imm / 8 / 2;
  }

  lemma LayoutControl(i: Instr)
    requires IsControl(i)
    ensures LaidOut(i, Encode(i))
  {
  }

  lemma LayoutPush(i: Instr)
    requires IsPush(i)
    ensures LaidOut(i, Encode(i))
  {
  }

  lemma LayoutExclusive(i: Instr)
    requires FieldsFit(i) && (i.Ldxr? || i.Stxr?)
    ensures LaidOut(i, Encode(i))
  {
  }

  lemma LayoutAlu(i: Instr)
    requires i.Alu?
    ensures LaidOut(i, Encode(i))
  {
  }

  lemma LayoutCsel(i: Instr)
    requires FieldsFit(i) && i.Csel?
    ensures LaidOut(i, Encode(i))
  {
    assert (4 * i.cond) % 4 == 0 && 4 * i.cond / 4 == i.cond;
  }

  lemma LayoutCmp(i: Instr)
    requires i.Cmp?
    ensures LaidOut(i, Encode(i))
  {
  }

  lemma LayoutExtend(i: Instr)
    requires i.Sxtb? || i.Sxth?
    ensures LaidOut(i, Encode(i))
  {
  }

  lemma LayoutVector(i: Instr)
    requires i.VBic? || i.VEor?
    ensures LaidOut(i, Encode(i))
  {
  }

  lemma Layout(i: Instr)
    requires FieldsFit(i) && !i.B? && !i.Bl? && !i.Other?
    ensures LaidOut(i, Encode(i))
  {
    if HasOffset(i) {
      LayoutOffset(i);
    } else if HasImmediate(i) {
      LayoutImmediate(i);
    } else if IsControl(i) {
      LayoutControl(i);
    } else if IsPush(i) {
      LayoutPush(i);
    } else if i.StpSp? {
      LayoutStp(i);
    } else if i.LdpSp? {
      LayoutLdp(i);
    } else if i.Ldxr? || i.Stxr? {
      LayoutExclusive(i);
    } else if i.Alu? {
      LayoutAlu(i);
    } else if i.Csel? {
      LayoutCsel(i);
    } else if i.Cmp? {
      LayoutCmp(i);
    } else if i.Sxtb? || i.Sxth? {
      LayoutExtend(i);
    } else {
      LayoutVector(i);
    }
  }

  lemma DecodePacked(w: U32, f: Fields)
    requires InRange(f) && w == Pack(f)
    requires f.top / 4 != 0x05 && f.top / 4 != 0x25
    ensures Decode(w) == DecodeFields(f, w)
  {
    UnpackPack(w, f);
  }

  // A word assembled by the encoders decodes to the instruction it was made for.
  lemma DecodeEncode(i: Instr)
    requires FieldsFit(i) && !i.Other?
    ensures Decode(Encode(i)) == Masked(i)
  {
    if i.B? || i.Bl? {
      DecodeBranch(i.offset);
    } else {
      Layout(i);
      DecodePacked(Encode(i), FieldsOf(i));
    }
  }

  lemma DecodeBranch(offset: int)
    ensures Decode(EncB(offset)) == Masked(B(offset))
    ensures Decode(EncBl(offset)) == Masked(Bl(offset))
  {
    var low := offset % 0x400_0000;
    DivModUnique(EncB(offset), 0x100_0000, 0x14 + low / 0x100_0000, low % 0x100_0000);
    DivModUnique(EncBl(offset), 0x100_0000, 0x94 + low / 0x100_0000, low % 0x100_0000);
    DivModUnique(EncB(offset), 0x400_0000, 0x05, low);
    DivModUnique(EncBl(offset), 0x400_0000, 0x25, low);
  }

  // A B reaches its target exactly when the displacement passes the range test
  // of arm64_branch_in_range: an out-of-range offset always decodes elsewhere.
  lemma BranchReaches(offset: int)
    ensures Decode(EncB(offset)) == B(offset) <==> BranchInRange(4 * offset)
    ensures Decode(EncBl(offset)) == Bl(offset) <==> BranchInRange(4 * offset)
  {
    DecodeBranch(offset);
    assert (4 * offset) % 4 == 0 && (4 * offset) / 4 == offset;
  }
}
