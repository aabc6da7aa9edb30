// The ARMv8.1 LSE atomics: decode_lse, the architectural result of each
// operation, and the result the emitted island computes.
module Lse {
  import opened Bits
  import opened Options
  import opened A64

  datatype Op = LDADD | LDCLR | LDEOR | LDSET | LDSMAX | LDSMIN | LDUMAX | LDUMIN | SWP | CAS

  datatype Lse = Lse(op: Op, size: nat, acquire: bool, release: bool, rs: Reg, rt: Reg, rn: Reg)

  function OpOf(opc: nat): Op
    requires opc < 8
  {
    match opc
    case 0 => LDADD
    case 1 => LDCLR
    case 2 => LDEOR
    case 3 => LDSET
    case 4 => LDSMAX
    case 5 => LDSMIN
    case 6 => LDUMAX
    case _ => LDUMIN
  }

  function OpcOf(op: Op): nat
    requires op != CAS
  {
    match op
    case LDADD => 0
    case LDCLR => 1
    case LDEOR => 2
    case LDSET => 3
    case LDSMAX => 4
    case LDSMIN => 5
    case LDUMAX => 6
    case LDUMIN => 7
    case SWP => 0
  }

  // decode_lse: the masks 0x3F200C00 and 0x3FA07C00 compare bits 29..24, 21,
  // 11..10 and bits 29..23, 21, 14..10.
  function DecodeLse(w: U32): (r: Option<Lse>)
    ensures r.Some? ==> r.value.size < 4
  {
    LseOfFields(Unpack(w))
  }

  function LseOfFields(f: Fields): (r: Option<Lse>)
    requires InRange(f)
    ensures r.Some? ==> r.value.size < 4
  {
    if f.top % 64 == 0x38 && f.h % 2 == 1 && f.s % 4 == 0 then
      var op := if f.s >= 32 then SWP else OpOf(f.s / 4);
      Some(Lse(op, f.top / 64, f.h >= 4, f.h % 4 >= 2, f.m, f.d, f.n))
    else if f.top % 64 == 0x08 && f.h % 2 == 1 && f.h >= 4 && f.s % 32 == 31 then
      Some(Lse(CAS, f.top / 64, f.h >= 4, f.s >= 32, f.m, f.d, f.n))
    else None
  }

  // The encoding the architecture gives the instruction. CAS has its acquire
  // bit at position 22; bit 23 is always set.
  function EncodeLse(d: Lse): U32
    requires d.size < 4
  {
    if d.op == CAS then
      0x08A0_7C00 + d.size * 0x4000_0000 + (if d.acquire then 0x40_0000 else 0)
      + d.rs * 0x1_0000 + (if d.release then 0x8000 else 0) + d.rn * 32 + d.rt
    else
      0x3820_0000 + d.size * 0x4000_0000 + (if d.acquire then 0x80_0000 else 0)
      + (if d.release then 0x40_0000 else 0) + d.rs * 0x1_0000
      + (if d.op == SWP then 0x8000 else 0) + OpcOf(d.op) * 0x1000 + d.rn * 32 + d.rt
  }

  function LseFields(d: Lse): Fields
    requires d.size < 4
  {
    var a, r := if d.acquire then 1 else 0, if d.release then 1 else 0;
    if d.op == CAS then Fields(0x08 + 64 * d.size, 5 + 2 * a, d.rs, 31 + 32 * r, d.rn, d.rt)
    else
      var s := (if d.op == SWP then 32 else 0) + 4 * OpcOf(d.op);
      Fields(0x38 + 64 * d.size, 1 + 4 * a + 2 * r, d.rs, s, d.rn, d.rt)
  }

  lemma LseLayout(d: Lse)
    requires d.size < 4
    ensures InRange(LseFields(d)) && EncodeLse(d) == Pack(LseFields(d))
  {
  }

  lemma LseReads(d: Lse)
    requires d.size < 4 && InRange(LseFields(d))
    ensures LseOfFields(LseFields(d)) == Some(if d.op == CAS then d.(acquire := true) else d)
  {
    assert (0x08 + 64 * d.size) % 64 == 0x08 && (0x38 + 64 * d.size) % 64 == 0x38;
  }

  // The decoder inverts the encoding of every LSE instruction, except that a
  // CAS always decodes as acquiring.
  // Nothing else is taken for an LSE instruction, except that bits 14-12 of a SWP and the
  // acquire bit of a CAS are not looked at.
  lemma OnlyLse(w: U32) returns (extra: nat, acquire: bool)
    requires DecodeLse(w).Some?
    ensures var d := DecodeLse(w).value;
            && extra < 8 && (extra != 0 ==> d.op == SWP)
            && w == if d.op == CAS then EncodeLse(d.(acquire := acquire)) else EncodeLse(d) + extra * 0x1000
  {
    var f := Unpack(w);
    PackUnpack(w);
    hide Unpack;
    extra, acquire := if f.top % 64 == 0x38 && f.s >= 32 then f.s / 4 % 8 else 0, f.h % 4 >= 2;
    if f.top % 64 == 0x38 && f.s < 32 {
      OpcRoundTrip(f.s / 4);
    }
  }

  lemma OpcRoundTrip(opc: nat)
    requires opc < 8
    ensures OpcOf(OpOf(opc)) == opc
  {
  }

  lemma DecodeEncodeLse(d: Lse)
    requires d.size < 4
    ensures DecodeLse(EncodeLse(d)) == Some(if d.op == CAS then d.(acquire := true) else d)
  {
    LseLayout(d);
    LseReads(d);
    UnpackPack(EncodeLse(d), LseFields(d));
  }

  function Bytes(size: nat): (n: nat)
    ensures n > 0
  {
    if size == 0 then 1 else if size == 1 then 2 else if size == 2 then 4 else 8
  }

  // 2^width of the memory operand.
  function Span(size: nat): (n: nat)
    ensures n > 0
  {
    if size == 0 then 0x100 else if size == 1 then 0x1_0000 else if size == 2 then TWO32 else TWO64
  }

  lemma SpanIsPow2(size: nat)
    ensures Span(size) == Pow2(8 * Bytes(size))
  {
    Pow2Values();
  }

  // 2^width of the registers the island computes in: W below doubleword, else X.
  function RegSpan(size: nat): nat {
    if size < 3 then TWO32 else TWO64
  }

  lemma Truncate(size: nat, v: int)
    requires size < 4
    ensures (v % RegSpan(size)) % Span(size) == v % Span(size)
  {
    if size == 0 {
      ModOfMod(v, 0x100, 0x100_0000);
    } else if size == 1 {
      ModOfMod(v, 0x1_0000, 0x1_0000);
    }
  }

  // The new memory value, for old memory value m and register values s and t
  // (the contents of Rs and Rt).
  function Architectural(op: Op, size: nat, m: nat, s: U64, t: U64): nat {
    var v, w := s % Span(size), Span(size);
    match op
    case LDADD => (m + v) % w
    case LDCLR => Bitwise(AndNot, m, v)
    case LDEOR => Bitwise(Xor, m, v)
    case LDSET => Bitwise(Or, m, v)
    case LDSMAX => if Signed(m, w) >= Signed(v, w) then m else v
    case LDSMIN => if Signed(m, w) <= Signed(v, w) then m else v
    case LDUMAX => if m >= v then m else v
    case LDUMIN => if m <= v then m else v
    case SWP => v
    case CAS => if m == v then t % w else m
  }

  // The island compares the whole W register for byte and halfword operands of
  // LDUMAX, LDUMIN and CAS, so a set bit above the operand takes part.
  function Emulated(op: Op, size: nat, m: nat, s: U64, t: U64): nat {
    var v, seen := s % Span(size), s % RegSpan(size);
    match op
    case LDUMAX => if m < seen then v else m
    case LDUMIN => if m > seen then v else m
    case CAS => if m == seen then t % Span(size) else m
    case _ => Architectural(op, size, m, s, t)
  }

  // Does Rs hold no bit between the operand width and the register width?
  predicate ZeroExtended(size: nat, s: U64) {
    s % RegSpan(size) < Span(size)
  }

  // The emulation gives the architectural result exactly when Rs is
  // zero-extended or its stray bits cannot change this comparison.
  lemma EmulatedIsArchitectural(op: Op, size: nat, m: nat, s: U64, t: U64)
    requires size < 4 && m < Span(size)
    ensures Emulated(op, size, m, s, t) == Architectural(op, size, m, s, t) <==>
            || (op != LDUMAX && op != LDUMIN && op != CAS)
            || ZeroExtended(size, s)
            || (op != CAS && m <= s % Span(size))
            || (op == CAS && (m != s % Span(size) || t % Span(size) == m))
  {
    Truncate(size, s);
    hide Bitwise, Signed;
  }

  // LDUMAXB on a byte holding 2, with 0x101 in Rs: the island stores 1, although 2 is larger.
  lemma StrayBitsBreakUnsignedMax()
    ensures Emulated(LDUMAX, 0, 2, 0x101, 0) == 1 && Architectural(LDUMAX, 0, 2, 0x101, 0) == 2
    ensures Emulated(CAS, 0, 1, 0x101, 7) == 1 && Architectural(CAS, 0, 1, 0x101, 7) == 7
  {
  }

  lemma EmulatedFits(op: Op, size: nat, m: nat, s: U64, t: U64)
    requires m < Span(size)
    ensures Emulated(op, size, m, s, t) < Span(size)
  {
    SpanIsPow2(size);
    BitwiseBound(AndNot, 8 * Bytes(size), m, s % Span(size));
    BitwiseBound(Xor, 8 * Bytes(size), m, s % Span(size));
    BitwiseBound(Or, 8 * Bytes(size), m, s % Span(size));
  }
}
